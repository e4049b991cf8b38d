/** The part of the Kubernetes API that the MaaS reconcilers read and write. Reads are current, calls do not
    fail, and steps run one at a time. Both route resolvers return the model's own namespace
    (maas-controller/pkg/controller/maas/providers_llmisvc.go:202-218, providers_external.go:227-231), so one
    generated AuthPolicy and one generated TokenRateLimitPolicy can exist per model key. */
module Cluster {
  import opened Strings

  /** Namespace and name; the source's `ns + "/" + name` strings stand for the same pair, since
      DNS labels (section 2.1 of RFC 1123) hold no slash. */
  datatype Key = Key(ns: string, name: string)

  datatype RateLimit = RateLimit(limit: int, window: string)

  datatype Policy = Policy(refs: seq<Key>, groups: seq<string>, users: seq<string>, deleting: bool, finalizer: bool)

  datatype SubRef = SubRef(key: Key, limits: seq<RateLimit>)

  datatype Reason = Valid | NotFound | GetFailed | BackendNotReady | Accepted | NotAccepted

  datatype Phase = Unreconciled | Active | Degraded | Failed

  datatype ModelStatus = ModelStatus(key: Key, ready: bool, reason: Reason)

  /** Status of one TokenRateLimitPolicy; only the bare model name identifies the model. */
  datatype LimitStatus = LimitStatus(model: string, ns: string, ready: bool, reason: Reason)

  datatype SubStatus = SubStatus(phase: Phase, models: seq<ModelStatus>, limits: seq<LimitStatus>)

  datatype Subscription = Subscription(refs: seq<SubRef>, deleting: bool, finalizer: bool, status: SubStatus)

  datatype Model = Model(deleting: bool, finalizer: bool, knownKind: bool)

  /** A generated AuthPolicy: the contributor annotation, the allowed subjects, the targeted route and the
      `opendatahub.io/managed` annotation. `optedOutOnce` is a history variable. */
  datatype AuthPolicy = AuthPolicy(
    contributors: string, groups: seq<string>, users: seq<string>, route: string,
    managed: Option<string>, optedOutOnce: bool)

  /** One entry of a generated TokenRateLimitPolicy and the subscription key its predicate compares with. */
  datatype LimitEntry = LimitEntry(rates: seq<RateLimit>, subscriptionKey: string)

  /** `owner` is the HTTPRoute in the controller reference, `route` the one the policy targets. */
  datatype TokenPolicy = TokenPolicy(
    contributors: string, limits: map<string, LimitEntry>, route: string, owner: string,
    managed: Option<string>, accepted: bool)

  /** Generated objects of one kind, by model key, with the number of API writes made to them. */
  datatype Objects<T> = Objects(items: map<Key, T>, writes: nat) {
    function Get(key: Key): Option<T> {
      if key in items then Some(items[key]) else None
    }

    /** Create or update; the reconcilers skip an update that changes nothing. */
    function Put(key: Key, value: T): Objects<T> {
      Objects(items[key := value], writes + 1)
    }

    function Delete(key: Key): Objects<T> {
      if key in items then Objects(items - {key}, writes + 1) else this
    }

    /** At most one write, and none when `key` already holds `value`. */
    ghost function SetTo(key: Key, value: Option<T>): Objects<T> {
      if value == Get(key) then this
      else if value.Some? then Put(key, value.value)
      else Delete(key)
    }
  }

  /** Writes are counted, and none is made without an effect. */
  ghost predicate Honest<T(!new)>(before: Objects<T>, after: Objects<T>) {
    before.writes <= after.writes && ((forall key :: before.Get(key) == after.Get(key)) ==> before == after)
  }

  datatype State = State(
    namespace: string,
    policies: map<string, Policy>,
    subscriptions: map<string, Subscription>,
    models: map<Key, Model>,
    routes: map<Key, string>,
    auths: Objects<AuthPolicy>,
    trlps: Objects<TokenPolicy>)

  /** `isManaged`: only an explicit "false" opts out. */
  predicate IsManaged(annotation: Option<string>) {
    annotation != Some("false")
  }

  datatype Resolution = Route(name: string) | ModelMissing | RouteMissing | UnknownKind

  /** `findHTTPRouteForModel`. */
  function Resolve(s: State, key: Key): Resolution {
    if key !in s.models || s.models[key].deleting then ModelMissing
    else if !s.models[key].knownKind then UnknownKind
    else if key !in s.routes then RouteMissing
    else Route(s.routes[key])
  }

  class ApiServer {
    const namespace: string
    var policies: map<string, Policy>
    var subscriptions: map<string, Subscription>
    var models: map<Key, Model>
    var routes: map<Key, string>
    var auths: Objects<AuthPolicy>
    var trlps: Objects<TokenPolicy>

    constructor (s: State)
      ensures Snapshot() == s
    {
      namespace, policies, subscriptions := s.namespace, s.policies, s.subscriptions;
      models, routes, auths, trlps := s.models, s.routes, s.auths, s.trlps;
    }

    function Snapshot(): State
      reads this
    {
      State(namespace, policies, subscriptions, models, routes, auths, trlps)
    }
  }
}
