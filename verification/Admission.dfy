/** Where the two services meet: the status the controller writes and the selector of maas-api that trusts it. */
module Admission {
  import opened Strings
  import opened Cluster
  import opened TokenLimits
  import opened Phases
  import Subscriptions
  import TokenMeaning
  import Selector
  import SelectionMeaning

  // ---- Parsing a MaaSSubscription (selector.go:263-424) ----

  function PhaseText(p: Phase): string {
    match p
    case Unreconciled => ""
    case Active => Selector.ACTIVE
    case Degraded => Selector.DEGRADED
    case Failed => Selector.FAILED
  }

  function ParsedLimits(limits: seq<RateLimit>): (r: seq<Selector.RateLimit>)
    ensures |r| == |limits|
  {
    seq(|limits|, i requires 0 <= i < |limits| => Selector.RateLimit(limits[i].limit, limits[i].window))
  }

  function ParsedRefs(refs: seq<SubRef>): (r: seq<Selector.ModelRefInfo>)
    ensures |r| == |refs|
  {
    seq(|refs|, i requires 0 <= i < |refs| =>
      Selector.ModelRefInfo(refs[i].key.ns, refs[i].key.name, ParsedLimits(refs[i].limits)))
  }

  function ReasonText(r: Reason): string {
    match r
    case Valid => "Valid"
    case NotFound => "NotFound"
    case GetFailed => "GetFailed"
    case BackendNotReady => "BackendNotReady"
    case Accepted => "Accepted"
    case NotAccepted => "NotAccepted"
  }

  function ParsedStatus(t: LimitStatus): Selector.TrlpStatus {
    Selector.TrlpStatus(t.model, "maas-trlp-" + t.model, t.ns, t.ready, ReasonText(t.reason))
  }

  function ParsedStatuses(limits: seq<LimitStatus>): (r: seq<Selector.TrlpStatus>)
    ensures |r| == |limits|
  {
    seq(|limits|, i requires 0 <= i < |limits| => ParsedStatus(limits[i]))
  }

  /** `view` is what maas-api parses from the stored subscription `name`. */
  ghost predicate Reads(view: Selector.Subscription, s: State, name: string) {
    && name in s.subscriptions && view.name == name && view.ns == s.namespace
    && view.modelRefs == ParsedRefs(s.subscriptions[name].refs)
    && view.phase == PhaseText(s.subscriptions[name].status.phase)
    && view.trlpStatuses == ParsedStatuses(s.subscriptions[name].status.limits)
  }

  ghost predicate DistinctNames(keys: seq<Key>) {
    forall k, k' :: k in keys && k' in keys && k.name == k'.name ==> k == k'
  }

  /** The first reference with this bare name: the one whose status the selector looks at. */
  function FirstNamedKey(keys: seq<Key>, name: string): Option<Key> {
    if keys == [] then None else if keys[0].name == name then Some(keys[0]) else FirstNamedKey(keys[1..], name)
  }

  /** The first reference to `key` has rate limits, and no reference before it has the same bare name. */
  ghost predicate Unambiguous(refs: seq<SubRef>, key: Key) {
    FirstNamedKey(RefKeys(refs), key.name) == Some(key) && Selector.HasRateLimits(ParsedRefs(refs), key.ns, key.name)
  }

  function ModelPath(key: Key): string {
    key.ns + ['/'] + key.name
  }

  // ---- Lemmas about the parsed lists ----

  lemma {:induction false} FirstRefDecides(refs: seq<SubRef>, key: Key)
    requires key in RefKeys(refs) && forall i :: 0 <= i < |refs| ==> refs[i].limits != []
    ensures Selector.HasRateLimits(ParsedRefs(refs), key.ns, key.name)
  {
    var parsed := ParsedRefs(refs);
    assert parsed[0].limits != [] by { assert |parsed[0].limits| == |refs[0].limits|; }
    if refs[0].key != key {
      assert parsed[1..] == ParsedRefs(refs[1..]);
      var i :| 0 <= i < |refs| && RefKeys(refs)[i] == key;
      assert RefKeys(refs[1..])[i - 1] == key;
      FirstRefDecides(refs[1..], key);
    }
  }

  lemma {:induction false} FirstNamedSnoc(keys: seq<Key>, last: Key, name: string)
    ensures FirstNamedKey(keys + [last], name) ==
            if FirstNamedKey(keys, name).Some? then FirstNamedKey(keys, name)
            else if last.name == name then Some(last) else None
  {
    if keys != [] {
      assert (keys + [last])[1..] == keys[1..] + [last];
      FirstNamedSnoc(keys[1..], last, name);
    }
  }

  lemma {:induction false} FirstNamedMember(keys: seq<Key>, name: string)
    ensures FirstNamedKey(keys, name).Some? <==> exists k :: k in keys && k.name == name
    ensures FirstNamedKey(keys, name).Some? ==>
            FirstNamedKey(keys, name).value in keys && FirstNamedKey(keys, name).value.name == name
  {
    if keys != [] {
      FirstNamedMember(keys[1..], name);
      assert keys == [keys[0]] + keys[1..];
    }
  }

  lemma {:induction false} FirstNamedDistinct(keys: seq<Key>, name: string)
    ensures FirstNamedKey(Distinct(keys), name) == FirstNamedKey(keys, name)
  {
    if keys != [] {
      var init, last := keys[..|keys| - 1], keys[|keys| - 1];
      assert keys == init + [last];
      FirstNamedDistinct(init, name);
      FirstNamedSnoc(init, last, name);
      FirstNamedSnoc(Distinct(init), last, name);
      FirstNamedMember(init, name);
    }
  }

  function StatusList(s: State, keys: seq<Key>): (r: seq<LimitStatus>)
    ensures |r| == |keys|
  {
    seq(|keys|, i requires 0 <= i < |keys| => LimitStatusOf(s, keys[i]))
  }

  lemma {:induction false} FirstStatusDecides(s: State, keys: seq<Key>, name: string)
    ensures Selector.TrlpReady(ParsedStatuses(StatusList(s, keys)), name) <==>
            FirstNamedKey(keys, name).Some? && LimitStatusOf(s, FirstNamedKey(keys, name).value).ready
  {
    if keys != [] {
      var parsed := ParsedStatuses(StatusList(s, keys));
      assert parsed[0].model == keys[0].name;
      if keys[0].name != name {
        assert parsed[1..] == ParsedStatuses(StatusList(s, keys[1..]));
        FirstStatusDecides(s, keys[1..], name);
      }
    }
  }

  /** The selector reads the status of the first reference with the bare name, whichever namespace it is in. */
  lemma GateReadsFirst(s: State, keys: seq<Key>, name: string)
    ensures Selector.TrlpReady(ParsedStatuses(LimitStatuses(s, keys)), name) <==>
            FirstNamedKey(keys, name).Some? && LimitStatusOf(s, FirstNamedKey(keys, name).value).ready
  {
    FirstNamedDistinct(keys, name);
    assert LimitStatuses(s, keys) == StatusList(s, Distinct(keys));
    FirstStatusDecides(s, Distinct(keys), name);
  }

  /** Distinct bare names and a rate limit on every reference leave nothing ambiguous. */
  lemma DistinctIsUnambiguous(refs: seq<SubRef>, key: Key)
    requires DistinctNames(RefKeys(refs)) && key in RefKeys(refs)
    requires forall i :: 0 <= i < |refs| ==> refs[i].limits != []
    ensures Unambiguous(refs, key)
  {
    FirstRefDecides(refs, key);
    FirstNamedMember(RefKeys(refs), key.name);
  }

  lemma IncludedKey(refs: seq<SubRef>, view: Selector.Subscription, key: Key)
    requires view.modelRefs == ParsedRefs(refs) && '/' !in key.ns
    requires Selector.IncludesModel(view, ModelPath(key))
    ensures key in RefKeys(refs)
  {
    CutGlue(key.ns, '/', key.name);
    var ref :| ref in view.modelRefs && ref.ns == key.ns && ref.name == key.name;
    var i :| 0 <= i < |refs| && view.modelRefs[i] == ref;
    assert RefKeys(refs)[i] == key;
  }

  // ---- Admission implies an accepted limit ----

  /** The status of `name` was written by the reconcile `s -> s'` for the spec it still has. */
  ghost predicate Fresh(s: State, name: string, s': State)
  {
    WellNamed(s) && name in s.subscriptions && !s.subscriptions[name].deleting && Subscriptions.Reconciles(s, name, s')
  }

  lemma FreshStatus(s: State, name: string, s': State)
    requires Fresh(s, name, s')
    ensures var sub, keys := s'.subscriptions[name], RefKeys(s.subscriptions[name].refs);
            sub.refs == s.subscriptions[name].refs && (sub.status.phase == Failed || sub.status == StatusOf(s', keys))
  {
    Subscriptions.StatusesIgnore(s.(trlps := s'.trlps), s', RefKeys(s.subscriptions[name].refs));
  }

  /** The gate of a Degraded subscription, exactly: what it lets through is a model without rate limits of its own,
      or one whose bare name is first used by a model with an accepted policy. */
  lemma DegradedGateIff(s: State, name: string, s': State, view: Selector.Subscription, key: Key)
    requires Fresh(s, name, s') && Reads(view, s', name) && '/' !in key.ns && view.phase == Selector.DEGRADED
    requires key in RefKeys(s.subscriptions[name].refs)
    ensures FirstNamedKey(RefKeys(s.subscriptions[name].refs), key.name).Some?
    ensures Selector.CheckModelHealth(view, ModelPath(key)).None? <==>
            || !Selector.HasRateLimits(view.modelRefs, key.ns, key.name)
            || LimitStatusOf(s', FirstNamedKey(RefKeys(s.subscriptions[name].refs), key.name).value).ready
  {
    var keys := RefKeys(s.subscriptions[name].refs);
    FreshStatus(s, name, s');
    CutGlue(key.ns, '/', key.name);
    FirstNamedMember(keys, key.name);
    GateReadsFirst(s', keys, key.name);
    assert ModelPath(key) != "" by { assert '/' in ModelPath(key); }
  }

  /** If the selector admits a request for a model under a freshly written status, the token policy of that model
      exists and is accepted, whether the subscription is Active or Degraded. Only in Degraded does the gate need
      the bare name to be unambiguous. */
  lemma AdmittedIsEnforced(s: State, name: string, s': State, view: Selector.Subscription, key: Key)
    requires Fresh(s, name, s') && Reads(view, s', name) && '/' !in key.ns
    requires view.phase == Selector.DEGRADED ==> Unambiguous(s.subscriptions[name].refs, key)
    requires Selector.IncludesModel(view, ModelPath(key)) && Selector.CheckModelHealth(view, ModelPath(key)).None?
    ensures key in RefKeys(s.subscriptions[name].refs) && LimitStatusOf(s', key).ready
    ensures Resolve(s', key).Route? && key in s'.trlps.items && s'.trlps.items[key].accepted
  {
    var refs := s.subscriptions[name].refs;
    FreshStatus(s, name, s');
    IncludedKey(refs, view, key);
    if view.phase == Selector.DEGRADED {
      DegradedGateIff(s, name, s', view, key);
    } else {
      assert ModelPath(key) != "" by { assert '/' in ModelPath(key); }
      ActiveIff(FinalModels(s', RefKeys(refs)), LimitStatuses(s', RefKeys(refs)));
      StatusMembers(s', RefKeys(refs), key);
    }
  }

  /** Some entry of the model's token policy applies to requests that selected `ns/name`. */
  ghost predicate Limited(s: State, key: Key, ns: string, name: string) {
    key in s.trlps.items &&
    exists lk :: lk in s.trlps.items[key].limits &&
                 s.trlps.items[key].limits[lk].subscriptionKey == SubscriptionKey(ns, name, key)
  }

  /** The same for a whole selection: what `Select` returns for the model is enforced, and the request is limited
      by its own subscription exactly when the spec has a reference to the model with valid rates. */
  lemma SelectedIsEnforced(
      s: State, name: string, s': State, list: seq<Selector.Subscription>, view: Selector.Subscription,
      q: Selector.Query, key: Key)
    requires Fresh(s, name, s') && Reads(view, s', name) && '/' !in key.ns
    requires view.phase == Selector.DEGRADED ==> Unambiguous(s.subscriptions[name].refs, key)
    requires s.trlps.Get(key).Some? ==> IsManaged(s.trlps.Get(key).value.managed)
    requires Selector.UniqueNames(list) && view in list
    requires q.model == ModelPath(key) && Selector.Selected(list, q) == Selector.Ok(Selector.ToResponse(view))
    ensures key in s'.trlps.items && s'.trlps.items[key].accepted
    ensures Limited(s', key, view.ns, view.name) <==> EffectiveRates(s.subscriptions[name].refs, key).Some?
  {
    Selector.SelectedIsHealthy(list, q, view);
    assert q.model != "" by { assert '/' in ModelPath(key); }
    AdmittedIsEnforced(s, name, s', view, key);
    assert s'.subscriptions[name].status.phase != Failed;
    EnforcedExactly(s, name, s', key);
  }

  lemma EnforcedExactly(s: State, name: string, s': State, key: Key)
    requires Fresh(s, name, s') && key in RefKeys(s.subscriptions[name].refs) && '/' !in key.ns
    requires Resolve(s', key).Route? && key in s'.trlps.items
    requires s.trlps.Get(key).Some? ==> IsManaged(s.trlps.Get(key).value.managed)
    requires s'.subscriptions[name].status.phase != Failed
    ensures Limited(s', key, s.namespace, name) <==> EffectiveRates(s.subscriptions[name].refs, key).Some?
  {
    var keys := RefKeys(s.subscriptions[name].refs);
    assert Subscriptions.HasValidModels(s, keys) by {
      var i :| 0 <= i < |keys| && keys[i] == key;
      assert keys[i] in s.models;
    }
    assert Reached(s, keys) == keys;
    assert s'.trlps.Get(key) == AfterPass(s, name, keys, key);
    ReachedMembers(s, keys, key);
    RebuiltLimits(s, name, key, s.trlps.Get(key));
    assert s'.trlps.items[key] == AfterRef(s, key, s.trlps.Get(key)).value;
  }

  /** What a reconcile without an error leaves has an entry for `name` exactly when `name` is effective. */
  lemma RebuiltLimits(s: State, name: string, key: Key, cur: Option<TokenPolicy>)
    requires WellNamed(s) && name in s.subscriptions && '/' !in key.ns && Resolve(s, key).Route?
    requires (cur.Some? ==> IsManaged(cur.value.managed)) && !RefError(s, key, cur)
    requires AfterRef(s, key, cur).Some?
    ensures var t := AfterRef(s, key, cur).value;
            (exists lk :: lk in t.limits &&
                          t.limits[lk].subscriptionKey == SubscriptionKey(s.namespace, name, key)) <==>
            name in EffectiveSubs(s, key)
  {
    var t := AfterRef(s, key, cur).value;
    assert t.limits == LimitsOf(s, key, EffectiveSubs(s, key));
    LimitKeysDistinct(s, key);
    if name in EffectiveSubs(s, key) {
      assert LimitKey(s.namespace, name, key) in t.limits;
    } else {
      forall lk | lk in t.limits ensures t.limits[lk].subscriptionKey != SubscriptionKey(s.namespace, name, key) {
        Subscriptions.LimitOwner(s, key, name, lk);
      }
    }
  }

  // ---- The converse: what is enforced is served ----

  /** Once every referenced model is served with an accepted policy, a reconcile without errors makes the selector admit
      every owner's request for each of them. */
  lemma EnforcedIsServed(
      s: State, name: string, s': State, view: Selector.Subscription, key: Key, q: Selector.Query)
    requires Fresh(s, name, s') && TokenMeaning.NoErrors(s, name) && Reads(view, s', name)
    requires TokenMeaning.ListedIn(s.subscriptions[name].refs, key) && q.model == key.ns + "/" + key.name
    requires forall k :: TokenMeaning.ListedIn(s.subscriptions[name].refs, k) ==> TokenMeaning.Enforcing(s', k)
    requires Selector.PlainName(view) && SelectionMeaning.PlainRefs(view) && (q.groups != [] || q.username != "")
    requires SelectionMeaning.Asked(view, q) && SelectionMeaning.Owned(view, q.username, q.groups)
    ensures Selector.Selected([view], q).Ok? && view.phase == "Active"
  {
    var refs := s.subscriptions[name].refs;
    TokenMeaning.StatusMeaning(s, name, s');
    var i :| 0 <= i < |refs| && refs[i].key == key;
    assert view.modelRefs[i].ns + "/" + view.modelRefs[i].name == q.model;
    SelectionMeaning.LoneOk(view, q);
  }

  // ---- Two inputs on which the promise fails ----

  const A := Key("a", "llm")
  const B := Key("b", "llm")
  const GOOD := [RateLimit(10, "1h")]
  const REFUSED := [RateLimit(10, "9999h")]

  function Using(refs: seq<SubRef>): Subscription {
    Subscription(refs, false, true, SubStatus(Unreconciled, [], []))
  }

  /** Two served models of one bare name in two namespaces. */
  function Serving(subs: map<string, Subscription>, trlps: map<Key, TokenPolicy>): State {
    State("maas", map[], subs, map[A := Model(false, true, true), B := Model(false, true, true)],
          map[A := "ra", B := "rb"], Objects(map[], 0), Objects(trlps, 1))
  }

  lemma SampleRates()
    ensures ValidRates(GOOD) && !ValidRates(REFUSED)
    ensures WindowPattern(REFUSED[0].window) && 1 <= REFUSED[0].limit <= MAX_TOKEN_LIMIT
  {
    var h, w := "1h", "9999h";
    assert h[..1] == "1" && "1"[..0] == "";
    assert DecimalValue("1") == 1;
    assert WindowPattern(h) && WindowSeconds(h) == 3600;
    assert w[..4] == "9999" && "9999"[..3] == "999" && "999"[..2] == "99" && "99"[..1] == "9" && "9"[..0] == "";
    assert DecimalValue("9999") == 9999;
    assert !ValidRate(REFUSED[0]);
  }

  /** Every referenced model holds its aggregate and nothing else is generated, so a pass changes nothing. */
  ghost predicate Aggregated(s: State, keys: seq<Key>)
    requires WellNamed(s)
  {
    forall key :: if key in keys then
                    Resolve(s, key).Route? && EffectiveSubs(s, key) != {} &&
                    exists accepted :: s.trlps.Get(key) == Some(Aggregate(s, key, None, accepted))
                  else s.trlps.Get(key).None?
  }

  /** From such a state the reconcile of `name` writes its status and no more. */
  lemma AggregatedIsFresh(s: State, name: string, s': State)
    requires WellNamed(s) && name in s.subscriptions && !s.subscriptions[name].deleting &&
             s.subscriptions[name].finalizer
    requires s.subscriptions[name].refs != [] && Aggregated(s, RefKeys(s.subscriptions[name].refs))
    requires var keys := RefKeys(s.subscriptions[name].refs);
             s' == s.(subscriptions := s.subscriptions[name := s.subscriptions[name].(status := StatusOf(s, keys))])
    ensures Fresh(s, name, s')
  {
    var keys := RefKeys(s.subscriptions[name].refs);
    assert keys[0] in keys;
    assert Subscriptions.HasValidModels(s, keys) by { assert keys[0] in s.models; }
    forall i | 0 <= i < |keys| ensures !Subscriptions.Errs(s, keys[i]) {
      assert keys[i] in keys;
    }
    Subscriptions.CompleteIff(s, keys);
    forall key ensures s'.trlps.Get(key) == AfterPass(s, name, keys, key) {
    }
    assert s.(trlps := s'.trlps) == s;
  }

  /** The view of a fresh subscription for user "u". */
  function ViewOf(name: string, sub: Subscription): Selector.Subscription {
    Selector.Subscription(
      name, "maas", "", "", [], ["u"], 0, "", "", map[], ParsedRefs(sub.refs), PhaseText(sub.status.phase),
      sub.status.phase == Active, None, ParsedStatuses(sub.status.limits))
  }

  function Asking(key: Key): Selector.Query {
    Selector.Query([], "u", "", ModelPath(key))
  }

  lemma Admits(name: string, sub: Subscription, key: Key)
    requires key in RefKeys(sub.refs) && '/' !in key.ns
    requires Selector.CheckModelHealth(ViewOf(name, sub), ModelPath(key)).None?
    ensures var view := ViewOf(name, sub);
            Selector.Selected([view], Asking(key)) == Selector.Ok(Selector.ToResponse(view))
  {
    var view, q := ViewOf(name, sub), Asking(key);
    CutGlue(key.ns, '/', key.name);
    var i :| 0 <= i < |sub.refs| && RefKeys(sub.refs)[i] == key;
    assert view.modelRefs[i] in view.modelRefs;
    assert "u" in view.users;
    Selector.AloneIsSelected(view, q);
  }

  function Tenants(): map<string, Subscription> {
    map["good" := Using([SubRef(A, GOOD)]), "bad" := Using([SubRef(A, REFUSED)])]
  }

  lemma TenantSubs(trlps: map<Key, TokenPolicy>)
    ensures var s := Serving(Tenants(), trlps);
            WellNamed(s) && Resolve(s, A) == Route("ra") && EffectiveSubs(s, A) == {"good"}
    ensures RefKeys(Using([SubRef(A, REFUSED)]).refs) == [A] &&
            EffectiveRates(Using([SubRef(A, REFUSED)]).refs, A).None?
  {
    SampleRates();
    assert Using([SubRef(A, REFUSED)]).refs[1..] == [];
    assert RefKeys(Using([SubRef(A, GOOD)]).refs) == [A] && RefKeys(Using([SubRef(A, REFUSED)]).refs) == [A];
    assert EffectiveRates(Using([SubRef(A, GOOD)]).refs, A) == Some(GOOD);
    var s := Serving(Tenants(), trlps);
    assert RefKeys(s.subscriptions["good"].refs)[0] == A && "good" != "bad";
    assert EffectiveRates(s.subscriptions["bad"].refs, A).None?;
    assert EffectiveRates(s.subscriptions["good"].refs, A) == Some(GOOD);
    assert "good" in LiveSubs(s, A);
    assert "good" in EffectiveSubs(s, A);
    assert s.subscriptions.Keys == {"good", "bad"};
    assert forall n :: n in EffectiveSubs(s, A) <==> n == "good";
  }

  lemma TenantState() returns (s: State)
    ensures s == Serving(Tenants(), s.trlps.items) && WellNamed(s) && Aggregated(s, [A])
    ensures LimitStatusOf(s, A).ready && A in s.trlps.items && s.trlps.items[A].accepted && A in s.models
    ensures IsManaged(s.trlps.items[A].managed)
  {
    var none := Serving(Tenants(), map[]);
    TenantSubs(map[]);
    var t := Aggregate(none, A, None, true);
    s := Serving(Tenants(), map[A := t]);
    TenantSubs(map[A := t]);
    AggregateIgnores(none, s, A, true);
  }

  /** A subscription whose rates pass the CRD but not the controller is reported Active all the same, once another
      subscription gives its model an accepted policy; the selector admits its requests, and no limit applies. */
  lemma RefusedRatesGoUnlimited() returns (s: State, s': State, view: Selector.Subscription)
    ensures Fresh(s, "bad", s') && s.subscriptions["bad"].refs == [SubRef(A, REFUSED)] && Reads(view, s', "bad")
    ensures WindowPattern(REFUSED[0].window) && 1 <= REFUSED[0].limit <= MAX_TOKEN_LIMIT
    ensures s'.subscriptions["bad"].status.phase == Active && A in s'.trlps.items && s'.trlps.items[A].accepted
    ensures Selector.Selected([view], Asking(A)) == Selector.Ok(Selector.ToResponse(view))
    ensures !Limited(s', A, s'.namespace, "bad")
  {
    SampleRates();
    s := TenantState();
    TenantSubs(s.trlps.items);
    s' := s.(subscriptions := s.subscriptions["bad" := s.subscriptions["bad"].(status := StatusOf(s, [A]))]);
    AggregatedIsFresh(s, "bad", s');
    AloneIsActive(s, A);
    EnforcedExactly(s, "bad", s', A);
    view := ViewOf("bad", s'.subscriptions["bad"]);
    ActiveAdmits(view, A);
    Admits("bad", s'.subscriptions["bad"], A);
  }

  lemma AggregateIgnores(none: State, s: State, key: Key, accepted: bool)
    requires WellNamed(none) && Subscriptions.SameInputs(none, s) && Resolve(none, key).Route?
    ensures WellNamed(s) && Aggregate(s, key, None, accepted) == Aggregate(none, key, None, accepted)
  {
    Subscriptions.SameSubs(none, s, key);
    Subscriptions.SameLimits(none, s, key);
  }

  lemma ActiveAdmits(view: Selector.Subscription, key: Key)
    requires view.phase == Selector.ACTIVE
    ensures Selector.CheckModelHealth(view, ModelPath(key)).None?
  {
    assert '/' in ModelPath(key);
  }

  function Both(): map<string, Subscription> {
    map["both" := Using([SubRef(A, GOOD), SubRef(B, GOOD)])]
  }

  lemma BothSubs(trlps: map<Key, TokenPolicy>)
    ensures var s := Serving(Both(), trlps);
            && WellNamed(s) && Resolve(s, A) == Route("ra") && Resolve(s, B) == Route("rb")
            && EffectiveSubs(s, A) == {"both"} && EffectiveSubs(s, B) == {"both"}
    ensures RefKeys(Both()["both"].refs) == [A, B]
  {
    SampleRates();
    var refs := Both()["both"].refs;
    assert refs[1..] == [SubRef(B, GOOD)];
    assert RefKeys(refs) == [A, B];
    assert RefKeys(refs)[0] == A && RefKeys(refs)[1] == B;
    assert EffectiveRates(refs, A) == Some(GOOD);
    assert EffectiveRates(refs[1..], B) == Some(GOOD);
    var s := Serving(Both(), trlps);
    assert forall n :: n in EffectiveSubs(s, A) <==> n == "both";
    assert forall n :: n in EffectiveSubs(s, B) <==> n == "both";
  }

  lemma BothState() returns (s: State)
    ensures s == Serving(Both(), s.trlps.items) && WellNamed(s) && Aggregated(s, [A, B])
    ensures LimitStatusOf(s, A).ready && LimitStatusOf(s, B).reason == NotAccepted
    ensures B in s.trlps.items && !s.trlps.items[B].accepted
  {
    var none := Serving(Both(), map[]);
    BothSubs(map[]);
    var ta, tb := Aggregate(none, A, None, true), Aggregate(none, B, None, false);
    s := Serving(Both(), map[A := ta, B := tb]);
    BothSubs(map[A := ta, B := tb]);
    AggregateIgnores(none, s, A, true);
    AggregateIgnores(none, s, B, false);
  }

  /** A bare name shared by two namespaces: the policy of the first model is accepted, that of the second is not,
      and a Degraded subscription to both still admits requests for the second. */
  lemma SharedNameSlipsThrough() returns (s: State, s': State, view: Selector.Subscription)
    ensures Fresh(s, "both", s') && s.subscriptions == Both() && Reads(view, s', "both")
    ensures s'.subscriptions["both"].status.phase == Degraded
    ensures B in s'.trlps.items && !s'.trlps.items[B].accepted
    ensures Selector.Selected([view], Asking(B)) == Selector.Ok(Selector.ToResponse(view))
  {
    s := BothState();
    BothSubs(s.trlps.items);
    s' := s.(subscriptions := s.subscriptions["both" := s.subscriptions["both"].(status := StatusOf(s, [A, B]))]);
    AggregatedIsFresh(s, "both", s');
    OneUnacceptedDegrades(s, A, B);
    view := ViewOf("both", s'.subscriptions["both"]);
    DegradedGateIff(s, "both", s', view, B);
    Admits("both", s'.subscriptions["both"], B);
  }

  lemma OneUnacceptedDegrades(s: State, k: Key, k': Key)
    requires k != k' && k in s.models && k' in s.models
    requires LimitStatusOf(s, k).ready && LimitStatusOf(s, k').reason == NotAccepted
    ensures StatusOf(s, [k, k']).phase == Degraded
  {
    var keys := [k, k'];
    assert k in keys && k' in keys;
    var models, limits := FinalModels(s, keys), LimitStatuses(s, keys);
    StatusMembers(s, keys, k');
    AdjustmentIsNoOpIff(s, keys);
    ActiveIff(models, limits);
    forall i | 0 <= i < |models| ensures models[i].ready {
      ContradictedIff(s, keys, Distinct(keys)[i]);
    }
    ReadyCounts(models);
    assert models != [] by { assert k in Distinct(keys); }
  }
}
