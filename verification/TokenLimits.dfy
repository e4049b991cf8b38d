/** The rate-limit half of the MaaSSubscription reconciler
    (maas-controller/pkg/controller/maas/maassubscription_controller.go): one aggregated
    TokenRateLimitPolicy per model, rebuilt from all live subscriptions. */
module TokenLimits {
  import opened Strings
  import opened Sorting
  import opened Cluster

  const MAX_TOKEN_LIMIT := 1_000_000_000
  const MAX_WINDOW_SECONDS := 366 * 24 * 3600
  const DEFAULT_RATES := [RateLimit(100, "1m")]

  // ---- Which rates are accepted ----

  predicate IsDecimal(s: string) {
    forall i :: 0 <= i < |s| ==> '0' <= s[i] <= '9'
  }

  function DecimalValue(s: string): nat
    requires IsDecimal(s)
  {
    if s == "" then 0 else 10 * DecimalValue(s[..|s| - 1]) + (s[|s| - 1] as int - '0' as int)
  }

  /** `^[1-9]\d{0,3}(s|m|h)$`, which is also the CRD pattern of the field. */
  predicate WindowPattern(w: string) {
    2 <= |w| <= 5 && w[0] != '0' && IsDecimal(w[..|w| - 1]) && w[|w| - 1] in {'s', 'm', 'h'}
  }

  function WindowSeconds(w: string): nat
    requires WindowPattern(w)
  {
    var n := DecimalValue(w[..|w| - 1]);
    if w[|w| - 1] == 's' then n else if w[|w| - 1] == 'm' then n * 60 else n * 3600
  }

  /** `validateTokenRateLimit` returns no error. */
  predicate ValidRate(r: RateLimit) {
    0 < r.limit <= MAX_TOKEN_LIMIT && WindowPattern(r.window) && WindowSeconds(r.window) <= MAX_WINDOW_SECONDS
  }

  predicate ValidRates(rs: seq<RateLimit>) {
    forall i :: 0 <= i < |rs| ==> ValidRate(rs[i])
  }

  lemma {:induction false} DecimalBound(s: string)
    requires IsDecimal(s) && |s| <= 4
    ensures DecimalValue(s) <= if |s| == 0 then 0 else if |s| == 1 then 9 else if |s| == 2 then 99
                               else if |s| == 3 then 999 else 9999
  {
    if s != "" {
      DecimalBound(s[..|s| - 1]);
    }
  }

  /** Of the rates the CRD admits, the controller refuses exactly the windows beyond 8784 hours. */
  lemma RefusedRates(r: RateLimit)
    requires 1 <= r.limit <= 1_000_000_000 && WindowPattern(r.window)
    ensures ValidRate(r) <==>
            !(r.window[|r.window| - 1] == 'h' && DecimalValue(r.window[..|r.window| - 1]) > 8784)
  {
    DecimalBound(r.window[..|r.window| - 1]);
  }

  // ---- Specification, model by model ----

  /** The rates of the first reference to `key` whose rates are all valid. */
  function EffectiveRates(refs: seq<SubRef>, key: Key): Option<seq<RateLimit>> {
    if refs == [] then None
    else if refs[0].key == key && refs[0].limits == [] then Some(DEFAULT_RATES)
    else if refs[0].key == key && ValidRates(refs[0].limits) then Some(refs[0].limits)
    else EffectiveRates(refs[1..], key)
  }

  function RefKeys(refs: seq<SubRef>): seq<Key> {
    seq(|refs|, i requires 0 <= i < |refs| => refs[i].key)
  }

  /** `findAllSubscriptionsForModel`. */
  ghost function LiveSubs(s: State, key: Key): set<string> {
    set n | n in s.subscriptions && !s.subscriptions[n].deleting && key in RefKeys(s.subscriptions[n].refs)
  }

  ghost function EffectiveSubs(s: State, key: Key): set<string> {
    set n | n in LiveSubs(s, key) && EffectiveRates(s.subscriptions[n].refs, key).Some?
  }

  /** `{namespace}/{name}@{modelNamespace}/{modelName}`: what the AuthPolicy puts in
      `selected_subscription_key` and what each limit's predicate compares it with. */
  function SubscriptionKey(ns: string, name: string, key: Key): string {
    ns + ['/'] + (name + ['@'] + (key.ns + ['/'] + key.name))
  }

  function Replace(s: string, a: char, b: char): string {
    seq(|s|, i requires 0 <= i < |s| => if s[i] == a then b else s[i])
  }

  function LimitKey(ns: string, name: string, key: Key): string {
    Replace(ns + "/" + name, '/', '-') + "-" + key.name + "-tokens"
  }

  /** Names are DNS labels. */
  ghost predicate WellNamed(s: State) {
    && '/' !in s.namespace && '@' !in s.namespace
    && forall n :: n in s.subscriptions ==> '/' !in n && '@' !in n && ',' !in n
  }

  lemma LimitKeyInjective(ns: string, n: string, n': string, key: Key)
    requires '/' !in n && '/' !in n' && LimitKey(ns, n, key) == LimitKey(ns, n', key)
    ensures n == n'
  {
    var a, b, tail := Replace(ns + "/" + n, '/', '-'), Replace(ns + "/" + n', '/', '-'), "-" + key.name + "-tokens";
    assert LimitKey(ns, n, key) == a + tail && LimitKey(ns, n', key) == b + tail;
    assert |a| == |b|;
    assert a == (a + tail)[..|a|] && b == (b + tail)[..|b|];
    assert |a| == |ns| + 1 + |n| && |b| == |ns| + 1 + |n'|;
    forall i | 0 <= i < |n| ensures n[i] == n'[i] {
      assert (ns + "/" + n)[|ns| + 1 + i] == n[i] && (ns + "/" + n')[|ns| + 1 + i] == n'[i];
      assert n[i] in n && n'[i] in n';
      assert a[|ns| + 1 + i] == b[|ns| + 1 + i];
    }
  }

  ghost function Entry(s: State, n: string, key: Key): LimitEntry
    requires n in EffectiveSubs(s, key)
  {
    LimitEntry(EffectiveRates(s.subscriptions[n].refs, key).value, SubscriptionKey(s.namespace, n, key))
  }

  lemma LimitKeysDistinct(s: State, key: Key)
    requires WellNamed(s)
    ensures forall n, n' ::
              (n in EffectiveSubs(s, key) && n' in EffectiveSubs(s, key) &&
               LimitKey(s.namespace, n, key) == LimitKey(s.namespace, n', key)) ==> n == n'
  {
    forall n, n' | n in EffectiveSubs(s, key) && n' in EffectiveSubs(s, key) &&
                   LimitKey(s.namespace, n, key) == LimitKey(s.namespace, n', key) ensures n == n' {
      LimitKeyInjective(s.namespace, n, n', key);
    }
  }

  /** One entry per effective subscription among `subs`. */
  ghost function LimitsOf(s: State, key: Key, subs: set<string>): map<string, LimitEntry>
    requires WellNamed(s) && subs <= EffectiveSubs(s, key)
  {
    LimitKeysDistinct(s, key);
    map n | n in subs :: LimitKey(s.namespace, n, key) := Entry(s, n, key)
  }

  function Deleted(cur: Option<TokenPolicy>): Option<TokenPolicy> {
    if cur.Some? && IsManaged(cur.value.managed) then None else cur
  }

  ghost function Aggregate(s: State, key: Key, managed: Option<string>, accepted: bool): TokenPolicy
    requires WellNamed(s) && Resolve(s, key).Route?
  {
    TokenPolicy(Join(Arranged(EffectiveSubs(s, key)), ','), LimitsOf(s, key, EffectiveSubs(s, key)),
                Resolve(s, key).name, Resolve(s, key).name, managed, accepted)
  }

  /** The policy to update is controlled by a route other than the model's, which `SetControllerReference` refuses. */
  ghost predicate Conflict(s: State, key: Key, cur: Option<TokenPolicy>) {
    && cur.Some? && IsManaged(cur.value.managed) && EffectiveSubs(s, key) != {}
    && Resolve(s, key).Route? && Resolve(s, key).name != cur.value.owner
  }

  /** `reconcileTRLPForModel` returns an error. */
  ghost predicate RefError(s: State, key: Key, cur: Option<TokenPolicy>) {
    (Resolve(s, key).UnknownKind? && LiveSubs(s, key) != {}) || Conflict(s, key, cur)
  }

  /** What `reconcileTRLPForModel` leaves at `key`. */
  ghost function AfterRef(s: State, key: Key, cur: Option<TokenPolicy>): Option<TokenPolicy>
    requires WellNamed(s)
  {
    match Resolve(s, key)
    case ModelMissing => Deleted(cur)
    case RouteMissing => if LiveSubs(s, key) == {} then Deleted(cur) else cur
    case UnknownKind => if LiveSubs(s, key) == {} then Deleted(cur) else cur
    case Route(_) =>
      if cur.Some? && !IsManaged(cur.value.managed) then cur
      else if EffectiveSubs(s, key) == {} then Deleted(cur)
      else if cur.None? then Some(Aggregate(s, key, None, false))
      else if Conflict(s, key, cur) then cur
      else Some(Aggregate(s, key, cur.value.managed, cur.value.accepted))
  }

  predicate Lists(t: TokenPolicy, subscription: string) {
    subscription in Split(t.contributors, ',')
  }

  /** References reconciled before the first error. A pass visits a key once, so its first object decides. */
  ghost function Reached(s: State, keys: seq<Key>): seq<Key> {
    if keys == [] || RefError(s, keys[0], s.trlps.Get(keys[0])) then [] else [keys[0]] + Reached(s, keys[1..])
  }

  lemma {:induction false} ReachedMembers(s: State, keys: seq<Key>, key: Key)
    requires key in Reached(s, keys)
    ensures key in keys && !RefError(s, key, s.trlps.Get(key))
  {
    if key != keys[0] {
      ReachedMembers(s, keys[1..], key);
    }
  }

  /** What one pass over the keys of `subscription`, followed by the stale clean-up, leaves at `key`. */
  ghost function AfterPass(s: State, subscription: string, keys: seq<Key>, key: Key): Option<TokenPolicy>
    requires WellNamed(s)
  {
    var cur := s.trlps.Get(key);
    if key in Reached(s, keys) then AfterRef(s, key, cur)
    else if Reached(s, keys) == keys && key !in keys && cur.Some? && Lists(cur.value, subscription) then Deleted(cur)
    else cur
  }

  // ---- Exactness and isolation ----

  lemma SubscriptionKeyInjective(ns: string, n: string, key: Key, ns': string, n': string, key': Key)
    requires '/' !in ns && '/' !in ns' && '@' !in n && '@' !in n' && '/' !in key.ns && '/' !in key'.ns
    requires SubscriptionKey(ns, n, key) == SubscriptionKey(ns', n', key')
    ensures ns == ns' && n == n' && key == key'
  {
    var m, m' := key.ns + ['/'] + key.name, key'.ns + ['/'] + key'.name;
    GlueInjective(ns, n + ['@'] + m, ns', n' + ['@'] + m', '/');
    GlueInjective(n, m, n', m', '@');
    GlueInjective(key.ns, key.name, key'.ns, key'.name, '/');
  }

  lemma ExactLimits(s: State, key: Key)
    requires WellNamed(s)
    ensures var limits := LimitsOf(s, key, EffectiveSubs(s, key));
            && limits.Keys == (set n | n in EffectiveSubs(s, key) :: LimitKey(s.namespace, n, key))
            && |limits| == |EffectiveSubs(s, key)|
            && forall n :: n in EffectiveSubs(s, key) ==> limits[LimitKey(s.namespace, n, key)] == Entry(s, n, key)
  {
    LimitKeysDistinct(s, key);
    LimitCount(s, key, EffectiveSubs(s, key));
  }

  lemma ExactContributors(s: State, key: Key)
    requires WellNamed(s) && EffectiveSubs(s, key) != {}
    ensures Split(Join(Arranged(EffectiveSubs(s, key)), ','), ',') == Arranged(EffectiveSubs(s, key))
    ensures forall n :: n in Arranged(EffectiveSubs(s, key)) <==> n in EffectiveSubs(s, key)
  {
    var subs := EffectiveSubs(s, key);
    var names := Arranged(subs);
    assert forall n :: n in names <==> n in Elems(names);
    var q :| q in subs;
    SplitJoin(names, ',');
  }

  /** `t` has one limit per effective subscription and no other, names exactly those subscriptions, and targets
      the model's route, which controls it; with no effective subscription there is no policy. */
  ghost predicate IsExact(s: State, key: Key, cur: Option<TokenPolicy>)
    requires Resolve(s, key).Route?
  {
    && (cur.None? <==> EffectiveSubs(s, key) == {})
    && (cur.Some? ==>
          var t := cur.value;
          && t.limits.Keys == (set n | n in EffectiveSubs(s, key) :: LimitKey(s.namespace, n, key))
          && |t.limits| == |EffectiveSubs(s, key)|
          && (forall n :: n in EffectiveSubs(s, key) ==>
                t.limits[LimitKey(s.namespace, n, key)] == Entry(s, n, key))
          && (forall n :: Lists(t, n) <==> n in EffectiveSubs(s, key))
          && t.route == s.routes[key] == t.owner)
  }

  lemma AggregateIsExact(s: State, key: Key, managed: Option<string>, accepted: bool)
    requires WellNamed(s) && Resolve(s, key).Route? && EffectiveSubs(s, key) != {}
    ensures IsExact(s, key, Some(Aggregate(s, key, managed, accepted)))
  {
    ExactLimits(s, key);
    ExactContributors(s, key);
  }

  /** When the route resolves and the policy is managed, reconciling a model leaves exactly one limit per
      effective subscription, or no policy when there is none, if and only if no other route controls a policy
      that is still needed. */
  lemma Exactness(s: State, key: Key, cur: Option<TokenPolicy>)
    requires WellNamed(s) && Resolve(s, key).Route? && (cur.Some? ==> IsManaged(cur.value.managed))
    ensures IsExact(s, key, AfterRef(s, key, cur)) <==>
            cur.None? || cur.value.owner == s.routes[key] || EffectiveSubs(s, key) == {}
    ensures RefError(s, key, cur) <==> !IsExact(s, key, AfterRef(s, key, cur))
  {
    if EffectiveSubs(s, key) != {} {
      AggregateIsExact(s, key, if cur.Some? then cur.value.managed else None, cur.Some? && cur.value.accepted);
    }
  }

  lemma {:induction false} LimitCount(s: State, key: Key, subs: set<string>)
    requires WellNamed(s) && subs <= EffectiveSubs(s, key)
    ensures |LimitsOf(s, key, subs)| == |subs|
    decreases subs
  {
    LimitKeysDistinct(s, key);
    if subs != {} {
      var n :| n in subs;
      LimitStep(s, key, subs - {n}, n);
      assert subs - {n} + {n} == subs;
      LimitCount(s, key, subs - {n});
      assert LimitKey(s.namespace, n, key) !in LimitsOf(s, key, subs - {n});
    }
  }

  lemma LimitStep(s: State, key: Key, subs: set<string>, n: string)
    requires WellNamed(s) && subs <= EffectiveSubs(s, key) && n in EffectiveSubs(s, key)
    ensures LimitsOf(s, key, subs + {n}) ==
            LimitsOf(s, key, subs)[LimitKey(s.namespace, n, key) := Entry(s, n, key)]
  {
    LimitKeysDistinct(s, key);
  }

  /** A request that selected subscription `ns/n` for this model is limited by that subscription's entry and
      by no other entry of the policy. */
  lemma Isolation(s: State, key: Key, ns: string, n: string, lk: string)
    requires WellNamed(s) && Resolve(s, key).Route? && EffectiveSubs(s, key) != {}
    requires '/' !in ns && '@' !in n && '/' !in key.ns
    requires lk in Aggregate(s, key, None, false).limits
    ensures Aggregate(s, key, None, false).limits[lk].subscriptionKey == SubscriptionKey(ns, n, key) <==>
            ns == s.namespace && n in EffectiveSubs(s, key) && lk == LimitKey(s.namespace, n, key)
  {
    LimitKeysDistinct(s, key);
    var m :| m in EffectiveSubs(s, key) && lk == LimitKey(s.namespace, m, key);
    if SubscriptionKey(s.namespace, m, key) == SubscriptionKey(ns, n, key) {
      SubscriptionKeyInjective(s.namespace, m, key, ns, n, key);
    }
  }

  lemma FlattenedName(ns: string, n: string)
    requires '/' !in ns && '/' !in n
    ensures Replace(ns + "/" + n, '/', '-') == ns + "-" + n
  {
    forall i | 0 <= i < |ns| ensures ns[i] != '/' {
      assert ns[i] in ns;
    }
    forall i | 0 <= i < |n| ensures n[i] != '/' {
      assert n[i] in n;
    }
  }

  /** Limit keys collide exactly when the hyphenated names do. In one namespace that is never, and neither is it for
      namespaces without a hyphen, but in general only the single watched namespace keeps entries apart. */
  lemma LimitKeysCollideIff(ns: string, n: string, ns': string, n': string, key: Key)
    requires '/' !in ns && '/' !in n && '/' !in ns' && '/' !in n'
    ensures LimitKey(ns, n, key) == LimitKey(ns', n', key) <==> ns + "-" + n == ns' + "-" + n'
    ensures ns == ns' || ('-' !in ns && '-' !in ns') ==>
            (LimitKey(ns, n, key) == LimitKey(ns', n', key) <==> ns == ns' && n == n')
  {
    FlattenedName(ns, n);
    FlattenedName(ns', n');
    var a, b, tail := ns + "-" + n, ns' + "-" + n', "-" + key.name + "-tokens";
    assert LimitKey(ns, n, key) == a + tail && LimitKey(ns', n', key) == b + tail;
    if a + tail == b + tail {
      assert |a| == |b| && a == (a + tail)[..|a|] && b == (b + tail)[..|b|];
      if ns == ns' {
        assert n == a[|ns| + 1..] && n' == b[|ns| + 1..];
      } else if '-' !in ns && '-' !in ns' {
        GlueInjective(ns, n, ns', n', '-');
      }
    }
  }

  /** A collision, of two subscriptions whose keys differ. */
  lemma LimitKeyAcrossNamespaces(key: Key)
    ensures LimitKey("a", "b-c", key) == LimitKey("a-b", "c", key)
    ensures SubscriptionKey("a", "b-c", key) != SubscriptionKey("a-b", "c", key)
  {
    assert Replace("a" + "/" + "b-c", '/', '-') == "a-b-c" == Replace("a-b" + "/" + "c", '/', '-');
    assert SubscriptionKey("a", "b-c", key)[1] == '/' && SubscriptionKey("a-b", "c", key)[1] == '-';
  }
}
