/** The MaaSSubscription reconciler as a whole: rate-limit aggregation, stale clean-up, status and deletion
    (maas-controller/pkg/controller/maas/maassubscription_controller.go:325-791). */
module Subscriptions {
  import opened Strings
  import opened Sorting
  import opened Cluster
  import opened TokenLimits
  import opened Phases

  // ---- The transition of one Reconcile ----

  ghost predicate HasValidModels(s: State, keys: seq<Key>) {
    exists i :: 0 <= i < |keys| && keys[i] in s.models
  }

  /** What stale clean-up alone leaves at `key`. */
  ghost function Cleaned(cur: Option<TokenPolicy>, key: Key, subscription: string,
                         keys: seq<Key>): Option<TokenPolicy> {
    if key !in keys && cur.Some? && Lists(cur.value, subscription) then Deleted(cur) else cur
  }

  ghost predicate Passes(s: State, name: string, keys: seq<Key>, trlps: Objects<TokenPolicy>)
    requires WellNamed(s)
  {
    forall key :: trlps.Get(key) == AfterPass(s, name, keys, key)
  }

  ghost predicate Cleans(s: State, name: string, keys: seq<Key>, trlps: Objects<TokenPolicy>) {
    forall key :: trlps.Get(key) == Cleaned(s.trlps.Get(key), key, name, keys)
  }

  ghost predicate Complete(s: State, keys: seq<Key>) {
    Reached(s, keys) == keys
  }

  /** Reconciling the object `key` has in `s` returns an error. */
  ghost predicate Errs(s: State, key: Key) {
    RefError(s, key, s.trlps.Get(key))
  }

  lemma {:induction false} CompleteIff(s: State, keys: seq<Key>)
    ensures Complete(s, keys) <==> forall i :: 0 <= i < |keys| ==> !Errs(s, keys[i])
  {
    if keys != [] {
      CompleteIff(s, keys[1..]);
      assert forall i :: 0 <= i < |keys| - 1 ==> keys[1..][i] == keys[i + 1];
    }
  }

  /** The token policies after reconciling a live subscription. */
  ghost predicate LivePass(s: State, name: string, keys: seq<Key>, trlps: Objects<TokenPolicy>)
    requires WellNamed(s)
  {
    if HasValidModels(s, keys) then Passes(s, name, keys, trlps) else Cleans(s, name, keys, trlps)
  }

  /** The status written for it, from the token policies after the pass. */
  ghost function LiveStatus(s: State, keys: seq<Key>, oldLimits: seq<LimitStatus>,
                            trlps: Objects<TokenPolicy>): SubStatus {
    if HasValidModels(s, keys) && !Complete(s, keys) then SubStatus(Failed, ModelStatuses(s, keys), oldLimits)
    else StatusOf(s.(trlps := trlps), keys)
  }

  ghost predicate Reconciles(s: State, name: string, s': State)
    requires WellNamed(s)
  {
    if name !in s.subscriptions then s' == s
    else
      var sub := s.subscriptions[name];
      var keys := RefKeys(sub.refs);
      && s' == s.(trlps := s'.trlps, subscriptions := s'.subscriptions) && Honest(s.trlps, s'.trlps)
      && if sub.deleting then
           if !sub.finalizer then s' == s
           else Passes(s, name, keys, s'.trlps) &&
                s'.subscriptions == if Complete(s, keys) then s.subscriptions - {name} else s.subscriptions
         else
           LivePass(s, name, keys, s'.trlps) &&
           s'.subscriptions ==
             s.subscriptions[name := sub.(finalizer := true,
                                          status := LiveStatus(s, keys, sub.status.limits, s'.trlps))]
  }

  /** No error is returned, so the reconcile is not retried. */
  ghost predicate Succeeds(s: State, name: string) {
    name in s.subscriptions ==>
      var sub := s.subscriptions[name];
      var keys := RefKeys(sub.refs);
      (if sub.deleting then sub.finalizer else HasValidModels(s, keys)) ==> Complete(s, keys)
  }

  /** A reconcile leaves at each key nothing, what was there, or the aggregate. */
  ghost predicate TokenFate(s: State, key: Key, after: Option<TokenPolicy>)
    requires WellNamed(s)
  {
    || after.None?
    || after == s.trlps.Get(key)
    || (Resolve(s, key).Route? && EffectiveSubs(s, key) != {} &&
        (s.trlps.Get(key).Some? ==> s.trlps.Get(key).value.owner == after.value.owner) &&
        after.value == Aggregate(s, key, after.value.managed, after.value.accepted))
  }

  lemma TokenFateOf(s: State, name: string, s': State, key: Key)
    requires WellNamed(s) && Reconciles(s, name, s')
    ensures TokenFate(s, key, s'.trlps.Get(key))
  {
    if name in s.subscriptions {
      var sub := s.subscriptions[name];
      var keys := RefKeys(sub.refs);
      if sub.deleting && !sub.finalizer {
      } else if sub.deleting || HasValidModels(s, keys) {
        assert s'.trlps.Get(key) == AfterPass(s, name, keys, key);
        if key in Reached(s, keys) {
          ReachedMembers(s, keys, key);
        }
      } else {
        assert s'.trlps.Get(key) == Cleaned(s.trlps.Get(key), key, name, keys);
      }
    }
  }

  // ---- Deletion without a gap ----

  /** A state of the token policies in the middle of a pass over `keys`: each key is untouched, rebuilt, or,
      when it is not among `keys`, cleaned up. */
  ghost predicate Stage(s: State, name: string, keys: seq<Key>, trlps: Objects<TokenPolicy>)
    requires WellNamed(s)
  {
    forall key :: StageAt(s, name, keys, key, trlps.Get(key))
  }

  ghost predicate StageAt(s: State, name: string, keys: seq<Key>, key: Key, cur: Option<TokenPolicy>)
    requires WellNamed(s)
  {
    || cur == s.trlps.Get(key)
    || (key in keys && cur == AfterRef(s, key, s.trlps.Get(key)))
    || cur == Cleaned(s.trlps.Get(key), key, name, keys)
  }

  /** All states from `first` to `last`: no two neighbours are more than one API write apart. */
  ghost predicate Trace(trace: seq<Objects<TokenPolicy>>, first: Objects<TokenPolicy>, last: Objects<TokenPolicy>) {
    && trace != [] && trace[0] == first && trace[|trace| - 1] == last
    && forall i :: 0 <= i < |trace| - 1 ==> trace[i + 1].writes <= trace[i].writes + 1
  }

  ghost predicate HasLimit(s: State, t: Option<TokenPolicy>, n: string, key: Key)
    requires n in EffectiveSubs(s, key)
  {
    t.Some? && LimitKey(s.namespace, n, key) in t.value.limits &&
      t.value.limits[LimitKey(s.namespace, n, key)] == Entry(s, n, key)
  }

  /** A trace of stages of the pass. */
  ghost predicate Traced(s: State, name: string, keys: seq<Key>, trace: seq<Objects<TokenPolicy>>,
                         last: Objects<TokenPolicy>)
    requires WellNamed(s)
  {
    Trace(trace, s.trlps, last) && forall i :: 0 <= i < |trace| ==> Stage(s, name, keys, trace[i])
  }

  lemma Extend(s: State, name: string, keys: seq<Key>, trace: seq<Objects<TokenPolicy>>, last: Objects<TokenPolicy>,
               next: Objects<TokenPolicy>)
    requires WellNamed(s) && Traced(s, name, keys, trace, last) && Stage(s, name, keys, next) &&
             next.writes <= last.writes + 1
    ensures Traced(s, name, keys, trace + [next], next)
  {
  }

  /** Whatever limit another live subscription had on a model of the deleted one, it keeps throughout. */
  lemma NoGap(s: State, name: string, trlps: Objects<TokenPolicy>, other: string, key: Key)
    requires WellNamed(s) && name in s.subscriptions && Stage(s, name, RefKeys(s.subscriptions[name].refs), trlps)
    requires key in RefKeys(s.subscriptions[name].refs) && Resolve(s, key).Route?
    requires other in EffectiveSubs(s, key) && HasLimit(s, s.trlps.Get(key), other, key)
    ensures HasLimit(s, trlps.Get(key), other, key)
  {
    ExactLimits(s, key);
    assert StageAt(s, name, RefKeys(s.subscriptions[name].refs), key, trlps.Get(key));
  }

  /** Afterwards no managed policy on those models limits the deleted subscription. */
  lemma DeletedLeavesNoLimit(s: State, name: string, s': State, key: Key, lk: string)
    requires WellNamed(s) && name in s.subscriptions && s.subscriptions[name].deleting &&
             s.subscriptions[name].finalizer
    requires Reconciles(s, name, s') && name !in s'.subscriptions
    requires key in RefKeys(s.subscriptions[name].refs) && Resolve(s, key).Route? && '/' !in key.ns
    requires s.trlps.Get(key).Some? ==> IsManaged(s.trlps.Get(key).value.managed)
    ensures s'.trlps.Get(key).None? <==> EffectiveSubs(s, key) == {}
    ensures s'.trlps.Get(key).Some? && lk in s'.trlps.Get(key).value.limits ==>
            lk != LimitKey(s.namespace, name, key) &&
            s'.trlps.Get(key).value.limits[lk].subscriptionKey != SubscriptionKey(s.namespace, name, key)
  {
    var keys := RefKeys(s.subscriptions[name].refs);
    assert Complete(s, keys);
    assert s'.trlps.Get(key) == AfterPass(s, name, keys, key);
    ReachedMembers(s, keys, key);
    Exactness(s, key, s.trlps.Get(key));
    assert name !in EffectiveSubs(s, key);
    if s'.trlps.Get(key).Some? && lk in s'.trlps.Get(key).value.limits {
      LimitOwner(s, key, name, lk);
    }
  }

  lemma LimitOwner(s: State, key: Key, name: string, lk: string)
    requires WellNamed(s) && '/' !in key.ns && name in s.subscriptions && name !in EffectiveSubs(s, key)
    requires lk in LimitsOf(s, key, EffectiveSubs(s, key))
    ensures lk != LimitKey(s.namespace, name, key)
    ensures LimitsOf(s, key, EffectiveSubs(s, key))[lk].subscriptionKey != SubscriptionKey(s.namespace, name, key)
  {
    LimitKeysDistinct(s, key);
    var m :| m in EffectiveSubs(s, key) && lk == LimitKey(s.namespace, m, key);
    if lk == LimitKey(s.namespace, name, key) {
      LimitKeyInjective(s.namespace, m, name, key);
    }
    if SubscriptionKey(s.namespace, m, key) == SubscriptionKey(s.namespace, name, key) {
      SubscriptionKeyInjective(s.namespace, m, key, s.namespace, name, key);
    }
  }

  // ---- When a deletion completes ----

  /** The finalizer is released exactly when no referenced model errs; until then the subscription stays. */
  lemma ReleasedIff(s: State, name: string, s': State)
    requires WellNamed(s) && name in s.subscriptions && s.subscriptions[name].deleting &&
             s.subscriptions[name].finalizer
    requires Reconciles(s, name, s')
    ensures name !in s'.subscriptions <==> forall key :: key in RefKeys(s.subscriptions[name].refs) ==> !Errs(s, key)
    ensures name in s'.subscriptions ==> s'.subscriptions == s.subscriptions
  {
    var keys := RefKeys(s.subscriptions[name].refs);
    CompleteIff(s, keys);
    assert forall i :: 0 <= i < |keys| ==> keys[i] in keys;
  }

  /** A policy controlled by the model's former route is left as it was, with the limits of deleted subscriptions,
      by every reconcile of a subscription that references the model. */
  lemma ConflictStays(s: State, name: string, s': State, key: Key)
    requires WellNamed(s) && name in s.subscriptions && Reconciles(s, name, s')
    requires key in RefKeys(s.subscriptions[name].refs) && Conflict(s, key, s.trlps.Get(key))
    ensures s'.trlps.Get(key) == s.trlps.Get(key)
    ensures s.subscriptions[name].deleting ==> s'.subscriptions == s.subscriptions
    ensures !s.subscriptions[name].deleting ==> s'.subscriptions[name].status.phase == Failed
  {
    var keys := RefKeys(s.subscriptions[name].refs);
    var i :| 0 <= i < |keys| && keys[i] == key;
    CompleteIff(s, keys);
    assert Errs(s, keys[i]);
    if key in Reached(s, keys) {
      ReachedMembers(s, keys, key);
    }
    assert HasValidModels(s, keys) by { assert keys[i] in s.models; }
    if !s.subscriptions[name].deleting || s.subscriptions[name].finalizer {
      assert s'.trlps.Get(key) == AfterPass(s, name, keys, key);
    }
  }

  const MODEL := Key("team", "llm")
  const OTHER := Key("team", "other")

  function OneRef(key: Key, deleting: bool): Subscription {
    Subscription([SubRef(key, [])], deleting, true, SubStatus(Unreconciled, [], []))
  }

  function TwoModels(subs: map<string, Subscription>, route: string, trlps: map<Key, TokenPolicy>): State {
    State("maas", map[], subs, map[MODEL := Model(false, true, true), OTHER := Model(false, true, true)],
          map[MODEL := route, OTHER := "other"], Objects(map[], 0), Objects(trlps, 1))
  }

  lemma OneRefRates(key: Key, deleting: bool)
    ensures RefKeys(OneRef(key, deleting).refs) == [key]
    ensures forall k :: EffectiveRates(OneRef(key, deleting).refs, k) == if k == key then Some(DEFAULT_RATES) else None
  {
    assert OneRef(key, deleting).refs[1..] == [];
  }

  function Retargeted(t: TokenPolicy): State {
    TwoModels(map["gone" := OneRef(MODEL, true), "stay" := OneRef(MODEL, false)], "b", map[MODEL := t])
  }

  /** Retargeting a served model: its policy was built for route "a" and two subscriptions, the model now resolves
      to "b", and one of the subscriptions is deleted. Reconciling the deletion changes nothing at all, so it never
      completes, and the policy stays as it is. */
  lemma RetargetedModelIsStuck(t: TokenPolicy, s': State)
    requires t.owner == "a" && IsManaged(t.managed)
    ensures var s := Retargeted(t);
            && WellNamed(s) && Resolve(s, MODEL) == Route("b")
            && Conflict(s, MODEL, s.trlps.Get(MODEL)) && !IsExact(s, MODEL, s.trlps.Get(MODEL))
            && Reconciles(s, "gone", s) && (Reconciles(s, "gone", s') ==> s'.subscriptions == s.subscriptions)
  {
    var s := Retargeted(t);
    OneRefRates(MODEL, true);
    OneRefRates(MODEL, false);
    assert RefKeys(s.subscriptions["stay"].refs)[0] == MODEL && RefKeys(s.subscriptions["gone"].refs) == [MODEL];
    assert "stay" in EffectiveSubs(s, MODEL);
    assert s.trlps.Get(MODEL) == Some(t);
    CompleteIff(s, [MODEL]);
    assert Errs(s, [MODEL][0]);
    forall key ensures s.trlps.Get(key) == AfterPass(s, "gone", [MODEL], key) {
    }
  }

  // ---- Exactly when another subscription loses its limit ----

  /** Whatever a reconcile of `name` does, another subscription loses its limit on a served model exactly when the
      reconcile succeeds and cleans up a managed policy that lists `name`, on a model `name` no longer references. */
  lemma GapIff(s: State, name: string, s': State, other: string, key: Key)
    requires WellNamed(s) && name in s.subscriptions && Reconciles(s, name, s')
    requires s.subscriptions[name].deleting ==> s.subscriptions[name].finalizer
    requires Resolve(s, key).Route? && other in EffectiveSubs(s, key) && HasLimit(s, s.trlps.Get(key), other, key)
    ensures HasLimit(s, s'.trlps.Get(key), other, key) <==>
            || !Succeeds(s, name)
            || key in RefKeys(s.subscriptions[name].refs)
            || !IsManaged(s.trlps.Get(key).value.managed)
            || !Lists(s.trlps.Get(key).value, name)
  {
    var keys := RefKeys(s.subscriptions[name].refs);
    if s.subscriptions[name].deleting || HasValidModels(s, keys) {
      assert s'.trlps.Get(key) == AfterPass(s, name, keys, key);
      if key in Reached(s, keys) {
        ReachedMembers(s, keys, key);
        ExactLimits(s, key);
      }
    } else {
      assert s'.trlps.Get(key) == Cleaned(s.trlps.Get(key), key, name, keys);
    }
  }

  /** For a completed deletion that leaves the models dropped from the spec before it. */
  lemma DeletionGapIff(s: State, name: string, s': State, other: string, key: Key)
    requires WellNamed(s) && name in s.subscriptions && s.subscriptions[name].deleting &&
             s.subscriptions[name].finalizer
    requires Reconciles(s, name, s') && name !in s'.subscriptions
    requires Resolve(s, key).Route? && other in EffectiveSubs(s, key) && HasLimit(s, s.trlps.Get(key), other, key)
    ensures HasLimit(s, s'.trlps.Get(key), other, key) <==>
            || key in RefKeys(s.subscriptions[name].refs)
            || !IsManaged(s.trlps.Get(key).value.managed)
            || !Lists(s.trlps.Get(key).value, name)
  {
    GapIff(s, name, s', other, key);
  }

  function Shared(): TokenPolicy {
    TokenPolicy("gone,stay", map[LimitKey("maas", "stay", MODEL) :=
                                   LimitEntry(DEFAULT_RATES, SubscriptionKey("maas", "stay", MODEL))],
                "a", "a", None, true)
  }

  function Dropped(trlps: map<Key, TokenPolicy>): State {
    TwoModels(map["gone" := OneRef(OTHER, true), "stay" := OneRef(MODEL, false)], "a", trlps)
  }

  lemma SharedLists()
    ensures Lists(Shared(), "gone")
  {
    var names := ["gone", "stay"];
    assert names[1..] == ["stay"];
    assert "gone,stay" == Join(names, ',');
    SplitJoin(names, ',');
    assert names[0] == "gone";
  }

  lemma DroppedFacts(s: State)
    requires s == Dropped(map[MODEL := Shared()])
    ensures WellNamed(s) && Resolve(s, MODEL) == Route("a") && Resolve(s, OTHER) == Route("other")
    ensures RefKeys(s.subscriptions["gone"].refs) == [OTHER] && Complete(s, [OTHER]) && EffectiveSubs(s, OTHER) == {}
    ensures "stay" in EffectiveSubs(s, MODEL) && HasLimit(s, s.trlps.Get(MODEL), "stay", MODEL)
  {
    OneRefRates(OTHER, true);
    OneRefRates(MODEL, false);
    assert RefKeys(s.subscriptions["stay"].refs) == [MODEL];
    assert RefKeys(s.subscriptions["stay"].refs)[0] == MODEL;
    assert EffectiveSubs(s, OTHER) == {};
    CompleteIff(s, [OTHER]);
  }

  lemma CleansTheOnly(s: State, name: string, key: Key, t: TokenPolicy, k: Key)
    requires WellNamed(s) && Complete(s, [k]) && Resolve(s, k).Route? && EffectiveSubs(s, k) == {}
    requires s.trlps.items == map[key := t] && key != k && IsManaged(t.managed) && Lists(t, name)
    ensures forall x :: AfterPass(s, name, [k], x).None?
  {
  }

  /** Such a step: "gone" moved from one model to another and is deleted before it is reconciled again, so the
      first model loses its whole policy, the limit of "stay" included. */
  lemma DroppedModelSeesAGap() returns (s: State, s': State)
    ensures WellNamed(s) && Reconciles(s, "gone", s') && s == Dropped(map[MODEL := Shared()])
    ensures "stay" in EffectiveSubs(s, MODEL) && HasLimit(s, s.trlps.Get(MODEL), "stay", MODEL)
    ensures "gone" !in s'.subscriptions && "stay" in s'.subscriptions && s'.trlps.Get(MODEL).None?
  {
    s := Dropped(map[MODEL := Shared()]);
    s' := s.(subscriptions := s.subscriptions - {"gone"}, trlps := Objects(map[], 2));
    DroppedFacts(s);
    SharedLists();
    CleansTheOnly(s, "gone", MODEL, Shared(), OTHER);
    assert Passes(s, "gone", [OTHER], s'.trlps);
  }

  // ---- Reached references ----

  lemma {:induction false} ReachedPrefix(s: State, keys: seq<Key>, n: nat)
    requires n <= |keys| && (forall i :: 0 <= i < n ==> !Errs(s, keys[i]))
    requires n == |keys| || Errs(s, keys[n])
    ensures Reached(s, keys) == keys[..n]
  {
    if n > 0 {
      ReachedPrefix(s, keys[1..], n - 1);
      assert keys[..n] == [keys[0]] + keys[1..][..n - 1];
    }
  }

  // ---- Bookkeeping for the loops ----

  /** `s'` differs from `s` in finalizers, statuses and generated objects only. */
  ghost predicate SameInputs(s: State, s': State) {
    && s'.namespace == s.namespace && s'.models == s.models && s'.routes == s.routes
    && s'.subscriptions.Keys == s.subscriptions.Keys
    && forall n :: n in s.subscriptions ==>
         s'.subscriptions[n].refs == s.subscriptions[n].refs &&
         s'.subscriptions[n].deleting == s.subscriptions[n].deleting
  }

  predicate Live(s: State, n: string) {
    n in s.subscriptions && !s.subscriptions[n].deleting
  }

  /** `s'` has the live subscriptions, models and routes of `s`. */
  ghost predicate SameLive(s: State, s': State) {
    && s'.namespace == s.namespace && s'.models == s.models && s'.routes == s.routes
    && (forall n :: Live(s, n) <==> Live(s', n))
    && (forall n :: Live(s, n) ==> s'.subscriptions[n].refs == s.subscriptions[n].refs)
  }

  lemma InputsDecide(s: State, s': State, key: Key, cur: Option<TokenPolicy>)
    requires WellNamed(s) && SameInputs(s, s')
    ensures WellNamed(s') && RefError(s', key, cur) == RefError(s, key, cur)
    ensures AfterRef(s', key, cur) == AfterRef(s, key, cur)
  {
    LiveDecide(s, s', key, cur);
  }

  lemma LiveDecide(s: State, s': State, key: Key, cur: Option<TokenPolicy>)
    requires WellNamed(s) && WellNamed(s') && SameLive(s, s')
    ensures RefError(s', key, cur) == RefError(s, key, cur)
    ensures AfterRef(s', key, cur) == AfterRef(s, key, cur)
  {
    SameSubs(s, s', key);
    SameLimits(s, s', key);
  }

  lemma SameSubs(s: State, s': State, key: Key)
    requires SameLive(s, s')
    ensures LiveSubs(s', key) == LiveSubs(s, key) && EffectiveSubs(s', key) == EffectiveSubs(s, key)
  {
    forall n ensures n in LiveSubs(s', key) <==> n in LiveSubs(s, key) {
      assert Live(s, n) <==> Live(s', n);
    }
  }

  lemma SameLimits(s: State, s': State, key: Key)
    requires WellNamed(s) && WellNamed(s') && SameLive(s, s')
    ensures LimitsOf(s', key, EffectiveSubs(s', key)) == LimitsOf(s, key, EffectiveSubs(s, key))
  {
    SameSubs(s, s', key);
    var a, b := LimitsOf(s, key, EffectiveSubs(s, key)), LimitsOf(s', key, EffectiveSubs(s', key));
    forall lk ensures lk in a <==> lk in b {
      LimitKeysDistinct(s, key);
      LimitKeysDistinct(s', key);
    }
    forall lk | lk in a ensures a[lk] == b[lk] {
      var n := LimitSource(s, key, lk);
      LimitAt(s', key, n);
      assert Live(s, n);
    }
  }

  lemma LimitSource(s: State, key: Key, lk: string) returns (n: string)
    requires WellNamed(s) && lk in LimitsOf(s, key, EffectiveSubs(s, key))
    ensures n in EffectiveSubs(s, key) && lk == LimitKey(s.namespace, n, key)
    ensures LimitsOf(s, key, EffectiveSubs(s, key))[lk] == Entry(s, n, key)
  {
    LimitKeysDistinct(s, key);
    n :| n in EffectiveSubs(s, key) && lk == LimitKey(s.namespace, n, key);
  }

  lemma LimitAt(s: State, key: Key, n: string)
    requires WellNamed(s) && n in EffectiveSubs(s, key)
    ensures LimitKey(s.namespace, n, key) in LimitsOf(s, key, EffectiveSubs(s, key))
    ensures LimitsOf(s, key, EffectiveSubs(s, key))[LimitKey(s.namespace, n, key)] == Entry(s, n, key)
  {
    LimitKeysDistinct(s, key);
  }

  /** The references before index `n` are reconciled, the rest untouched. */
  ghost predicate Half(s: State, keys: seq<Key>, n: nat, trlps: Objects<TokenPolicy>)
    requires WellNamed(s) && n <= |keys|
  {
    forall key :: trlps.Get(key) ==
      if key in keys[..n] then AfterRef(s, key, s.trlps.Get(key)) else s.trlps.Get(key)
  }

  lemma HalfIsStage(s: State, name: string, keys: seq<Key>, n: nat, trlps: Objects<TokenPolicy>)
    requires WellNamed(s) && n <= |keys| && Half(s, keys, n, trlps)
    ensures Stage(s, name, keys, trlps)
  {
  }

  lemma CleanupIsStage(s: State, name: string, keys: seq<Key>, mid: Objects<TokenPolicy>, trlps: Objects<TokenPolicy>)
    requires WellNamed(s) && Half(s, keys, |keys|, mid)
    requires forall key :: trlps.Get(key) == mid.Get(key) || trlps.Get(key) == Cleaned(mid.Get(key), key, name, keys)
    ensures Stage(s, name, keys, trlps)
  {
    assert keys[..|keys|] == keys;
    forall key ensures StageAt(s, name, keys, key, trlps.Get(key)) {
      assert mid.Get(key) == if key in keys then AfterRef(s, key, s.trlps.Get(key)) else s.trlps.Get(key);
    }
  }

  /** The trace of the references, then that of the clean-up. */
  lemma JoinTraces(s: State, name: string, keys: seq<Key>, mid: Objects<TokenPolicy>,
                   trace: seq<Objects<TokenPolicy>>, rest: seq<Objects<TokenPolicy>>, last: Objects<TokenPolicy>)
    requires WellNamed(s) && Half(s, keys, |keys|, mid) && Traced(s, name, keys, trace, mid) && Trace(rest, mid, last)
    requires forall i, key :: 0 <= i < |rest| ==>
               rest[i].Get(key) == mid.Get(key) || rest[i].Get(key) == Cleaned(mid.Get(key), key, name, keys)
    ensures Traced(s, name, keys, trace + rest[1..], last)
  {
    forall i | 0 <= i < |rest| ensures Stage(s, name, keys, rest[i]) {
      CleanupIsStage(s, name, keys, mid, rest[i]);
    }
  }

  lemma HalfStep(s: State, keys: seq<Key>, n: nat, trlps: Objects<TokenPolicy>)
    requires WellNamed(s) && n < |keys| && Half(s, keys, n, trlps)
    ensures keys[n] in keys[..n] ==> Half(s, keys, n + 1, trlps)
    ensures keys[n] !in keys[..n] ==>
            Half(s, keys, n + 1, trlps.SetTo(keys[n], AfterRef(s, keys[n], trlps.Get(keys[n]))))
  {
    assert keys[..n + 1] == keys[..n] + [keys[n]];
  }

  /** The clean-up has visited all keys but `rest`. */
  ghost predicate Cleaning(before: Objects<TokenPolicy>, now: Objects<TokenPolicy>, rest: set<Key>, name: string,
                           keys: seq<Key>) {
    && Honest(before, now)
    && forall key :: now.Get(key) == if key in rest then before.Get(key) else Cleaned(before.Get(key), key, name, keys)
  }

  /** A trace in which each key is untouched or cleaned up. */
  ghost predicate CleanupTrace(before: Objects<TokenPolicy>, now: Objects<TokenPolicy>,
                               trace: seq<Objects<TokenPolicy>>, name: string, keys: seq<Key>) {
    && Trace(trace, before, now)
    && forall i, key :: 0 <= i < |trace| ==>
         trace[i].Get(key) == before.Get(key) || trace[i].Get(key) == Cleaned(before.Get(key), key, name, keys)
  }

  // ---- The loops ----

  /** The scan of one subscription's references inside `reconcileTRLPForModel`. */
  method RatesFor(refs: seq<SubRef>, key: Key) returns (r: Option<seq<RateLimit>>)
    ensures r == EffectiveRates(refs, key)
  {
    for i := 0 to |refs|
      invariant EffectiveRates(refs, key) == EffectiveRates(refs[i..], key)
    {
      if refs[i].key == key {
        var limits, rates, invalid := refs[i].limits, [], false;
        if |limits| > 0 {
          for j := 0 to |limits|
            invariant rates == limits[..j] && !invalid && ValidRates(limits[..j])
          {
            if !ValidRate(limits[j]) {
              invalid := true;
              break;
            }
            rates := rates + [limits[j]];
          }
          assert limits[..|limits|] == limits;
        } else {
          rates := DEFAULT_RATES;
        }
        if !invalid {
          return Some(rates);
        }
      }
    }
    return None;
  }

  class Reconciler {
    const server: ApiServer

    constructor (server: ApiServer)
      ensures this.server == server
    {
      this.server := server;
    }

    method FindLive(key: Key) returns (live: set<string>)
      ensures live == LiveSubs(server.Snapshot(), key)
    {
      live := {};
      var rest := server.subscriptions.Keys;
      while rest != {}
        invariant rest <= server.subscriptions.Keys
        invariant live == LiveSubs(server.Snapshot(), key) - rest
      {
        var n :| n in rest;
        rest := rest - {n};
        var sub := server.subscriptions[n];
        if !sub.deleting && key in RefKeys(sub.refs) {
          live := live + {n};
        }
      }
    }

    /** The loops that fill `subs`, `subNames` and `limitsMap`, over the live subscriptions in any order. */
    method BuildLimits(key: Key, live: set<string>) returns (names: seq<string>, limits: map<string, LimitEntry>)
      requires WellNamed(server.Snapshot()) && live == LiveSubs(server.Snapshot(), key)
      ensures names == Arranged(EffectiveSubs(server.Snapshot(), key))
      ensures limits == LimitsOf(server.Snapshot(), key, EffectiveSubs(server.Snapshot(), key))
    {
      ghost var s := server.Snapshot();
      names, limits := [], map[];
      var rest := live;
      ghost var done: set<string> := {};
      while rest != {}
        invariant rest <= live && done == EffectiveSubs(s, key) - rest
        invariant Elems(names) == done && limits == LimitsOf(s, key, done)
        invariant forall i, j :: 0 <= i < j < |names| ==> names[i] != names[j]
      {
        var n :| n in rest;
        rest := rest - {n};
        var rates := RatesFor(server.subscriptions[n].refs, key);
        if rates.Some? {
          assert n !in Elems(names);
          ElemsConcat(names, [n]);
          LimitStep(s, key, done, n);
          done := done + {n};
          names := names + [n];
          var entry := LimitEntry(rates.value, SubscriptionKey(server.namespace, n, key));
          limits := limits[LimitKey(server.namespace, n, key) := entry];
        }
        assert done == EffectiveSubs(s, key) - rest;
      }
      assert done == EffectiveSubs(s, key);
      SortDistinct(names);
      names := Sort(names, Less);
      IncreasingUnique(names, Arranged(EffectiveSubs(s, key)));
    }

    /** `deleteModelTRLP`. */
    method DeleteModel(key: Key)
      modifies server`trlps
      ensures server.trlps == old(server.trlps).SetTo(key, Deleted(old(server.trlps).Get(key)))
    {
      var found := server.trlps.Get(key);
      if found.Some? && IsManaged(found.value.managed) {
        server.trlps := server.trlps.Delete(key);
      }
    }

    /** `reconcileTRLPForModel`. */
    method ReconcileModel(key: Key) returns (ok: bool)
      requires WellNamed(server.Snapshot())
      modifies server`trlps
      ensures ok == !RefError(old(server.Snapshot()), key, old(server.trlps).Get(key))
      ensures server.trlps ==
              old(server.trlps).SetTo(key, AfterRef(old(server.Snapshot()), key, old(server.trlps).Get(key)))
    {
      var live := FindLive(key);
      var route := Resolve(server.Snapshot(), key);
      if !route.Route? {
        if route.ModelMissing? || live == {} {
          DeleteModel(key);
          return true;
        }
        return route.RouteMissing?;
      }
      var existing := server.trlps.Get(key);
      if existing.Some? && !IsManaged(existing.value.managed) { return true; }
      if live == {} {
        DeleteModel(key);
        return true;
      }
      var names, limits := BuildLimits(key, live);
      if names == [] {
        assert EffectiveSubs(server.Snapshot(), key) == Elems(names);
        DeleteModel(key);
        return true;
      }
      assert names[0] in Elems(names);
      if existing.None? {
        server.trlps := server.trlps.Put(
          key, TokenPolicy(Join(names, ','), limits, route.name, route.name, None, false));
      } else {
        if existing.value.owner != route.name { return false; }
        var updated := existing.value.(contributors := Join(names, ','), limits := limits, route := route.name);
        if updated != existing.value {
          server.trlps := server.trlps.Put(key, updated);
        }
      }
      return true;
    }

    /** `cleanupStaleTRLPs`. */
    method CleanupStale(name: string, keys: seq<Key>) returns (ghost trace: seq<Objects<TokenPolicy>>)
      modifies server`trlps
      ensures forall key :: server.trlps.Get(key) == Cleaned(old(server.trlps).Get(key), key, name, keys)
      ensures Trace(trace, old(server.trlps), server.trlps) && Honest(old(server.trlps), server.trlps)
      ensures forall i, key :: 0 <= i < |trace| ==>
                trace[i].Get(key) == old(server.trlps).Get(key) ||
                trace[i].Get(key) == Cleaned(old(server.trlps).Get(key), key, name, keys)
    {
      var rest := server.trlps.items.Keys;
      ghost var before := server.trlps;
      trace := [before];
      while rest != {}
        invariant rest <= before.items.Keys
        invariant Cleaning(before, server.trlps, rest, name, keys)
        invariant CleanupTrace(before, server.trlps, trace, name, keys)
      {
        var key :| key in rest;
        trace := CleanupOne(name, keys, key, before, rest, trace);
        rest := rest - {key};
      }
    }

    method CleanupOne(
        name: string, keys: seq<Key>, key: Key, ghost before: Objects<TokenPolicy>, ghost rest: set<Key>,
        ghost trace: seq<Objects<TokenPolicy>>) returns (ghost trace': seq<Objects<TokenPolicy>>)
      requires rest <= before.items.Keys && key in rest
      requires Cleaning(before, server.trlps, rest, name, keys) && CleanupTrace(before, server.trlps, trace, name, keys)
      modifies server`trlps
      ensures Cleaning(before, server.trlps, rest - {key}, name, keys)
      ensures CleanupTrace(before, server.trlps, trace', name, keys)
    {
      trace' := trace;
      assert server.trlps.Get(key) == before.Get(key);
      HonestSet(before, server.trlps, key, Deleted(before.Get(key)));
      if key !in keys && name in Split(server.trlps.items[key].contributors, ',') {
        DeleteModel(key);
        trace' := trace + [server.trlps];
      }
    }

    /** The `seen` loop over the model references, then the clean-up: `reconcileTokenRateLimitPolicies`, and
        the same loop in `handleDeletion`. */
    method Pass(ghost s: State, name: string, keys: seq<Key>) returns (ok: bool, ghost trace: seq<Objects<TokenPolicy>>)
      requires WellNamed(s) && SameInputs(s, server.Snapshot()) && server.trlps == s.trlps
      modifies server`trlps
      ensures ok <==> Complete(s, keys)
      ensures Passes(s, name, keys, server.trlps) && Honest(s.trlps, server.trlps)
      ensures Traced(s, name, keys, trace, server.trlps)
    {
      ok, trace := PassRefs(s, name, keys);
      if ok {
        ghost var mid := server.trlps;
        ghost var rest := CleanupStale(name, keys);
        JoinTraces(s, name, keys, mid, trace, rest, server.trlps);
        trace := trace + rest[1..];
        PassesWhole(s, name, keys, mid, server.trlps);
        HonestWhole(s, name, keys, mid, server.trlps);
      }
    }

    method PassRefs(ghost s: State, ghost name: string, keys: seq<Key>)
      returns (ok: bool, ghost trace: seq<Objects<TokenPolicy>>)
      requires WellNamed(s) && SameInputs(s, server.Snapshot()) && server.trlps == s.trlps
      modifies server`trlps
      ensures ok <==> Complete(s, keys)
      ensures ok ==> Half(s, keys, |keys|, server.trlps)
      ensures !ok ==> Passes(s, name, keys, server.trlps)
      ensures Traced(s, name, keys, trace, server.trlps) && Honest(s.trlps, server.trlps)
    {
      var seen: set<Key> := {};
      trace := [server.trlps];
      HalfIsStage(s, name, keys, 0, server.trlps);
      for i := 0 to |keys|
        invariant seen == Elems(keys[..i])
        invariant forall j :: 0 <= j < i ==> !Errs(s, keys[j])
        invariant Half(s, keys, i, server.trlps)
        invariant Traced(s, name, keys, trace, server.trlps) && Honest(s.trlps, server.trlps)
      {
        HalfStep(s, keys, i, server.trlps);
        assert keys[..i + 1] == keys[..i] + [keys[i]];
        ElemsConcat(keys[..i], [keys[i]]);
        if keys[i] !in seen {
          seen := seen + {keys[i]};
          ok, trace := PassOne(s, name, keys, i, trace);
          if !ok {
            ReachedPrefix(s, keys, i);
            PassesPart(s, name, keys, i, server.trlps);
            return;
          }
        }
      }
      ReachedPrefix(s, keys, |keys|);
      assert keys[..|keys|] == keys;
      return true, trace;
    }

    method PassOne(ghost s: State, ghost name: string, keys: seq<Key>, i: nat, ghost trace: seq<Objects<TokenPolicy>>)
      returns (ok: bool, ghost trace': seq<Objects<TokenPolicy>>)
      requires WellNamed(s) && SameInputs(s, server.Snapshot())
      requires i < |keys| && keys[i] !in keys[..i] && Half(s, keys, i, server.trlps)
      requires Traced(s, name, keys, trace, server.trlps) && Honest(s.trlps, server.trlps)
      modifies server`trlps
      ensures ok == !Errs(s, keys[i]) && Half(s, keys, i + 1, server.trlps)
      ensures Traced(s, name, keys, trace', server.trlps) && Honest(s.trlps, server.trlps)
    {
      ghost var before := server.trlps;
      assert before.Get(keys[i]) == s.trlps.Get(keys[i]);
      InputsDecide(s, server.Snapshot(), keys[i], before.Get(keys[i]));
      HalfStep(s, keys, i, before);
      ok := ReconcileModel(keys[i]);
      HonestSet(s.trlps, before, keys[i], AfterRef(s, keys[i], before.Get(keys[i])));
      HalfIsStage(s, name, keys, i + 1, server.trlps);
      Extend(s, name, keys, trace, before, server.trlps);
      trace' := trace + [server.trlps];
    }

    /** `handleDeletion`. */
    method HandleDeletion(name: string) returns (ok: bool, ghost trace: seq<Objects<TokenPolicy>>)
      requires WellNamed(server.Snapshot()) && name in server.subscriptions && server.subscriptions[name].deleting
      modifies server`trlps, server`subscriptions
      ensures Reconciles(old(server.Snapshot()), name, server.Snapshot())
      ensures Trace(trace, old(server.trlps), server.trlps)
      ensures forall i :: 0 <= i < |trace| ==>
                Stage(old(server.Snapshot()), name, RefKeys(old(server.subscriptions)[name].refs), trace[i])
      ensures ok <==> Succeeds(old(server.Snapshot()), name)
    {
      ghost var s := server.Snapshot();
      var sub := server.subscriptions[name];
      ok, trace := true, [server.trlps];
      if sub.finalizer {
        ok, trace := Pass(s, name, RefKeys(sub.refs));
        if ok {
          server.subscriptions := server.subscriptions - {name};
        }
      }
    }

    /** `Reconcile`. */
    method Reconcile(name: string) returns (ok: bool)
      requires WellNamed(server.Snapshot())
      modifies server`trlps, server`subscriptions
      ensures Reconciles(old(server.Snapshot()), name, server.Snapshot())
      ensures ok <==> Succeeds(old(server.Snapshot()), name)
    {
      if name !in server.subscriptions { return true; }
      if server.subscriptions[name].deleting {
        ghost var trace;
        ok, trace := HandleDeletion(name);
        return;
      }
      ok := ReconcileLive(name);
    }

    method ReconcileLive(name: string) returns (ok: bool)
      requires WellNamed(server.Snapshot()) && name in server.subscriptions && !server.subscriptions[name].deleting
      modifies server`trlps, server`subscriptions
      ensures Reconciles(old(server.Snapshot()), name, server.Snapshot())
      ensures ok <==> Succeeds(old(server.Snapshot()), name)
    {
      ghost var s := server.Snapshot();
      var sub := server.subscriptions[name].(finalizer := true);
      server.subscriptions := server.subscriptions[name := sub];
      var status;
      ok, status := Refresh(s, name, sub);
      server.subscriptions := server.subscriptions[name := sub.(status := status)];
    }

    method Refresh(ghost s: State, name: string, sub: Subscription) returns (ok: bool, status: SubStatus)
      requires WellNamed(s) && SameInputs(s, server.Snapshot()) && server.trlps == s.trlps
      modifies server`trlps
      ensures LivePass(s, name, RefKeys(sub.refs), server.trlps) && Honest(s.trlps, server.trlps)
      ensures status == LiveStatus(s, RefKeys(sub.refs), sub.status.limits, server.trlps)
      ensures ok <==> (HasValidModels(s, RefKeys(sub.refs)) ==> Complete(s, RefKeys(sub.refs)))
    {
      var keys := RefKeys(sub.refs);
      var models := CheckModels(keys);
      StatusesIgnore(s, server.Snapshot(), keys);
      HasValidIff(s, keys);
      var hasValid := AnyReady(models);
      ok := Update(s, name, keys, hasValid);
      if !ok {
        return false, SubStatus(Failed, models, sub.status.limits);
      }
      StatusesIgnore(s.(trlps := server.trlps), server.Snapshot(), keys);
      status := ComputeStatus(keys, models);
    }

    /** Without a valid model the references are not visited; only stale policies are cleaned up. */
    method Update(ghost s: State, name: string, keys: seq<Key>, hasValid: bool) returns (ok: bool)
      requires WellNamed(s) && SameInputs(s, server.Snapshot()) && server.trlps == s.trlps
      requires hasValid <==> HasValidModels(s, keys)
      modifies server`trlps
      ensures LivePass(s, name, keys, server.trlps) && Honest(s.trlps, server.trlps)
      ensures ok <==> (hasValid ==> Complete(s, keys))
    {
      ghost var trace;
      if hasValid {
        ok, trace := Pass(s, name, keys);
      } else {
        trace := CleanupStale(name, keys);
        ok := true;
      }
    }

    method AnyReady(models: seq<ModelStatus>) returns (r: bool)
      ensures r <==> exists j :: 0 <= j < |models| && models[j].ready
    {
      r := false;
      for i := 0 to |models|
        invariant r <==> exists j :: 0 <= j < i && models[j].ready
      {
        if models[i].ready {
          r := true;
          break;
        }
      }
    }

    /** The health check, the back-propagation and the phase, from the state after the pass. */
    method ComputeStatus(keys: seq<Key>, models: seq<ModelStatus>) returns (status: SubStatus)
      requires models == ModelStatuses(server.Snapshot(), keys)
      ensures status == StatusOf(server.Snapshot(), keys)
    {
      var limits := CheckLimits(keys);
      var corrected := Propagate(models, limits);
      var phase := DeriveFinalPhase(corrected, limits);
      status := SubStatus(phase, corrected, limits);
    }

    /** `validateModelRefs`. */
    method CheckModels(keys: seq<Key>) returns (statuses: seq<ModelStatus>)
      ensures statuses == ModelStatuses(server.Snapshot(), keys)
    {
      statuses := [];
      var seen: set<Key> := {};
      for i := 0 to |keys|
        invariant seen == Elems(keys[..i])
        invariant statuses == ModelStatuses(server.Snapshot(), keys[..i])
      {
        assert keys[..i + 1][..i] == keys[..i];
        assert keys[..i + 1] == keys[..i] + [keys[i]];
        ElemsConcat(keys[..i], [keys[i]]);
        if keys[i] !in seen {
          seen := seen + {keys[i]};
          if keys[i] in server.models {
            statuses := statuses + [ModelStatus(keys[i], true, Valid)];
          } else {
            statuses := statuses + [ModelStatus(keys[i], false, NotFound)];
          }
        }
      }
      assert keys[..|keys|] == keys;
    }

    /** `checkTokenRateLimitHealth`. */
    method CheckLimits(keys: seq<Key>) returns (statuses: seq<LimitStatus>)
      ensures statuses == LimitStatuses(server.Snapshot(), keys)
    {
      statuses := [];
      var seen: set<Key> := {};
      for i := 0 to |keys|
        invariant seen == Elems(keys[..i])
        invariant statuses == LimitStatuses(server.Snapshot(), keys[..i])
      {
        assert keys[..i + 1][..i] == keys[..i];
        assert keys[..i + 1] == keys[..i] + [keys[i]];
        ElemsConcat(keys[..i], [keys[i]]);
        if keys[i] !in seen {
          seen := seen + {keys[i]};
          statuses := statuses + [LimitStatusOf(server.Snapshot(), keys[i])];
        }
      }
      assert keys[..|keys|] == keys;
    }
  }

  lemma StatusesIgnore(s: State, s': State, keys: seq<Key>)
    requires s.models == s'.models && s.routes == s'.routes
    ensures ModelStatuses(s, keys) == ModelStatuses(s', keys)
    ensures s.trlps == s'.trlps ==> StatusOf(s, keys) == StatusOf(s', keys)
  {
    assert ModelStatuses(s, keys) == ModelStatuses(s', keys);
    if s.trlps == s'.trlps {
      assert LimitStatuses(s, keys) == LimitStatuses(s', keys);
    }
  }

  lemma HasValidIff(s: State, keys: seq<Key>)
    ensures HasValidModels(s, keys) <==>
            exists j :: 0 <= j < |ModelStatuses(s, keys)| && ModelStatuses(s, keys)[j].ready
  {
    var d := Distinct(keys);
    if HasValidModels(s, keys) {
      var i :| 0 <= i < |keys| && keys[i] in s.models;
      assert keys[i] in d;
      var j :| 0 <= j < |d| && d[j] == keys[i];
      assert ModelStatuses(s, keys)[j].ready;
    }
    if j :| 0 <= j < |ModelStatuses(s, keys)| && ModelStatuses(s, keys)[j].ready {
      assert d[j] in keys;
    }
  }

  /** Setting a key that still has its first value keeps the writes honest. */
  lemma HonestSet(first: Objects<TokenPolicy>, before: Objects<TokenPolicy>, key: Key, value: Option<TokenPolicy>)
    requires Honest(first, before) && before.Get(key) == first.Get(key)
    ensures Honest(first, before.SetTo(key, value))
  {
    assert before.SetTo(key, value).Get(key) == value;
  }

  lemma HonestWhole(s: State, name: string, keys: seq<Key>, mid: Objects<TokenPolicy>, trlps: Objects<TokenPolicy>)
    requires WellNamed(s) && Half(s, keys, |keys|, mid) && Honest(s.trlps, mid) && Honest(mid, trlps)
    requires forall key :: trlps.Get(key) == Cleaned(mid.Get(key), key, name, keys)
    ensures Honest(s.trlps, trlps)
  {
    assert keys[..|keys|] == keys;
    if forall key :: s.trlps.Get(key) == trlps.Get(key) {
      forall key ensures s.trlps.Get(key) == mid.Get(key) {
      }
    }
  }

  lemma PassesPart(s: State, name: string, keys: seq<Key>, n: nat, trlps: Objects<TokenPolicy>)
    requires WellNamed(s) && n < |keys| && Reached(s, keys) == keys[..n] && Errs(s, keys[n])
    requires Half(s, keys, n + 1, trlps)
    ensures Passes(s, name, keys, trlps)
  {
    assert keys[..n + 1] == keys[..n] + [keys[n]];
    forall key ensures trlps.Get(key) == AfterPass(s, name, keys, key) {
    }
  }

  lemma PassesWhole(s: State, name: string, keys: seq<Key>, mid: Objects<TokenPolicy>, trlps: Objects<TokenPolicy>)
    requires WellNamed(s) && Reached(s, keys) == keys && Half(s, keys, |keys|, mid)
    requires forall key :: trlps.Get(key) == Cleaned(mid.Get(key), key, name, keys)
    ensures Passes(s, name, keys, trlps)
  {
    assert keys[..|keys|] == keys;
    forall key ensures trlps.Get(key) == AfterPass(s, name, keys, key) {
      assert mid.Get(key) == if key in keys then AfterRef(s, key, s.trlps.Get(key)) else s.trlps.Get(key);
    }
  }
}
