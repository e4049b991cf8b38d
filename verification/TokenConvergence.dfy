/** Settlement of TokenRateLimitPolicies: with the inputs frozen and no reconcile errors, one round over the existing
    subscriptions, in any order, settles every generated policy, and a second writes nothing. The outcome differs
    from that of AuthPolicies where the subscription reconciler does nothing. */
module TokenConvergence {
  import opened Strings
  import opened Cluster
  import opened TokenLimits
  import opened Subscriptions

  ghost predicate StepAt(states: seq<State>, order: seq<string>, i: nat)
    requires |states| == |order| + 1 && i < |order|
  {
    WellNamed(states[i]) && Reconciles(states[i], order[i], states[i + 1])
  }

  /** `order[i]` is reconciled in `states[i]`; repetitions and unknown names are allowed. */
  ghost predicate Round(states: seq<State>, order: seq<string>) {
    |states| == |order| + 1 && forall i :: 0 <= i < |order| ==> StepAt(states, order, i)
  }

  lemma StepOf(states: seq<State>, order: seq<string>, i: nat)
    requires Round(states, order) && i < |order|
    ensures WellNamed(states[i]) && Reconciles(states[i], order[i], states[i + 1])
  {
    assert StepAt(states, order, i);
  }

  ghost predicate Covers(order: seq<string>, s: State) {
    forall n :: n in s.subscriptions ==> n in order
  }

  function KeysOf(s: State, n: string): seq<Key>
    requires n in s.subscriptions
  {
    RefKeys(s.subscriptions[n].refs)
  }

  /** The reconcile of `n` visits its models; without a valid one it only cleans up behind itself. */
  ghost predicate Visits(s: State, n: string) {
    n in s.subscriptions && (s.subscriptions[n].deleting || HasValidModels(s, KeysOf(s, n)))
  }

  /** Names are DNS labels, deletion waits for the finalizer, and nothing is opted out. */
  ghost predicate Steady(s: State) {
    && WellNamed(s)
    && (forall n :: n in s.subscriptions && s.subscriptions[n].deleting ==> s.subscriptions[n].finalizer)
    && (forall key :: s.trlps.Get(key).Some? ==> IsManaged(s.trlps.Get(key).value.managed))
  }

  ghost predicate ErrorFree(s: State) {
    forall n, key :: Visits(s, n) && key in KeysOf(s, n) ==> !Errs(s, key)
  }

  // ---- What stays the same ----

  ghost predicate Frozen(s0: State, s: State) {
    && s.namespace == s0.namespace && s.models == s0.models && s.routes == s0.routes
    && (forall n :: n in s.subscriptions ==>
          n in s0.subscriptions && s.subscriptions[n].refs == s0.subscriptions[n].refs &&
          s.subscriptions[n].deleting == s0.subscriptions[n].deleting &&
          (s0.subscriptions[n].finalizer ==> s.subscriptions[n].finalizer))
    && (forall n :: Live(s0, n) ==> n in s.subscriptions)
  }

  lemma FrozenIsSameLive(s0: State, s: State)
    requires Frozen(s0, s)
    ensures SameLive(s0, s)
    ensures forall n :: n in s.subscriptions ==> (Visits(s, n) <==> Visits(s0, n)) && KeysOf(s, n) == KeysOf(s0, n)
  {
  }

  lemma StepFreezes(s0: State, s: State, n: string, s': State)
    requires WellNamed(s) && Frozen(s0, s) && Reconciles(s, n, s')
    ensures Frozen(s0, s') && WellNamed(s')
  {
  }

  // ---- What one step does ----

  ghost function Fate(s: State, n: string, key: Key): Option<TokenPolicy>
    requires WellNamed(s) && n in s.subscriptions
  {
    var cur := s.trlps.Get(key);
    if key in KeysOf(s, n) then (if Visits(s, n) then AfterRef(s, key, cur) else cur)
    else if cur.Some? && Lists(cur.value, n) then None
    else cur
  }

  lemma StepFate(s: State, n: string, s': State, key: Key)
    requires Steady(s) && ErrorFree(s) && n in s.subscriptions && Reconciles(s, n, s')
    ensures s'.trlps.Get(key) == Fate(s, n, key)
    ensures n in s'.subscriptions <==> !s.subscriptions[n].deleting
  {
    var keys := KeysOf(s, n);
    CompleteIff(s, keys);
    if Visits(s, n) {
      forall i | 0 <= i < |keys| ensures !Errs(s, keys[i]) {
        assert keys[i] in keys;
      }
      assert s'.trlps.Get(key) == AfterPass(s, n, keys, key);
    } else {
      assert s'.trlps.Get(key) == Cleaned(s.trlps.Get(key), key, n, keys);
    }
  }

  lemma StepIsSteady(s: State, n: string, s': State)
    requires Steady(s) && ErrorFree(s) && n in s.subscriptions && Reconciles(s, n, s')
    ensures Steady(s')
  {
    StepFreezes(s, s, n, s');
    forall key | s'.trlps.Get(key).Some? ensures IsManaged(s'.trlps.Get(key).value.managed) {
      StepFate(s, n, s', key);
      FateIsManaged(s, n, key);
    }
  }

  lemma FateIsManaged(s: State, n: string, key: Key)
    requires Steady(s) && n in s.subscriptions
    ensures Fate(s, n, key).Some? ==> IsManaged(Fate(s, n, key).value.managed)
  {
  }

  lemma NoNewError(s: State, s': State, key: Key)
    requires WellNamed(s) && WellNamed(s') && SameLive(s, s') && TokenFate(s, key, s'.trlps.Get(key)) && !Errs(s, key)
    ensures !Errs(s', key)
  {
    LiveDecide(s, s', key, s'.trlps.Get(key));
  }

  lemma StepIsErrorFree(s: State, n: string, s': State)
    requires Steady(s) && ErrorFree(s) && Reconciles(s, n, s')
    ensures ErrorFree(s')
  {
    StepFreezes(s, s, n, s');
    FrozenIsSameLive(s, s');
    forall m, key | Visits(s', m) && key in KeysOf(s', m) ensures !Errs(s', key) {
      assert Visits(s, m) && key in KeysOf(s, m);
      TokenFateOf(s, n, s', key);
      NoNewError(s, s', key);
    }
  }

  // ---- Keys somebody decides ----

  /** The reconciler skips a referenced model whose route is missing. */
  ghost predicate Skipped(s: State, key: Key) {
    Resolve(s, key).RouteMissing? && LiveSubs(s, key) != {}
  }

  ghost predicate Decided(s: State, key: Key) {
    !Skipped(s, key) && exists n :: Visits(s, n) && key in KeysOf(s, n)
  }

  /** The aggregate where a route resolves and some subscription is effective, and nothing elsewhere. */
  ghost predicate Meets(s: State, key: Key, cur: Option<TokenPolicy>)
    requires WellNamed(s)
  {
    if Resolve(s, key).Route? && EffectiveSubs(s, key) != {}
    then cur.Some? && cur.value == Aggregate(s, key, cur.value.managed, cur.value.accepted)
    else cur.None?
  }

  lemma VisitDecides(s: State, n: string, key: Key)
    requires Steady(s) && ErrorFree(s) && Visits(s, n) && key in KeysOf(s, n) && !Skipped(s, key)
    ensures Meets(s, key, AfterRef(s, key, s.trlps.Get(key)))
  {
    assert !Errs(s, key);
  }

  lemma MeetsIsFixed(s: State, n: string, key: Key)
    requires Steady(s) && ErrorFree(s) && n in s.subscriptions && Meets(s, key, s.trlps.Get(key))
    ensures Fate(s, n, key) == s.trlps.Get(key)
  {
    if s.trlps.Get(key).Some? {
      ExactContributors(s, key);
    }
  }

  lemma MeetsTransfers(s0: State, s: State, key: Key, cur: Option<TokenPolicy>)
    requires WellNamed(s0) && WellNamed(s) && Frozen(s0, s)
    ensures Meets(s, key, cur) <==> Meets(s0, key, cur)
    ensures Skipped(s, key) <==> Skipped(s0, key)
  {
    FrozenIsSameLive(s0, s);
    SameSubs(s0, s, key);
    SameLimits(s0, s, key);
  }

  // ---- Keys nobody decides ----

  /** The policy at `key` lists `n`, which no longer references the model. */
  ghost predicate Stale(s: State, n: string, key: Key, cur: Option<TokenPolicy>) {
    n in s.subscriptions && key !in KeysOf(s, n) && cur.Some? && Lists(cur.value, n)
  }

  lemma UndecidedFate(s0: State, s: State, n: string, key: Key)
    requires WellNamed(s0) && Steady(s) && Frozen(s0, s) && n in s.subscriptions && !Decided(s0, key)
    ensures Fate(s, n, key) == if Stale(s0, n, key, s.trlps.Get(key)) then None else s.trlps.Get(key)
  {
    FrozenIsSameLive(s0, s);
    MeetsTransfers(s0, s, key, None);
    assert Visits(s, n) && key in KeysOf(s, n) ==> Visits(s0, n) && key in KeysOf(s0, n);
  }

  ghost predicate Swept(s0: State, done: seq<string>, key: Key) {
    exists n :: n in done && Stale(s0, n, key, s0.trlps.Get(key))
  }

  ghost function Remains(s0: State, done: seq<string>, key: Key): Option<TokenPolicy> {
    if Swept(s0, done, key) then None else s0.trlps.Get(key)
  }

  // ---- One round ----

  ghost predicate Progress(s0: State, done: seq<string>, s: State) {
    && Frozen(s0, s) && Steady(s) && ErrorFree(s)
    && forall n :: n in s0.subscriptions && s0.subscriptions[n].deleting ==> (n in s.subscriptions <==> n !in done)
  }

  lemma ProgressStep(s0: State, done: seq<string>, s: State, n: string, s': State)
    requires Progress(s0, done, s) && Reconciles(s, n, s')
    ensures Progress(s0, done + [n], s')
  {
    if n in s.subscriptions {
      StepFreezes(s0, s, n, s');
      StepIsSteady(s, n, s');
      StepIsErrorFree(s, n, s');
      StepFate(s, n, s', Key("", ""));
      OnlyOneGoes(s, n, s');
    }
  }

  lemma OnlyOneGoes(s: State, n: string, s': State)
    requires WellNamed(s) && Reconciles(s, n, s')
    ensures forall m :: m != n ==> (m in s'.subscriptions <==> m in s.subscriptions)
  {
  }

  lemma {:induction false} MakesProgress(states: seq<State>, order: seq<string>, n: nat)
    requires Round(states, order) && n <= |order| && Steady(states[0]) && ErrorFree(states[0])
    ensures Progress(states[0], order[..n], states[n])
  {
    if n > 0 {
      MakesProgress(states, order, n - 1);
      StepOf(states, order, n - 1);
      ProgressStep(states[0], order[..n - 1], states[n - 1], order[n - 1], states[n]);
      assert order[..n] == order[..n - 1] + [order[n - 1]];
    }
  }

  lemma RemainsStep(s0: State, done: seq<string>, s: State, n: string, s': State, key: Key)
    requires Steady(s0) && Progress(s0, done, s) && Reconciles(s, n, s') && !Decided(s0, key)
    requires s.trlps.Get(key) == Remains(s0, done, key)
    ensures s'.trlps.Get(key) == Remains(s0, done + [n], key)
  {
    assert Swept(s0, done + [n], key) <==> Swept(s0, done, key) || Stale(s0, n, key, s0.trlps.Get(key)) by {
      assert forall m :: m in done + [n] <==> m in done || m == n;
    }
    if n in s.subscriptions {
      StepFate(s, n, s', key);
      UndecidedFate(s0, s, n, key);
    } else {
      assert n in s0.subscriptions ==> Live(s0, n) || n in done;
    }
  }

  lemma {:induction false} UndecidedRemains(states: seq<State>, order: seq<string>, n: nat, key: Key)
    requires Round(states, order) && n <= |order| && Steady(states[0]) && ErrorFree(states[0])
    requires !Decided(states[0], key)
    ensures states[n].trlps.Get(key) == Remains(states[0], order[..n], key)
  {
    if n > 0 {
      UndecidedRemains(states, order, n - 1, key);
      MakesProgress(states, order, n - 1);
      StepOf(states, order, n - 1);
      RemainsStep(states[0], order[..n - 1], states[n - 1], order[n - 1], states[n], key);
      assert order[..n] == order[..n - 1] + [order[n - 1]];
    }
  }

  lemma MeetsStep(s0: State, done: seq<string>, s: State, n: string, s': State, key: Key)
    requires Steady(s0) && Progress(s0, done, s) && Reconciles(s, n, s')
    requires Meets(s0, key, s.trlps.Get(key)) ||
             (n in s.subscriptions && Visits(s0, n) && key in KeysOf(s0, n) && !Skipped(s0, key))
    ensures Meets(s0, key, s'.trlps.Get(key))
  {
    if n in s.subscriptions {
      FrozenIsSameLive(s0, s);
      MeetsTransfers(s0, s, key, s.trlps.Get(key));
      StepFate(s, n, s', key);
      MeetsTransfers(s0, s, key, s'.trlps.Get(key));
      if Meets(s0, key, s.trlps.Get(key)) {
        MeetsIsFixed(s, n, key);
      } else {
        VisitDecides(s, n, key);
      }
    }
  }

  lemma {:induction false} DecidedMeets(states: seq<State>, order: seq<string>, n: nat, key: Key, decider: string)
    requires Round(states, order) && n <= |order| && Steady(states[0]) && ErrorFree(states[0])
    requires Visits(states[0], decider) && key in KeysOf(states[0], decider) && !Skipped(states[0], key)
    requires decider in order[..n]
    ensures Meets(states[0], key, states[n].trlps.Get(key))
  {
    MakesProgress(states, order, n - 1);
    StepOf(states, order, n - 1);
    assert order[..n] == order[..n - 1] + [order[n - 1]];
    if decider in order[..n - 1] {
      DecidedMeets(states, order, n - 1, key, decider);
    } else {
      assert decider in states[n - 1].subscriptions by {
        assert Live(states[0], decider) || decider !in order[..n - 1];
      }
    }
    MeetsStep(states[0], order[..n - 1], states[n - 1], order[n - 1], states[n], key);
  }

  /** One round settles every key: what somebody decides is the aggregate, or nothing where there is nothing to
      limit; elsewhere a policy survives unless a subscription cleans it up behind itself. */
  lemma OneRoundSettles(states: seq<State>, order: seq<string>, key: Key)
    requires Round(states, order) && Covers(order, states[0]) && Steady(states[0]) && ErrorFree(states[0])
    ensures var s0, s := states[0], states[|order|];
            && Frozen(s0, s) && (forall n :: n in s.subscriptions ==> !s.subscriptions[n].deleting)
            && if Decided(s0, key) then Meets(s0, key, s.trlps.Get(key))
               else s.trlps.Get(key) == Remains(s0, order, key)
  {
    assert order[..|order|] == order;
    MakesProgress(states, order, |order|);
    if Decided(states[0], key) {
      var n :| Visits(states[0], n) && key in KeysOf(states[0], n);
      DecidedMeets(states, order, |order|, key, n);
    } else {
      UndecidedRemains(states, order, |order|, key);
    }
  }

  // ---- The second round ----

  ghost predicate Settled(s0: State, s: State, key: Key)
    requires WellNamed(s0)
  {
    if Decided(s0, key) then Meets(s0, key, s.trlps.Get(key))
    else forall n :: n in s.subscriptions ==> !Stale(s0, n, key, s.trlps.Get(key))
  }

  lemma SettledIsFixed(s0: State, s: State, n: string, key: Key)
    requires Steady(s0) && Steady(s) && ErrorFree(s) && Frozen(s0, s) && Settled(s0, s, key) && n in s.subscriptions
    ensures Fate(s, n, key) == s.trlps.Get(key)
  {
    if Decided(s0, key) {
      MeetsTransfers(s0, s, key, s.trlps.Get(key));
      MeetsIsFixed(s, n, key);
    } else {
      UndecidedFate(s0, s, n, key);
    }
  }

  lemma QuietStep(s0: State, s: State, n: string, s': State)
    requires Steady(s0) && Steady(s) && ErrorFree(s) && Frozen(s0, s) && Reconciles(s, n, s')
    requires forall key :: Settled(s0, s, key)
    ensures s'.trlps == s.trlps && Steady(s') && ErrorFree(s') && Frozen(s0, s')
    ensures forall key :: Settled(s0, s', key)
  {
    if n in s.subscriptions {
      forall key ensures s'.trlps.Get(key) == s.trlps.Get(key) {
        SettledIsFixed(s0, s, n, key);
        StepFate(s, n, s', key);
      }
      StepFreezes(s0, s, n, s');
      StepIsSteady(s, n, s');
      StepIsErrorFree(s, n, s');
      OnlyOneGoes(s, n, s');
      forall key ensures Settled(s0, s', key) {
        assert Settled(s0, s, key);
        assert forall m :: m in s'.subscriptions ==> m in s.subscriptions;
      }
    }
  }

  lemma {:induction false} SecondRoundWritesNothing(
      states1: seq<State>, order1: seq<string>, states2: seq<State>, order2: seq<string>, n: nat)
    requires Round(states1, order1) && Covers(order1, states1[0]) && Steady(states1[0]) && ErrorFree(states1[0])
    requires Round(states2, order2) && states2[0] == states1[|order1|] && n <= |order2|
    ensures states2[n].trlps == states1[|order1|].trlps
    ensures Steady(states2[n]) && ErrorFree(states2[n]) && Frozen(states1[0], states2[n])
    ensures forall key :: Settled(states1[0], states2[n], key)
  {
    if n == 0 {
      assert order1[..|order1|] == order1;
      MakesProgress(states1, order1, |order1|);
      forall key ensures Settled(states1[0], states2[0], key) {
        OneRoundSettles(states1, order1, key);
      }
    } else {
      SecondRoundWritesNothing(states1, order1, states2, order2, n - 1);
      StepOf(states2, order2, n - 1);
      QuietStep(states1[0], states2[n - 1], order2[n - 1], states2[n]);
    }
  }

  // ---- In terms of the specs ----

  /** Every policy names a subscription that exists. */
  ghost predicate Anchored(s: State) {
    forall key :: s.trlps.Get(key).Some? ==> exists n :: n in s.subscriptions && Lists(s.trlps.Get(key).value, n)
  }

  lemma ServedIsDecided(s: State, key: Key)
    requires Resolve(s, key).Route? && LiveSubs(s, key) != {}
    ensures Decided(s, key)
  {
    var n :| n in LiveSubs(s, key);
    var i :| 0 <= i < |KeysOf(s, n)| && KeysOf(s, n)[i] == key;
    assert KeysOf(s, n)[i] in s.models;
    assert Visits(s, n);
  }

  /** A deleting subscription references the model, or one that no longer does is listed by its policy. */
  ghost predicate Claimed(s: State, key: Key) {
    || (exists n :: n in s.subscriptions && s.subscriptions[n].deleting && key in KeysOf(s, n))
    || (exists n :: Stale(s, n, key, s.trlps.Get(key)))
  }

  /** Error-free convergence, exactly: each served model ends with one limit per effective subscription, or no policy
      if there is none; a model nobody references with none if and only if it had none or its policy is claimed; and
      a missing model that is still referenced with none if and only if it had none, or some subscription to it visits
      its models, or one that dropped it is still listed. */
  lemma ErrorFreeConvergence(states: seq<State>, order: seq<string>, key: Key)
    requires Round(states, order) && Covers(order, states[0]) && Steady(states[0]) && ErrorFree(states[0])
    ensures var s0, s := states[0], states[|order|];
            && (Resolve(s0, key).Route? && LiveSubs(s0, key) != {} ==> IsExact(s0, key, s.trlps.Get(key)))
            && (LiveSubs(s0, key) == {} ==>
                  (s.trlps.Get(key).None? <==> s0.trlps.Get(key).None? || Claimed(s0, key)))
            && (Resolve(s0, key).ModelMissing? && LiveSubs(s0, key) != {} ==>
                  (s.trlps.Get(key).None? <==>
                   || s0.trlps.Get(key).None?
                   || (exists n :: Visits(s0, n) && key in KeysOf(s0, n))
                   || (exists n :: Stale(s0, n, key, s0.trlps.Get(key)))))
  {
    var s0, s := states[0], states[|order|];
    OneRoundSettles(states, order, key);
    if Resolve(s0, key).Route? && LiveSubs(s0, key) != {} {
      ServedIsDecided(s0, key);
      MeetsIsExact(s0, key, s.trlps.Get(key));
    } else if LiveSubs(s0, key) == {} {
      UnwantedIsDecidedIff(s0, key);
    }
  }

  lemma UnwantedIsDecidedIff(s: State, key: Key)
    requires LiveSubs(s, key) == {}
    ensures Decided(s, key) <==> exists n :: n in s.subscriptions && s.subscriptions[n].deleting && key in KeysOf(s, n)
  {
    forall n | Visits(s, n) && key in KeysOf(s, n) ensures s.subscriptions[n].deleting {
      assert n !in LiveSubs(s, key);
    }
    if n :| n in s.subscriptions && s.subscriptions[n].deleting && key in KeysOf(s, n) {
      assert Visits(s, n);
    }
  }

  /** Convergence when every policy names a subscription that exists: a model nobody references ends with none. */
  lemma Convergence(states: seq<State>, order: seq<string>, key: Key)
    requires Round(states, order) && Covers(order, states[0])
    requires Steady(states[0]) && ErrorFree(states[0]) && Anchored(states[0])
    ensures var s0, s := states[0], states[|order|];
            && (Resolve(s0, key).Route? && LiveSubs(s0, key) != {} ==> IsExact(s0, key, s.trlps.Get(key)))
            && (LiveSubs(s0, key) == {} ==> s.trlps.Get(key).None?)
            && (Resolve(s0, key).ModelMissing? && LiveSubs(s0, key) != {} ==>
                  (s.trlps.Get(key).None? <==>
                   || s0.trlps.Get(key).None?
                   || (exists n :: Visits(s0, n) && key in KeysOf(s0, n))
                   || (exists n :: Stale(s0, n, key, s0.trlps.Get(key)))))
  {
    ErrorFreeConvergence(states, order, key);
    if LiveSubs(states[0], key) == {} && states[0].trlps.Get(key).Some? {
      UnwantedIsClaimed(states[0], key);
    }
  }

  lemma MeetsIsExact(s: State, key: Key, cur: Option<TokenPolicy>)
    requires WellNamed(s) && Resolve(s, key).Route? && Meets(s, key, cur)
    ensures IsExact(s, key, cur)
  {
    if cur.Some? {
      AggregateIsExact(s, key, cur.value.managed, cur.value.accepted);
    }
  }

  lemma UnwantedIsClaimed(s: State, key: Key)
    requires Anchored(s) && LiveSubs(s, key) == {} && s.trlps.Get(key).Some?
    ensures Claimed(s, key)
  {
    var n :| n in s.subscriptions && Lists(s.trlps.Get(key).value, n);
    if key in KeysOf(s, n) {
      assert n !in LiveSubs(s, key);
    } else {
      assert Stale(s, n, key, s.trlps.Get(key));
    }
  }

  // ---- An input that does not settle where one would expect ----

  const MODEL := Key("team", "llm")

  /** The only subscription of a deleted model, whose policy is still there. */
  function Bereft(t: TokenPolicy, status: SubStatus): State {
    State("maas", map[], map["a" := Subscription([SubRef(MODEL, [])], false, true, status)], map[],
          map[MODEL := "route"], Objects(map[], 0), Objects(map[MODEL := t], 1))
  }

  /** It stays there for good: with no valid model left the reconciler only looks at models that were dropped. */
  lemma MissingModelKeepsItsPolicy(t: TokenPolicy, status: SubStatus, states: seq<State>, order: seq<string>, n: nat)
    requires IsManaged(t.managed) && Round(states, order) && states[0] == Bereft(t, status) && n <= |order|
    ensures Resolve(states[0], MODEL).ModelMissing? && states[n].trlps.Get(MODEL) == Some(t)
  {
    var s := Bereft(t, status);
    assert KeysOf(s, "a") == [MODEL];
    assert forall m :: !Visits(s, m);
    UndecidedRemains(states, order, n, MODEL);
    assert forall m :: m in s.subscriptions ==> m == "a" && MODEL in KeysOf(s, m);
  }
}
