/** Settlement of TokenRateLimitPolicies when reconciles err: exactly which models still get an exact policy, over any
    sequence of reconciles, and in terms of the first state when no clean-up clears an error. */
module TokenErrors {
  import opened Strings
  import opened Cluster
  import opened TokenLimits
  import opened Subscriptions
  import opened TokenConvergence

  /** The reconcile of `n` gets as far as `key` without an error. */
  ghost predicate ReachedBy(s: State, n: string, key: Key) {
    Visits(s, n) && key in Reached(s, KeysOf(s, n))
  }

  /** A step that cleans up the policy of `key` behind `n`. */
  ghost predicate CleansUp(s: State, n: string, key: Key) {
    Succeeds(s, n) && Stale(s, n, key, s.trlps.Get(key))
  }

  /** Names are DNS labels, deletion waits for the finalizer, and the policy of `key` is not opted out. */
  ghost predicate SteadyAt(s: State, key: Key) {
    && WellNamed(s)
    && (forall n :: n in s.subscriptions && s.subscriptions[n].deleting ==> s.subscriptions[n].finalizer)
    && (s.trlps.Get(key).Some? ==> IsManaged(s.trlps.Get(key).value.managed))
  }

  /** What one step does at `key`, errors or not. */
  ghost function AnyFate(s: State, n: string, key: Key): Option<TokenPolicy>
    requires WellNamed(s)
  {
    if ReachedBy(s, n, key) then AfterRef(s, key, s.trlps.Get(key))
    else if CleansUp(s, n, key) then Deleted(s.trlps.Get(key))
    else s.trlps.Get(key)
  }

  lemma AnyStepFate(s: State, n: string, s': State, key: Key)
    requires SteadyAt(s, key) && Reconciles(s, n, s')
    ensures s'.trlps.Get(key) == AnyFate(s, n, key)
  {
    if n in s.subscriptions {
      var keys := KeysOf(s, n);
      if Visits(s, n) {
        assert s'.trlps.Get(key) == AfterPass(s, n, keys, key);
        if key in Reached(s, keys) {
          ReachedMembers(s, keys, key);
        }
      } else {
        assert s'.trlps.Get(key) == Cleaned(s.trlps.Get(key), key, n, keys);
      }
    }
  }

  lemma AnyStepIsSteady(s: State, n: string, s': State, key: Key)
    requires SteadyAt(s, key) && Reconciles(s, n, s')
    ensures SteadyAt(s', key)
  {
    StepFreezes(s, s, n, s');
    AnyStepFate(s, n, s', key);
    AnyFateIsManaged(s, n, key);
  }

  lemma AnyFateIsManaged(s: State, n: string, key: Key)
    requires SteadyAt(s, key)
    ensures AnyFate(s, n, key).Some? ==> IsManaged(AnyFate(s, n, key).value.managed)
  {
  }

  /** A step makes the policy of a served model exact, or leaves it so, or removes it where none is needed, and in no
      other way does it become exact. */
  lemma ExactStep(s: State, n: string, s': State, key: Key)
    requires SteadyAt(s, key) && Resolve(s, key).Route? && Reconciles(s, n, s')
    ensures IsExact(s, key, s'.trlps.Get(key)) <==>
            || IsExact(s, key, s.trlps.Get(key)) || ReachedBy(s, n, key)
            || (EffectiveSubs(s, key) == {} && CleansUp(s, n, key))
  {
    AnyStepFate(s, n, s', key);
    if ReachedBy(s, n, key) {
      ReachedMembers(s, KeysOf(s, n), key);
      Exactness(s, key, s.trlps.Get(key));
    } else if CleansUp(s, n, key) {
      assert n !in EffectiveSubs(s, key);
    }
  }

  lemma ExactTransfers(s0: State, s: State, key: Key, cur: Option<TokenPolicy>)
    requires Frozen(s0, s) && Resolve(s0, key).Route?
    ensures Resolve(s, key).Route? && EffectiveSubs(s, key) == EffectiveSubs(s0, key)
    ensures IsExact(s, key, cur) <==> IsExact(s0, key, cur)
  {
    FrozenIsSameLive(s0, s);
    SameSubs(s0, s, key);
    forall n | n in EffectiveSubs(s0, key) ensures Entry(s, n, key) == Entry(s0, n, key) {
      assert Live(s0, n);
    }
    SameExact(s0, s, key, cur);
  }

  lemma SameExact(s0: State, s: State, key: Key, cur: Option<TokenPolicy>)
    requires Resolve(s0, key).Route? && Resolve(s, key).Route? && s.routes == s0.routes && s.namespace == s0.namespace
    requires EffectiveSubs(s, key) == EffectiveSubs(s0, key)
    requires forall n :: n in EffectiveSubs(s0, key) ==> Entry(s, n, key) == Entry(s0, n, key)
    ensures IsExact(s, key, cur) <==> IsExact(s0, key, cur)
  {
  }

  /** Step `i` makes the policy of `key` exact. */
  ghost predicate Repairs(s: State, n: string, key: Key) {
    ReachedBy(s, n, key) || (EffectiveSubs(s, key) == {} && CleansUp(s, n, key))
  }

  /** Over any sequence of reconciles, errors or not: a served model's policy is exact afterwards if and only if it was
      before, or some step got as far as the model, or removed a policy that is not needed. */
  lemma {:induction false} SettlesIff(states: seq<State>, order: seq<string>, n: nat, key: Key)
    requires Round(states, order) && n <= |order| && SteadyAt(states[0], key) && Resolve(states[0], key).Route?
    ensures SteadyAt(states[n], key) && Frozen(states[0], states[n])
    ensures IsExact(states[0], key, states[n].trlps.Get(key)) <==>
            || IsExact(states[0], key, states[0].trlps.Get(key))
            || exists i :: 0 <= i < n && Repairs(states[i], order[i], key)
  {
    if n > 0 {
      SettlesIff(states, order, n - 1, key);
      StepOf(states, order, n - 1);
      SettlesStep(states[0], states[n - 1], order[n - 1], states[n], key);
    }
  }

  lemma SettlesStep(s0: State, s: State, n: string, s': State, key: Key)
    requires WellNamed(s0) && Frozen(s0, s) && SteadyAt(s, key) && Resolve(s0, key).Route? && Reconciles(s, n, s')
    ensures SteadyAt(s', key) && Frozen(s0, s')
    ensures IsExact(s0, key, s'.trlps.Get(key)) <==> IsExact(s0, key, s.trlps.Get(key)) || Repairs(s, n, key)
  {
    StepFreezes(s0, s, n, s');
    AnyStepIsSteady(s, n, s', key);
    ExactTransfers(s0, s, key, s.trlps.Get(key));
    ExactTransfers(s0, s, key, s'.trlps.Get(key));
    ExactStep(s, n, s', key);
  }

  // ---- A conflict over any sequence of reconciles ----

  lemma ConflictFate(s: State, n: string, s': State, key: Key)
    requires WellNamed(s) && Reconciles(s, n, s') && Conflict(s, key, s.trlps.Get(key))
    requires n in s.subscriptions && s.subscriptions[n].deleting ==> s.subscriptions[n].finalizer
    ensures s'.trlps.Get(key) == if CleansUp(s, n, key) then None else s.trlps.Get(key)
  {
    if n in s.subscriptions {
      var keys := KeysOf(s, n);
      if key in keys {
        ConflictStays(s, n, s', key);
      } else if s.subscriptions[n].deleting || HasValidModels(s, keys) {
        assert s'.trlps.Get(key) == AfterPass(s, n, keys, key);
        if key in Reached(s, keys) {
          ReachedMembers(s, keys, key);
        }
      } else {
        assert s'.trlps.Get(key) == Cleaned(s.trlps.Get(key), key, n, keys);
      }
    }
  }

  lemma ConflictTransfers(s0: State, s: State, key: Key)
    requires WellNamed(s0) && WellNamed(s) && Frozen(s0, s) && s.trlps.Get(key) == s0.trlps.Get(key)
    ensures Conflict(s, key, s.trlps.Get(key)) <==> Conflict(s0, key, s0.trlps.Get(key))
  {
    FrozenIsSameLive(s0, s);
    SameSubs(s0, s, key);
  }

  /** Errors, exactly: through any sequence of reconciles, a policy controlled by the model's former route stays as it
      is until a successful reconcile of a subscription that dropped the model cleans it up. */
  lemma {:induction false} ConflictIsStuck(states: seq<State>, order: seq<string>, n: nat, key: Key)
    requires Round(states, order) && n <= |order| && WellNamed(states[0])
    requires forall m :: m in states[0].subscriptions && states[0].subscriptions[m].deleting ==>
               states[0].subscriptions[m].finalizer
    requires Conflict(states[0], key, states[0].trlps.Get(key))
    ensures WellNamed(states[n]) && Frozen(states[0], states[n])
    ensures (forall k :: 0 <= k <= n ==> states[k].trlps.Get(key) == states[0].trlps.Get(key)) <==>
            (forall i :: 0 <= i < n ==> !CleansUp(states[i], order[i], key))
  {
    if n > 0 {
      ConflictIsStuck(states, order, n - 1, key);
      var s, m, s' := states[n - 1], order[n - 1], states[n];
      StepOf(states, order, n - 1);
      ConflictStep(states[0], s, m, s', key);
    }
  }

  lemma ConflictStep(s0: State, s: State, n: string, s': State, key: Key)
    requires WellNamed(s0) && WellNamed(s) && Frozen(s0, s) && Reconciles(s, n, s')
    requires forall m :: m in s0.subscriptions && s0.subscriptions[m].deleting ==> s0.subscriptions[m].finalizer
    requires Conflict(s0, key, s0.trlps.Get(key))
    ensures WellNamed(s') && Frozen(s0, s')
    ensures s.trlps.Get(key) == s0.trlps.Get(key) ==>
            (s'.trlps.Get(key) == s0.trlps.Get(key) <==> !CleansUp(s, n, key))
  {
    StepFreezes(s0, s, n, s');
    if s.trlps.Get(key) == s0.trlps.Get(key) {
      ConflictTransfers(s0, s, key);
      ConflictFate(s, n, s', key);
    }
  }

  // ---- With errors that last ----

  /** No policy controlled by a former route lists a subscription that dropped its model, so nothing clears an error. */
  ghost predicate ErrorsLast(s: State) {
    forall key, n :: Conflict(s, key, s.trlps.Get(key)) ==> !Stale(s, n, key, s.trlps.Get(key))
  }

  /** The errors of `s` are those of `s0`, and so are the policies that cause them. */
  ghost predicate SameErrors(s0: State, s: State) {
    && (forall key :: Errs(s, key) <==> Errs(s0, key))
    && (forall key :: Conflict(s0, key, s0.trlps.Get(key)) ==> s.trlps.Get(key) == s0.trlps.Get(key))
  }

  ghost predicate AllWait(s: State) {
    forall n :: n in s.subscriptions && s.subscriptions[n].deleting ==> s.subscriptions[n].finalizer
  }

  lemma ErrorStays(s0: State, s: State, n: string, s': State, key: Key)
    requires WellNamed(s0) && AllWait(s0) && ErrorsLast(s0) && WellNamed(s) && Frozen(s0, s) && SameErrors(s0, s)
    requires Reconciles(s, n, s')
    ensures WellNamed(s') && (Errs(s', key) <==> Errs(s0, key))
    ensures Conflict(s0, key, s0.trlps.Get(key)) ==> s'.trlps.Get(key) == s0.trlps.Get(key)
  {
    StepFreezes(s0, s, n, s');
    if Conflict(s0, key, s0.trlps.Get(key)) {
      LastingConflict(s0, s, n, s', key);
    } else if Errs(s0, key) {
      LastingKind(s0, s', key);
    } else {
      assert !Errs(s, key);
      StepFreezes(s, s, n, s');
      FrozenIsSameLive(s, s');
      TokenFateOf(s, n, s', key);
      NoNewError(s, s', key);
    }
  }

  lemma LastingConflict(s0: State, s: State, n: string, s': State, key: Key)
    requires WellNamed(s0) && AllWait(s0) && WellNamed(s) && Frozen(s0, s) && Reconciles(s, n, s')
    requires Conflict(s0, key, s0.trlps.Get(key)) && s.trlps.Get(key) == s0.trlps.Get(key)
    requires forall m :: !Stale(s0, m, key, s0.trlps.Get(key))
    ensures s'.trlps.Get(key) == s0.trlps.Get(key) && Errs(s', key)
  {
    assert !Stale(s0, n, key, s0.trlps.Get(key));
    StaleTransfers(s0, s, n, key, s0.trlps.Get(key));
    ConflictStep(s0, s, n, s', key);
    ConflictTransfers(s0, s', key);
  }

  lemma StaleTransfers(s0: State, s: State, n: string, key: Key, cur: Option<TokenPolicy>)
    requires Frozen(s0, s)
    ensures Stale(s, n, key, cur) ==> Stale(s0, n, key, cur)
  {
    FrozenIsSameLive(s0, s);
  }

  /** An error that is not a conflict comes from the kind of the model. */
  lemma LastingKind(s0: State, s: State, key: Key)
    requires Frozen(s0, s) && Errs(s0, key) && !Conflict(s0, key, s0.trlps.Get(key))
    ensures Errs(s, key)
  {
    FrozenIsSameLive(s0, s);
    SameSubs(s0, s, key);
  }

  lemma {:induction false} ErrorsStay(states: seq<State>, order: seq<string>, n: nat)
    requires Round(states, order) && n <= |order|
    requires WellNamed(states[0]) && AllWait(states[0]) && ErrorsLast(states[0])
    ensures WellNamed(states[n]) && Frozen(states[0], states[n]) && SameErrors(states[0], states[n])
  {
    if n > 0 {
      ErrorsStay(states, order, n - 1);
      StepOf(states, order, n - 1);
      StepFreezes(states[0], states[n - 1], order[n - 1], states[n]);
      forall key
        ensures Errs(states[n], key) <==> Errs(states[0], key)
        ensures Conflict(states[0], key, states[0].trlps.Get(key)) ==>
                states[n].trlps.Get(key) == states[0].trlps.Get(key)
      {
        ErrorStays(states[0], states[n - 1], order[n - 1], states[n], key);
      }
    }
  }

  lemma {:induction false} SameReached(s0: State, s: State, keys: seq<Key>)
    requires forall key :: Errs(s, key) <==> Errs(s0, key)
    ensures Reached(s, keys) == Reached(s0, keys)
  {
    if keys != [] {
      assert Errs(s, keys[0]) <==> Errs(s0, keys[0]);
      SameReached(s0, s, keys[1..]);
    }
  }

  lemma SameRepairs(s0: State, s: State, n: string, key: Key)
    requires AllWait(s0) && Frozen(s0, s) && SameErrors(s0, s) && n in s.subscriptions
    requires EffectiveSubs(s0, key) == {} ==> s.trlps.Get(key) == s0.trlps.Get(key)
    ensures Repairs(s, n, key) <==> Repairs(s0, n, key)
  {
    FrozenIsSameLive(s0, s);
    SameSubs(s0, s, key);
    SameReached(s0, s, KeysOf(s, n));
  }

  /** Where no policy is needed, one that no step removes is left as it was. */
  lemma {:induction false} UnrepairedStays(states: seq<State>, order: seq<string>, n: nat, key: Key)
    requires Round(states, order) && n <= |order| && SteadyAt(states[0], key) && Resolve(states[0], key).Route?
    requires EffectiveSubs(states[0], key) == {}
    requires forall i :: 0 <= i < n ==> !Repairs(states[i], order[i], key)
    ensures states[n].trlps.Get(key) == states[0].trlps.Get(key)
  {
    if n > 0 {
      UnrepairedStays(states, order, n - 1, key);
      SettlesIff(states, order, n - 1, key);
      StepOf(states, order, n - 1);
      ExactTransfers(states[0], states[n - 1], key, None);
      AnyStepFate(states[n - 1], order[n - 1], states[n], key);
    }
  }

  lemma {:induction false} RepairTransfers(states: seq<State>, order: seq<string>, n: nat, key: Key)
    requires Round(states, order) && n <= |order| && SteadyAt(states[0], key) && Resolve(states[0], key).Route?
    requires ErrorsLast(states[0]) && exists i :: 0 <= i < n && Repairs(states[i], order[i], key)
    ensures exists m :: Repairs(states[0], m, key)
  {
    if exists i :: 0 <= i < n - 1 && Repairs(states[i], order[i], key) {
      RepairTransfers(states, order, n - 1, key);
    } else {
      ErrorsStay(states, order, n - 1);
      if EffectiveSubs(states[0], key) == {} {
        UnrepairedStays(states, order, n - 1, key);
      }
      assert Repairs(states[n - 1], order[n - 1], key);
      SameRepairs(states[0], states[n - 1], order[n - 1], key);
    }
  }

  /** A subscription exists until it is itself reconciled. */
  lemma {:induction false} ExistsUntilReconciled(states: seq<State>, order: seq<string>, n: nat, m: string)
    requires Round(states, order) && n <= |order| && m in states[0].subscriptions && m !in order[..n]
    ensures m in states[n].subscriptions
  {
    if n > 0 {
      assert order[..n] == order[..n - 1] + [order[n - 1]];
      ExistsUntilReconciled(states, order, n - 1, m);
      StepOf(states, order, n - 1);
      OnlyOneGoes(states[n - 1], order[n - 1], states[n]);
    }
  }

  lemma {:induction false} FirstAt(order: seq<string>, m: string) returns (i: nat)
    requires m in order
    ensures i < |order| && order[i] == m && m !in order[..i]
  {
    var init, last := order[..|order| - 1], order[|order| - 1];
    assert order == init + [last];
    if m in init {
      i := FirstAt(init, m);
      assert order[..i] == init[..i];
    } else {
      i := |order| - 1;
    }
  }

  lemma RepairHappens(states: seq<State>, order: seq<string>, m: string, key: Key) returns (i: nat)
    requires Round(states, order) && Covers(order, states[0]) && SteadyAt(states[0], key)
    requires Resolve(states[0], key).Route? && ErrorsLast(states[0]) && Repairs(states[0], m, key)
    ensures i < |order| && Repairs(states[i], order[i], key)
  {
    i := FirstAt(order, m);
    ExistsUntilReconciled(states, order, i, m);
    ErrorsStay(states, order, i);
    if EffectiveSubs(states[0], key) == {} && states[i].trlps.Get(key) != states[0].trlps.Get(key) {
      if forall j :: 0 <= j < i ==> !Repairs(states[j], order[j], key) {
        UnrepairedStays(states, order, i, key);
      }
      i :| 0 <= i < |order| && Repairs(states[i], order[i], key);
    } else {
      SameRepairs(states[0], states[i], m, key);
    }
  }

  /** With errors, and none that a clean-up clears: a served model ends a round with an exact policy if and only if it
      had one, or some subscription gets as far as the model without an error, or cleans up a policy not needed. */
  lemma ConvergesIff(states: seq<State>, order: seq<string>, key: Key)
    requires Round(states, order) && Covers(order, states[0]) && SteadyAt(states[0], key)
    requires Resolve(states[0], key).Route? && ErrorsLast(states[0])
    ensures IsExact(states[0], key, states[|order|].trlps.Get(key)) <==>
            IsExact(states[0], key, states[0].trlps.Get(key)) || exists n :: Repairs(states[0], n, key)
  {
    SettlesIff(states, order, |order|, key);
    if exists i :: 0 <= i < |order| && Repairs(states[i], order[i], key) {
      RepairTransfers(states, order, |order|, key);
    }
    if n :| Repairs(states[0], n, key) {
      var i := RepairHappens(states, order, n, key);
    }
  }
}
