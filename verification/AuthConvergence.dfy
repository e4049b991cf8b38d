/** Level-triggered convergence of the MaaSAuthPolicy reconciler: with the inputs frozen, two rounds over the
    existing policies, each in any order, settle every generated AuthPolicy, and a third writes nothing. */
module AuthConvergence {
  import opened Strings
  import opened Sorting
  import opened Cluster
  import opened AuthPolicies

  /** `order[i]` is reconciled in `states[i]`; repetitions and unknown names are allowed. */
  ghost predicate Round(states: seq<State>, order: seq<string>) {
    && |states| == |order| + 1
    && forall i :: 0 <= i < |order| ==> Reconciles(states[i], order[i], states[i + 1])
  }

  ghost predicate Covers(order: seq<string>, s: State) {
    forall p :: p in s.policies ==> p in order
  }

  /** Two rounds, one after the other, each over all the policies that exist when it starts. */
  ghost predicate TwoRounds(states1: seq<State>, order1: seq<string>, states2: seq<State>, order2: seq<string>) {
    && Round(states1, order1) && Covers(order1, states1[0])
    && Round(states2, order2) && Covers(order2, states2[0]) && states2[0] == states1[|order1|]
  }

  /** Nothing is opted out, names are DNS labels, and deletion waits for the finalizer. */
  ghost predicate Steady(s: State) {
    && (forall p :: p in s.policies ==> ',' !in p && (s.policies[p].deleting ==> s.policies[p].finalizer))
    && AllManaged(s)
  }

  ghost predicate AllManaged(s: State) {
    forall key :: s.auths.Get(key).Some? ==> IsManaged(s.auths.Get(key).value.managed)
  }

  // ---- What stays the same ----

  ghost predicate SamePolicy(a: Policy, b: Policy) {
    a.refs == b.refs && a.groups == b.groups && a.users == b.users && a.deleting == b.deleting &&
    (a.finalizer ==> b.finalizer)
  }

  /** `s` arises from `s0` by reconciling: only deleting policies may be gone. */
  ghost predicate Frozen(s0: State, s: State) {
    && s.models == s0.models && s.routes == s0.routes
    && (forall p :: p in s.policies ==> p in s0.policies && SamePolicy(s0.policies[p], s.policies[p]))
    && (forall p :: p in s0.policies && !s0.policies[p].deleting ==> p in s.policies)
  }

  lemma FrozenDecides(s0: State, s: State, key: Key)
    requires Frozen(s0, s)
    ensures LiveParents(s, key) == LiveParents(s0, key) && Resolve(s, key) == Resolve(s0, key)
    ensures AllowedGroups(s, key) == AllowedGroups(s0, key) && AllowedUsers(s, key) == AllowedUsers(s0, key)
    ensures RefError(s, key) == RefError(s0, key)
  {
  }

  lemma {:induction false} FrozenReach(s0: State, s: State, refs: seq<Key>)
    requires Frozen(s0, s)
    ensures Reached(s, refs) == Reached(s0, refs)
  {
    if refs != [] {
      FrozenDecides(s0, s, refs[0]);
      FrozenReach(s0, s, refs[1..]);
    }
  }

  lemma FrozenStep(s0: State, s: State, p: string, s': State)
    requires Frozen(s0, s) && Reconciles(s, p, s')
    ensures Frozen(s0, s')
  {
  }

  lemma ManagedStep(s: State, p: string, s': State)
    requires AllManaged(s) && Reconciles(s, p, s')
    ensures AllManaged(s')
  {
  }

  // ---- Who writes and who deletes at a key ----

  /** Some live policy gets as far as `key` without an error. */
  ghost predicate ReachedBy(s: State, p: string, key: Key) {
    p in s.policies && !s.policies[p].deleting && key in Reached(s, s.policies[p].refs)
  }

  /** Reconciling writes the aggregate at `key`. */
  ghost predicate Written(s: State, key: Key) {
    Resolve(s, key).Route? && exists p :: ReachedBy(s, p, key)
  }

  /** Reconciling `p` deletes `a` from `key`, which nobody writes. */
  ghost predicate Kills(s: State, p: string, key: Key, a: AuthPolicy) {
    p in s.policies &&
    var refs := s.policies[p].refs;
    if s.policies[p].deleting then key in refs || Lists(a, p)
    else if key in Reached(s, refs) then Resolve(s, key).ModelMissing?
    else Reached(s, refs) == refs && Lists(a, p)
  }

  lemma {:induction false} ReachedMembers(s: State, refs: seq<Key>, key: Key)
    requires key in Reached(s, refs)
    ensures key in refs && !RefError(s, key)
  {
    if key != refs[0] {
      ReachedMembers(s, refs[1..], key);
    }
  }

  lemma ReachedIsParent(s: State, p: string, key: Key)
    requires ReachedBy(s, p, key)
    ensures p in LiveParents(s, key) && !RefError(s, key)
  {
    ReachedMembers(s, s.policies[p].refs, key);
  }

  lemma FrozenWritten(s0: State, s: State, key: Key)
    requires Frozen(s0, s)
    ensures Written(s, key) <==> Written(s0, key)
    ensures forall p :: ReachedBy(s, p, key) <==> ReachedBy(s0, p, key)
  {
    FrozenDecides(s0, s, key);
    forall p ensures ReachedBy(s, p, key) <==> ReachedBy(s0, p, key) {
      if p in s0.policies {
        FrozenReach(s0, s, s0.policies[p].refs);
      }
    }
  }

  lemma FrozenKills(s0: State, s: State, p: string, key: Key, a: AuthPolicy)
    requires Frozen(s0, s) && p in s.policies
    ensures Kills(s, p, key, a) <==> Kills(s0, p, key, a)
  {
    FrozenDecides(s0, s, key);
    FrozenReach(s0, s, s.policies[p].refs);
  }

  /** At a key nobody writes, a step deletes or does nothing. */
  lemma UnwrittenFate(s: State, key: Key, p: string)
    requires Steady(s) && !Written(s, key) && p in s.policies
    ensures var cur := s.auths.Get(key);
            After(s, p, key) == if cur.Some? && Kills(s, p, key, cur.value) then None else cur
  {
    if !s.policies[p].deleting && key in Reached(s, s.policies[p].refs) {
      assert ReachedBy(s, p, key);
      ReachedIsParent(s, p, key);
    }
  }

  // ---- Settled keys ----

  /** The object at `key` is the aggregate of the live policies. */
  ghost predicate Exact(s: State, key: Key) {
    Resolve(s, key).Route? && s.auths.Get(key).Some? &&
    var a := s.auths.Get(key).value; a == Aggregate(s, key, a.managed, a.optedOutOnce)
  }

  ghost predicate Settled(s: State, key: Key) {
    if Written(s, key) then Exact(s, key)
    else s.auths.Get(key).Some? ==> forall p :: p in s.policies ==> !Kills(s, p, key, s.auths.Get(key).value)
  }

  /** Steady, and every pending deletion is done. */
  ghost predicate Calm(s: State) {
    Steady(s) && forall p :: p in s.policies ==> !s.policies[p].deleting
  }

  /** The contributor annotation of an aggregate names exactly the live parents. */
  lemma AggregateLists(s: State, key: Key, managed: Option<string>, once: bool, p: string)
    requires Resolve(s, key).Route? && LiveParents(s, key) != {}
    requires forall q :: q in s.policies ==> ',' !in q
    ensures Lists(Aggregate(s, key, managed, once), p) <==> p in LiveParents(s, key)
  {
    var names := Arranged(LiveParents(s, key));
    var q :| q in LiveParents(s, key);
    assert q in Elems(names);
    forall n | n in names ensures ',' !in n {
      assert n in Elems(names);
    }
    SplitJoin(names, ',');
    assert p in names <==> p in Elems(names);
  }

  lemma ExactLists(s: State, key: Key, p: string)
    requires Steady(s) && Exact(s, key) && LiveParents(s, key) != {}
    ensures Lists(s.auths.Get(key).value, p) <==> p in LiveParents(s, key)
  {
    var a := s.auths.Get(key).value;
    AggregateLists(s, key, a.managed, a.optedOutOnce, p);
  }

  /** An exact object changes only when a deleting policy that references the model is finalized. */
  lemma ExactFate(s: State, key: Key, p: string)
    requires Steady(s) && Exact(s, key) && LiveParents(s, key) != {} && p in s.policies
    ensures After(s, p, key) == if s.policies[p].deleting && key in s.policies[p].refs then None else s.auths.Get(key)
  {
    ExactLists(s, key, p);
    if ReachedBy(s, p, key) {
      ReachedIsParent(s, p, key);
    }
  }

  lemma SettledIsFixed(s: State, key: Key, p: string)
    requires Calm(s) && Settled(s, key) && p in s.policies
    ensures After(s, p, key) == s.auths.Get(key)
  {
    if Written(s, key) {
      var q :| ReachedBy(s, q, key);
      ReachedIsParent(s, q, key);
      ExactFate(s, key, p);
    } else {
      UnwrittenFate(s, key, p);
    }
  }

  lemma CalmStep(s: State, p: string, s': State)
    requires Calm(s) && Reconciles(s, p, s')
    ensures Calm(s') && Frozen(s, s') && s'.policies.Keys == s.policies.Keys
  {
    FrozenStep(s, s, p, s');
    ManagedStep(s, p, s');
  }

  lemma SettledStep(s: State, key: Key, p: string, s': State)
    requires Calm(s) && Settled(s, key) && Reconciles(s, p, s')
    ensures Settled(s', key) && s'.auths.Get(key) == s.auths.Get(key)
  {
    CalmStep(s, p, s');
    if p in s.policies {
      SettledIsFixed(s, key, p);
    }
    assert s'.auths.Get(key) == After(s, p, key);
    SettledTransfers(s, s', key);
  }

  lemma SettledTransfers(s: State, s': State, key: Key)
    requires Frozen(s, s') && Settled(s, key) && s'.auths.Get(key) == s.auths.Get(key)
    ensures Settled(s', key)
  {
    FrozenWritten(s, s', key);
    FrozenDecides(s, s', key);
    if !Written(s, key) && s.auths.Get(key).Some? {
      forall q | q in s'.policies ensures !Kills(s', q, key, s'.auths.Get(key).value) {
        FrozenKills(s, s', q, key, s'.auths.Get(key).value);
      }
    }
  }

  // ---- Round one: deletions complete, and what can be killed is ----

  ghost predicate Progress(s0: State, done: seq<string>, s: State) {
    && Frozen(s0, s) && Steady(s)
    && forall p :: p in s0.policies && s0.policies[p].deleting ==> (p in s.policies <==> p !in done)
  }

  ghost predicate Killed(s0: State, done: seq<string>, key: Key) {
    s0.auths.Get(key).Some? && exists p :: p in done && Kills(s0, p, key, s0.auths.Get(key).value)
  }

  /** At a key nobody writes: what the policies in `done` leave there. */
  ghost function Remains(s0: State, done: seq<string>, key: Key): Option<AuthPolicy> {
    if Killed(s0, done, key) then None else s0.auths.Get(key)
  }

  lemma ProgressStep(s0: State, done: seq<string>, s: State, p: string, s': State)
    requires Steady(s0) && Progress(s0, done, s) && Reconciles(s, p, s')
    ensures Progress(s0, done + [p], s')
  {
    FrozenStep(s0, s, p, s');
    ManagedStep(s, p, s');
  }

  lemma RemainsStep(s0: State, done: seq<string>, s: State, p: string, s': State, key: Key)
    requires Steady(s0) && Progress(s0, done, s) && Reconciles(s, p, s')
    requires !Written(s0, key) && s.auths.Get(key) == Remains(s0, done, key)
    ensures s'.auths.Get(key) == Remains(s0, done + [p], key)
  {
    assert s'.auths.Get(key) == After(s, p, key);
    assert Killed(s0, done + [p], key) <==>
           Killed(s0, done, key) || (s0.auths.Get(key).Some? && Kills(s0, p, key, s0.auths.Get(key).value)) by {
      assert forall q :: q in done + [p] <==> q in done || q == p;
    }
    if p in s.policies {
      FrozenWritten(s0, s, key);
      UnwrittenFate(s, key, p);
      if s.auths.Get(key).Some? {
        FrozenKills(s0, s, p, key, s.auths.Get(key).value);
      }
    } else {
      assert p in s0.policies ==> p in done;
    }
  }

  lemma {:induction false} MakesProgress(states: seq<State>, order: seq<string>, n: nat)
    requires Round(states, order) && n <= |order| && Steady(states[0])
    ensures Progress(states[0], order[..n], states[n])
  {
    if n > 0 {
      MakesProgress(states, order, n - 1);
      ProgressStep(states[0], order[..n - 1], states[n - 1], order[n - 1], states[n]);
      assert order[..n] == order[..n - 1] + [order[n - 1]];
    }
  }

  lemma {:induction false} FirstRound(states: seq<State>, order: seq<string>, n: nat, key: Key)
    requires Round(states, order) && n <= |order| && Steady(states[0]) && !Written(states[0], key)
    ensures states[n].auths.Get(key) == Remains(states[0], order[..n], key)
  {
    if n > 0 {
      FirstRound(states, order, n - 1, key);
      MakesProgress(states, order, n - 1);
      RemainsStep(states[0], order[..n - 1], states[n - 1], order[n - 1], states[n], key);
      assert order[..n] == order[..n - 1] + [order[n - 1]];
    }
  }

  /** After one round nothing is being deleted, and the keys nobody writes have settled for good. */
  lemma AfterFirstRound(states: seq<State>, order: seq<string>, key: Key)
    requires Round(states, order) && Steady(states[0]) && Covers(order, states[0])
    ensures Calm(states[|order|]) && Frozen(states[0], states[|order|])
    ensures !Written(states[0], key) ==>
            Settled(states[|order|], key) && states[|order|].auths.Get(key) == Remains(states[0], order, key)
  {
    var s0, s := states[0], states[|order|];
    assert order[..|order|] == order;
    MakesProgress(states, order, |order|);
    FrozenWritten(s0, s, key);
    if !Written(s0, key) {
      FirstRound(states, order, |order|, key);
      if s.auths.Get(key).Some? {
        forall p | p in s.policies ensures !Kills(s, p, key, s.auths.Get(key).value) {
          FrozenKills(s0, s, p, key, s.auths.Get(key).value);
        }
      }
    }
  }

  // ---- Round two: every key that is written has been written since the last deletion ----

  lemma WriterSettles(s: State, key: Key, p: string, s': State)
    requires Calm(s) && Reconciles(s, p, s') && ReachedBy(s, p, key) && Resolve(s, key).Route?
    ensures Settled(s', key)
  {
    ReachedIsParent(s, p, key);
    CalmStep(s, p, s');
    FrozenDecides(s, s', key);
    FrozenWritten(s, s', key);
    assert s'.auths.Get(key) == AfterRef(s, key, s.auths.Get(key));
  }

  lemma {:induction false} StaysCalm(states: seq<State>, order: seq<string>, n: nat)
    requires Round(states, order) && n <= |order| && Calm(states[0])
    ensures Calm(states[n]) && Frozen(states[0], states[n]) && states[n].policies.Keys == states[0].policies.Keys
  {
    if n > 0 {
      StaysCalm(states, order, n - 1);
      CalmStep(states[n - 1], order[n - 1], states[n]);
      FrozenStep(states[0], states[n - 1], order[n - 1], states[n]);
    }
  }

  lemma {:induction false} StaysSettled(states: seq<State>, order: seq<string>, m: nat, n: nat, key: Key)
    requires Round(states, order) && m <= n <= |order| && Calm(states[0]) && Settled(states[m], key)
    ensures Settled(states[n], key) && states[n].auths.Get(key) == states[m].auths.Get(key)
  {
    if m < n {
      StaysSettled(states, order, m, n - 1, key);
      StaysCalm(states, order, n - 1);
      SettledStep(states[n - 1], key, order[n - 1], states[n]);
    }
  }

  lemma SecondRound(states: seq<State>, order: seq<string>, key: Key)
    requires Round(states, order) && Calm(states[0]) && Covers(order, states[0])
    requires Written(states[0], key)
    ensures Settled(states[|order|], key)
  {
    var p :| ReachedBy(states[0], p, key);
    var i :| 0 <= i < |order| && order[i] == p;
    StaysCalm(states, order, i);
    FrozenWritten(states[0], states[i], key);
    FrozenDecides(states[0], states[i], key);
    WriterSettles(states[i], key, p, states[i + 1]);
    StaysSettled(states, order, i + 1, |order|, key);
  }

  // ---- The theorems ----

  /** Two rounds settle every key, errors or not. A key somebody writes holds exactly the aggregate; at any other
      the object survives unless some policy kills it. */
  lemma TwoRoundsSettle(states1: seq<State>, order1: seq<string>, states2: seq<State>, order2: seq<string>, key: Key)
    requires TwoRounds(states1, order1, states2, order2) && Steady(states1[0])
    ensures Calm(states2[|order2|]) && Frozen(states1[0], states2[|order2|]) && Settled(states2[|order2|], key)
    ensures if Written(states1[0], key) then Exact(states2[|order2|], key)
            else states2[|order2|].auths.Get(key) == Remains(states1[0], order1, key)
  {
    var s0, s1, s := states1[0], states2[0], states2[|order2|];
    AfterFirstRound(states1, order1, key);
    StaysCalm(states2, order2, |order2|);
    FrozenWritten(s0, s1, key);
    FrozenWritten(s1, s, key);
    if Written(s1, key) {
      SecondRound(states2, order2, key);
    } else {
      StaysSettled(states2, order2, 0, |order2|, key);
    }
  }

  /** Every live policy reconciles without an error. */
  ghost predicate ErrorFree(s: State) {
    forall p, i :: p in s.policies && !s.policies[p].deleting && 0 <= i < |s.policies[p].refs| ==>
      !RefError(s, s.policies[p].refs[i])
  }

  /** Every generated AuthPolicy names a policy that still exists. */
  ghost predicate Anchored(s: State) {
    forall key :: key in s.auths.items ==> exists p :: p in s.policies && Lists(s.auths.items[key], p)
  }

  lemma {:induction false} ReachesAll(s: State, refs: seq<Key>)
    requires forall i :: 0 <= i < |refs| ==> !RefError(s, refs[i])
    ensures Reached(s, refs) == refs
  {
    if refs != [] {
      ReachesAll(s, refs[1..]);
    }
  }

  /** Without errors, a key is written exactly when its route resolves and a live policy references it; the object of
      a model that is gone has a killer, and that of an unreferenced model exactly when it is claimed. */
  lemma ErrorFreeKeys(s: State, key: Key)
    requires ErrorFree(s)
    ensures Written(s, key) <==> Resolve(s, key).Route? && LiveParents(s, key) != {}
    ensures key in s.auths.items && LiveParents(s, key) != {} && Resolve(s, key).ModelMissing? ==>
            exists p :: Kills(s, p, key, s.auths.items[key])
    ensures key in s.auths.items && LiveParents(s, key) == {} ==>
            ((exists p :: Kills(s, p, key, s.auths.items[key])) <==> Claimed(s, key))
  {
    forall p | p in s.policies && !s.policies[p].deleting ensures Reached(s, s.policies[p].refs) == s.policies[p].refs {
      ReachesAll(s, s.policies[p].refs);
    }
    forall p | ReachedBy(s, p, key) ensures p in LiveParents(s, key) {
      ReachedIsParent(s, p, key);
    }
    if p :| p in LiveParents(s, key) {
      assert ReachedBy(s, p, key);
      assert Resolve(s, key).ModelMissing? && key in s.auths.items ==> Kills(s, p, key, s.auths.items[key]);
    } else if key in s.auths.items {
      ClaimsKill(s, key);
    }
  }

  lemma ClaimsKill(s: State, key: Key)
    requires key in s.auths.items && LiveParents(s, key) == {}
    requires forall p :: p in s.policies && !s.policies[p].deleting ==>
               Reached(s, s.policies[p].refs) == s.policies[p].refs
    ensures (exists p :: Kills(s, p, key, s.auths.items[key])) <==> Claimed(s, key)
  {
    forall p | p in s.policies
      ensures Kills(s, p, key, s.auths.items[key]) <==>
              (s.policies[p].deleting && key in s.policies[p].refs) || Lists(s.auths.items[key], p)
    {
      assert key in s.policies[p].refs ==> s.policies[p].deleting || p in LiveParents(s, key);
    }
  }

  /** `a` is the sorted, duplicate-free union of the live policies of `s` for `key`. */
  ghost predicate IsUnion(s: State, key: Key, a: AuthPolicy) {
    && StrictlyIncreasing(a.groups) && Elems(a.groups) == AllowedGroups(s, key)
    && StrictlyIncreasing(a.users) && Elems(a.users) == AllowedUsers(s, key)
    && StrictlyIncreasing(Split(a.contributors, ',')) && Elems(Split(a.contributors, ',')) == LiveParents(s, key)
    && Join(Split(a.contributors, ','), ',') == a.contributors
    && Resolve(s, key) == Route(a.route)
  }

  lemma ExactIsUnion(s: State, key: Key)
    requires Steady(s) && LiveParents(s, key) != {} && s.auths.Get(key).Some?
    ensures Exact(s, key) <==> IsUnion(s, key, s.auths.Get(key).value)
  {
    var a, names := s.auths.Get(key).value, Arranged(LiveParents(s, key));
    var q :| q in LiveParents(s, key);
    assert q in Elems(names);
    forall n | n in names ensures ',' !in n {
      assert n in Elems(names);
    }
    SplitJoin(names, ',');
    if IsUnion(s, key, a) {
      IncreasingUnique(a.groups, Arranged(AllowedGroups(s, key)));
      IncreasingUnique(a.users, Arranged(AllowedUsers(s, key)));
      IncreasingUnique(Split(a.contributors, ','), names);
    }
  }

  lemma UnionTransfers(s0: State, s: State, key: Key, a: AuthPolicy)
    requires Frozen(s0, s)
    ensures IsUnion(s, key, a) <==> IsUnion(s0, key, a)
  {
    FrozenDecides(s0, s, key);
  }

  /** Error-free convergence, exactly: each model with a route and a live policy ends with the sorted, duplicate-free
      union of its live policies' names, groups and users, and a model that is gone with nothing; one that no live
      policy references ends with nothing if and only if it had nothing, or a policy that still exists is named by
      the object or is being deleted and references the model. */
  lemma ErrorFreeConvergence(
      states1: seq<State>, order1: seq<string>, states2: seq<State>, order2: seq<string>, key: Key)
    requires TwoRounds(states1, order1, states2, order2) && Steady(states1[0]) && ErrorFree(states1[0])
    ensures var s0, s := states1[0], states2[|order2|];
            && (LiveParents(s0, key) != {} && Resolve(s0, key).Route? ==>
                  key in s.auths.items && IsUnion(s0, key, s.auths.items[key]))
            && (LiveParents(s0, key) != {} && Resolve(s0, key).ModelMissing? ==> key !in s.auths.items)
            && (LiveParents(s0, key) == {} ==> (key !in s.auths.items <==> key !in s0.auths.items || Claimed(s0, key)))
  {
    var s0, s := states1[0], states2[|order2|];
    TwoRoundsSettle(states1, order1, states2, order2, key);
    ErrorFreeKeys(s0, key);
    if Written(s0, key) {
      FrozenDecides(s0, s, key);
      ExactIsUnion(s, key);
      UnionTransfers(s0, s, key, s.auths.items[key]);
    } else if key in s0.auths.items {
      assert s0.auths.Get(key) == Some(s0.auths.items[key]);
      if p :| Kills(s0, p, key, s0.auths.items[key]) {
        assert p in order1;
      }
      assert s.auths.Get(key) == Remains(s0, order1, key);
    }
  }

  /** A policy that still exists is named by the object at `key`, or is being deleted and references `key`. */
  ghost predicate Claimed(s: State, key: Key)
    requires key in s.auths.items
  {
    exists p :: p in s.policies &&
                ((s.policies[p].deleting && key in s.policies[p].refs) || Lists(s.auths.items[key], p))
  }

  /** Convergence when every object names a policy that still exists: a model nobody references ends with nothing. */
  lemma Convergence(states1: seq<State>, order1: seq<string>, states2: seq<State>, order2: seq<string>, key: Key)
    requires TwoRounds(states1, order1, states2, order2)
    requires Steady(states1[0]) && Anchored(states1[0]) && ErrorFree(states1[0])
    ensures var s0, s := states1[0], states2[|order2|];
            && (LiveParents(s0, key) == {} || Resolve(s0, key).ModelMissing? ==> key !in s.auths.items)
            && (LiveParents(s0, key) != {} && Resolve(s0, key).Route? ==>
                  key in s.auths.items && IsUnion(s0, key, s.auths.items[key]))
  {
    ErrorFreeConvergence(states1, order1, states2, order2, key);
  }

  /** Exactly when a model with a route and a live policy converges: some live policy gets as far as that model
      without an error, or the object was right all along and no deleting policy references the model. */
  lemma ConvergesIff(states1: seq<State>, order1: seq<string>, states2: seq<State>, order2: seq<string>, key: Key)
    requires TwoRounds(states1, order1, states2, order2) && Steady(states1[0])
    requires LiveParents(states1[0], key) != {} && Resolve(states1[0], key).Route?
    ensures var s0, s := states1[0], states2[|order2|];
            (key in s.auths.items && IsUnion(s0, key, s.auths.items[key])) <==>
            || (exists p :: ReachedBy(s0, p, key))
            || (key in s0.auths.items && IsUnion(s0, key, s0.auths.items[key]) &&
                forall p :: p in s0.policies && s0.policies[p].deleting ==> key !in s0.policies[p].refs)
  {
    var s0, s := states1[0], states2[|order2|];
    TwoRoundsSettle(states1, order1, states2, order2, key);
    if Written(s0, key) {
      FrozenDecides(s0, s, key);
      ExactIsUnion(s, key);
      UnionTransfers(s0, s, key, s.auths.Get(key).value);
    } else if key in s0.auths.items && IsUnion(s0, key, s0.auths.items[key]) {
      ExactIsUnion(s0, key);
      UnwrittenKillers(s0, order1, key);
    }
  }

  lemma UnwrittenKillers(s: State, order: seq<string>, key: Key)
    requires Steady(s) && Covers(order, s) && Exact(s, key) && LiveParents(s, key) != {} && !Written(s, key)
    ensures Killed(s, order, key) <==>
            exists p :: p in s.policies && s.policies[p].deleting && key in s.policies[p].refs
  {
    var a := s.auths.Get(key).value;
    forall p | p in s.policies ensures Kills(s, p, key, a) <==> s.policies[p].deleting && key in s.policies[p].refs {
      UnwrittenFate(s, key, p);
      ExactFate(s, key, p);
    }
    if p :| p in s.policies && s.policies[p].deleting && key in s.policies[p].refs {
      assert p in order && Kills(s, p, key, a);
    }
  }

  /** One subject that is not CEL safe, in any live policy of a model, keeps every policy from writing it. */
  lemma UnsafeSubjectBlocksAll(s: State, p: string, key: Key, v: string)
    requires p in LiveParents(s, key) && Resolve(s, key).Route? && !CelValue(v)
    requires v in s.policies[p].groups || v in s.policies[p].users
    ensures !Written(s, key)
  {
    assert v in AllowedGroups(s, key) + AllowedUsers(s, key);
    if q :| ReachedBy(s, q, key) {
      ReachedIsParent(s, q, key);
    }
  }

  const MODEL := Key("team", "llm")

  /** Two policies grant access to one served model; the second names a group with a quote in it. */
  function Misquoted(): State {
    State("maas",
          map["good" := Policy([MODEL], ["dev"], [], false, true),
              "bad" := Policy([MODEL], ["o\"neil"], [], false, true)],
          map[], map[MODEL := Model(false, true, true)], map[MODEL := "route"], Objects(map[], 0), Objects(map[], 0))
  }

  /** From there no sequence of reconciles, of whatever length, gives the model an AuthPolicy, so the groups of the
      good policy are never let in. */
  lemma MisquotedNeverConverges(states: seq<State>, order: seq<string>, n: nat)
    requires Round(states, order) && states[0] == Misquoted() && n <= |order|
    ensures Steady(states[0]) && Anchored(states[0])
    ensures LiveParents(states[0], MODEL) == {"good", "bad"} && Resolve(states[0], MODEL).Route?
    ensures MODEL !in states[n].auths.items
  {
    var s0 := states[0];
    assert MODEL in s0.policies["good"].refs && MODEL in s0.policies["bad"].refs;
    var v := "o\"neil";
    assert v[1] == '"' && v in s0.policies["bad"].groups;
    UnsafeSubjectBlocksAll(s0, "bad", MODEL, v);
    FirstRound(states, order, n, MODEL);
  }

  /** A third round makes no API write to any generated AuthPolicy, errors or not. */
  lemma {:induction false} ThirdRoundWritesNothing(
      states1: seq<State>, order1: seq<string>, states2: seq<State>, order2: seq<string>,
      states3: seq<State>, order3: seq<string>, n: nat)
    requires TwoRounds(states1, order1, states2, order2) && Steady(states1[0])
    requires Round(states3, order3) && states3[0] == states2[|order2|] && n <= |order3|
    ensures states3[n].auths == states2[|order2|].auths
    ensures Calm(states3[n]) && forall key :: Settled(states3[n], key)
  {
    if n == 0 {
      forall key ensures Calm(states3[0]) && Settled(states3[0], key) {
        TwoRoundsSettle(states1, order1, states2, order2, key);
      }
      TwoRoundsSettle(states1, order1, states2, order2, MODEL);
    } else {
      ThirdRoundWritesNothing(states1, order1, states2, order2, states3, order3, n - 1);
      var s, p, s' := states3[n - 1], order3[n - 1], states3[n];
      assert Reconciles(states3[n - 1], order3[n - 1], states3[n]);
      CalmStep(s, p, s');
      forall key ensures Settled(s', key) && s'.auths.Get(key) == s.auths.Get(key) {
        SettledStep(s, key, p, s');
      }
    }
  }

  // ---- Why one round is not enough ----

  /** Finalizing a policy deletes a managed AuthPolicy exactly when the policy references the model or is named as a
      contributor, whatever other live policies the model has. */
  lemma DeletionGapIff(s: State, p: string, s': State, key: Key)
    requires Reconciles(s, p, s') && p in s.policies && s.policies[p].deleting && s.policies[p].finalizer
    requires key in s.auths.items && IsManaged(s.auths.items[key].managed)
    ensures key !in s'.auths.items <==> key in s.policies[p].refs || Lists(s.auths.items[key], p)
    ensures LiveParents(s', key) == LiveParents(s, key)
  {
    assert s'.auths.Get(key) == After(s, p, key);
    FrozenStep(s, s, p, s');
    FrozenDecides(s, s', key);
  }

  function Departing(auths: Objects<AuthPolicy>): State {
    State("maas",
          map["gone" := Policy([MODEL], ["ops"], [], true, true), "stay" := Policy([MODEL], ["dev"], [], false, true)],
          map[], map[MODEL := Model(false, true, true)], map[MODEL := "route"], auths, Objects(map[], 0))
  }

  lemma DepartingFacts(s: State)
    requires s == Departing(s.auths)
    ensures LiveParents(s, MODEL) == {"stay"} && Resolve(s, MODEL) == Route("route")
    ensures forall p :: p in s.policies ==> ',' !in p && (s.policies[p].deleting ==> s.policies[p].finalizer)
  {
    assert MODEL in s.policies["stay"].refs;
    assert LiveParents(s, MODEL) == {"stay"};
  }

  lemma FinalizesOnly(s: State, p: string, key: Key, a: AuthPolicy, s': State)
    requires p in s.policies && s.policies[p].deleting && s.policies[p].finalizer && key in s.policies[p].refs
    requires s.auths == Objects(map[key := a], 1) && IsManaged(a.managed)
    requires s' == s.(policies := s.policies - {p}, auths := Objects(map[], 2))
    ensures Reconciles(s, p, s')
  {
    assert s.auths.Get(key) == Some(a) && s'.auths.Get(key).None?;
  }

  /** A gap: a live policy remains and the AuthPolicy is exactly its own, yet finalizing the other one deletes it. */
  lemma DeletionLeavesAGap() returns (s: State, s': State)
    ensures Steady(s) && Exact(s, MODEL) && LiveParents(s, MODEL) == {"stay"}
    ensures Reconciles(s, "gone", s') && LiveParents(s', MODEL) == {"stay"} && MODEL !in s'.auths.items
  {
    var none := Departing(Objects(map[], 0));
    DepartingFacts(none);
    var a := Aggregate(none, MODEL, None, false);
    s := Departing(Objects(map[MODEL := a], 1));
    DepartingFacts(s);
    assert s.auths.Get(MODEL) == Some(a);
    FrozenDecides(none, s, MODEL);
    s' := s.(policies := s.policies - {"gone"}, auths := Objects(map[], 2));
    FinalizesOnly(s, "gone", MODEL, a, s');
    FrozenStep(s, s, "gone", s');
    FrozenDecides(s, s', MODEL);
  }
}
