/** The three reconcilers and the cluster's users as one transition system, and what every reachable state of it
    satisfies. */
module ControlPlane {
  import opened Strings
  import opened Cluster
  import AuthPolicies
  import AuthConvergence
  import TokenLimits
  import Subscriptions
  import ModelRefs

  datatype Action =
    // the controllers
    | ReconcilePolicy(policy: string)
    | ReconcileSubscription(subscription: string)
    | ReconcileModel(key: Key)
    // the users
    | ApplyPolicy(policy: string, refs: seq<Key>, groups: seq<string>, users: seq<string>)
    | DeletePolicy(policy: string)
    | ApplySubscription(subscription: string, limits: seq<SubRef>)
    | DeleteSubscription(subscription: string)
    | ApplyModel(key: Key, knownKind: bool)
    | DeleteModel(key: Key)
    | SetRoute(key: Key, route: Option<string>)
    | AnnotateAuthPolicy(key: Key, managed: Option<string>)
    | AnnotateTokenPolicy(key: Key, managed: Option<string>)
    | DropAuthPolicy(key: Key)
    | DropTokenPolicy(key: Key)
    | ReportTokenPolicy(key: Key, accepted: bool)

  /** The cluster, with the policies released by their finalizer and not created anew since. */
  datatype System = System(s: State, released: set<string>)

  predicate LabelName(name: string) {
    '/' !in name && ',' !in name && '@' !in name
  }

  /** Deletion waits for a finalizer, if there is one. */
  function RemovePolicy(s: State, p: string): State {
    if p !in s.policies then s
    else if s.policies[p].finalizer then s.(policies := s.policies[p := s.policies[p].(deleting := true)])
    else s.(policies := s.policies - {p})
  }

  function RemoveSubscription(s: State, n: string): State {
    if n !in s.subscriptions then s
    else if s.subscriptions[n].finalizer then
      s.(subscriptions := s.subscriptions[n := s.subscriptions[n].(deleting := true)])
    else s.(subscriptions := s.subscriptions - {n})
  }

  function RemoveModel(s: State, key: Key): State {
    if key !in s.models then s
    else if s.models[key].finalizer then s.(models := s.models[key := s.models[key].(deleting := true)])
    else s.(models := s.models - {key})
  }

  /** A user's step; all of it is what the API server lets a user do. */
  ghost function Edited(s: State, a: Action): State {
    match a
    case ApplyPolicy(p, refs, groups, users) =>
      if p in s.policies then
        s.(policies := s.policies[p := s.policies[p].(refs := refs, groups := groups, users := users)])
      else s.(policies := s.policies[p := Policy(refs, groups, users, false, false)])
    case DeletePolicy(p) => RemovePolicy(s, p)
    case ApplySubscription(n, refs) =>
      if n in s.subscriptions then s.(subscriptions := s.subscriptions[n := s.subscriptions[n].(refs := refs)])
      else s.(subscriptions := s.subscriptions[n := Subscription(refs, false, false, SubStatus(Unreconciled, [], []))])
    case DeleteSubscription(n) => RemoveSubscription(s, n)
    case ApplyModel(key, known) =>
      if key in s.models then s.(models := s.models[key := s.models[key].(knownKind := known)])
      else s.(models := s.models[key := Model(false, false, known)])
    case DeleteModel(key) => RemoveModel(s, key)
    case SetRoute(key, route) =>
      s.(routes := if route.Some? then s.routes[key := route.value] else s.routes - {key})
    case AnnotateAuthPolicy(key, managed) =>
      if key !in s.auths.items then s
      else
        var a := s.auths.items[key];
        s.(auths := s.auths.Put(key, a.(managed := managed, optedOutOnce := a.optedOutOnce || !IsManaged(managed))))
    case AnnotateTokenPolicy(key, managed) =>
      if key !in s.trlps.items then s
      else s.(trlps := s.trlps.Put(key, s.trlps.items[key].(managed := managed)))
    case DropAuthPolicy(key) => s.(auths := s.auths.Delete(key))
    case DropTokenPolicy(key) => s.(trlps := s.trlps.Delete(key))
    case ReportTokenPolicy(key, accepted) =>
      if key !in s.trlps.items then s
      else s.(trlps := s.trlps.Put(key, s.trlps.items[key].(accepted := accepted)))
    case _ => s
  }

  predicate ByController(a: Action) {
    a.ReconcilePolicy? || a.ReconcileSubscription? || a.ReconcileModel?
  }

  /** The action releases this policy's finalizer. */
  ghost predicate Releases(s: State, a: Action, p: string) {
    a == ReconcilePolicy(p) && p in s.policies && s.policies[p].deleting && s.policies[p].finalizer
  }

  ghost predicate Moves(s: State, a: Action, s': State)
    requires TokenLimits.WellNamed(s)
  {
    match a
    case ReconcilePolicy(p) => AuthPolicies.Reconciles(s, p, s')
    case ReconcileSubscription(n) => Subscriptions.Reconciles(s, n, s')
    case ReconcileModel(key) => ModelRefs.Reconciles(s, key, s')
    case ApplyPolicy(p, _, _, _) => LabelName(p) && s' == Edited(s, a)
    case ApplySubscription(n, _) => LabelName(n) && s' == Edited(s, a)
    case _ => s' == Edited(s, a)
  }

  ghost predicate Next(x: System, a: Action, x': System)
    requires TokenLimits.WellNamed(x.s)
  {
    && Moves(x.s, a, x'.s)
    && forall p :: p in x'.released <==> (p in x.released || Releases(x.s, a, p)) && !(a.ApplyPolicy? && a.policy == p)
  }

  ghost predicate Empty(x: System) {
    && LabelName(x.s.namespace) && x.s.policies == map[] && x.s.subscriptions == map[]
    && x.s.auths.items == map[] && x.s.trlps.items == map[] && x.released == {}
  }

  ghost predicate StepAt(systems: seq<System>, actions: seq<Action>, i: nat)
    requires |systems| == |actions| + 1 && i < |actions|
  {
    TokenLimits.WellNamed(systems[i].s) && Next(systems[i], actions[i], systems[i + 1])
  }

  /** `actions[i]` leads from `systems[i]` to `systems[i + 1]`. */
  ghost predicate Run(systems: seq<System>, actions: seq<Action>) {
    && |systems| == |actions| + 1 && Empty(systems[0])
    && forall i :: 0 <= i < |actions| ==> StepAt(systems, actions, i)
  }

  lemma StepOf(systems: seq<System>, actions: seq<Action>, i: nat)
    requires Run(systems, actions) && i < |actions|
    ensures TokenLimits.WellNamed(systems[i].s) && Next(systems[i], actions[i], systems[i + 1])
  {
    assert StepAt(systems, actions, i);
  }

  // ---- The invariant ----

  ghost predicate Anchor(s: State, a: AuthPolicy, p: string) {
    p in s.policies && s.policies[p].finalizer && AuthPolicies.Lists(a, p)
  }

  /** A never-opted-out AuthPolicy is managed, names an existing policy that still holds its finalizer (its last
      writer is one), and names no released policy. */
  ghost predicate Kept(s: State, released: set<string>, cur: Option<AuthPolicy>) {
    cur.Some? && !cur.value.optedOutOnce ==>
      && IsManaged(cur.value.managed)
      && (exists p :: Anchor(s, cur.value, p))
      && (forall p :: p in released ==> !AuthPolicies.Lists(cur.value, p))
  }

  ghost predicate Policies(s: State, released: set<string>) {
    && (forall p :: p in s.policies ==> ',' !in p && (s.policies[p].deleting ==> s.policies[p].finalizer))
    && (forall p :: p in released ==> p !in s.policies)
  }

  ghost predicate Inv(x: System) {
    && TokenLimits.WellNamed(x.s) && Policies(x.s, x.released)
    && forall key :: Kept(x.s, x.released, x.s.auths.Get(key))
  }

  lemma EmptyIsInv(x: System)
    requires Empty(x)
    ensures Inv(x)
  {
  }

  /** Only users create subscriptions and policies. */
  lemma ControllersCreateNone(s: State, a: Action, s': State)
    requires TokenLimits.WellNamed(s) && Moves(s, a, s') && ByController(a)
    ensures s'.namespace == s.namespace
    ensures s'.subscriptions.Keys <= s.subscriptions.Keys && s'.policies.Keys <= s.policies.Keys
    ensures !a.ReconcilePolicy? ==> s'.policies == s.policies
  {
    match a
    case ReconcilePolicy(p) =>
    case ReconcileSubscription(n) =>
    case ReconcileModel(key) =>
  }

  lemma NamesStep(x: System, a: Action, x': System)
    requires Inv(x) && Next(x, a, x')
    ensures TokenLimits.WellNamed(x'.s)
  {
    if ByController(a) {
      ControllersCreateNone(x.s, a, x'.s);
    } else {
      UsersCreateLabels(x.s, a, x'.s);
    }
  }

  lemma UsersCreateLabels(s: State, a: Action, s': State)
    requires TokenLimits.WellNamed(s) && Moves(s, a, s') && !ByController(a)
    ensures s'.namespace == s.namespace
    ensures forall n :: n in s'.subscriptions ==> n in s.subscriptions || LabelName(n)
  {
  }

  /** What one step can do to one MaaSAuthPolicy. */
  ghost predicate PolicyFate(s: State, a: Action, s': State, p: string) {
    && (p in s'.policies ==>
          if p in s.policies
          then (s.policies[p].finalizer ==> s'.policies[p].finalizer) &&
               (s'.policies[p].deleting ==> s.policies[p].deleting || s.policies[p].finalizer)
          else a.ApplyPolicy? && a.policy == p && ',' !in p && !s'.policies[p].deleting)
    && (p in s.policies && p !in s'.policies ==> Releases(s, a, p) || !s.policies[p].finalizer)
    && (Releases(s, a, p) ==> p !in s'.policies)
  }

  lemma PoliciesFate(s: State, a: Action, s': State, p: string)
    requires TokenLimits.WellNamed(s) && Moves(s, a, s')
    ensures PolicyFate(s, a, s', p)
  {
    if ByController(a) {
      ControllersCreateNone(s, a, s');
      if a.ReconcilePolicy? {
        assert s'.policies == AuthPolicies.PoliciesAfter(s, a.policy);
      }
    } else {
      EditedPolicies(s, a);
    }
  }

  lemma EditedPolicies(s: State, a: Action)
    ensures a.DeletePolicy? ==> Edited(s, a) == RemovePolicy(s, a.policy)
    ensures !a.ApplyPolicy? && !a.DeletePolicy? ==> Edited(s, a).policies == s.policies
  {
  }

  lemma PoliciesStep(x: System, a: Action, x': System)
    requires Inv(x) && Next(x, a, x')
    ensures Policies(x'.s, x'.released)
  {
    forall p ensures PolicyFate(x.s, a, x'.s, p) {
      PoliciesFate(x.s, a, x'.s, p);
    }
    forall p | p in x'.released ensures p !in x'.s.policies {
      assert PolicyFate(x.s, a, x'.s, p);
    }
    forall p | p in x'.s.policies
      ensures ',' !in p && (x'.s.policies[p].deleting ==> x'.s.policies[p].finalizer)
    {
      assert PolicyFate(x.s, a, x'.s, p);
    }
  }

  /** A policy that holds a finalizer outlives every step but its own release. */
  lemma AnchorStays(x: System, a: Action, x': System, auth: AuthPolicy, p: string)
    requires Inv(x) && Next(x, a, x') && Anchor(x.s, auth, p) && !Releases(x.s, a, p)
    ensures Anchor(x'.s, auth, p)
  {
    PoliciesFate(x.s, a, x'.s, p);
  }

  lemma PolicyStepKeeps(x: System, p: string, x': System, key: Key)
    requires Inv(x) && Next(x, ReconcilePolicy(p), x')
    ensures Kept(x'.s, x'.released, x'.s.auths.Get(key))
  {
    var cur, after := x.s.auths.Get(key), x'.s.auths.Get(key);
    assert Kept(x.s, x.released, cur);
    assert after == AuthPolicies.After(x.s, p, key);
    if after.Some? && !after.value.optedOutOnce {
      if after == cur {
        var q :| Anchor(x.s, cur.value, q);
        if !Releases(x.s, ReconcilePolicy(p), q) {
          AnchorStays(x, ReconcilePolicy(p), x', cur.value, q);
        }
      } else {
        var managed := after.value.managed;
        assert p in AuthPolicies.LiveParents(x.s, key) by {
          ReachedSubset(x.s, x.s.policies[p].refs);
        }
        assert after.value == AuthPolicies.Aggregate(x.s, key, managed, false);
        forall q ensures AuthPolicies.Lists(after.value, q) <==> q in AuthPolicies.LiveParents(x.s, key) {
          AuthConvergence.AggregateLists(x.s, key, managed, false, q);
        }
        assert Anchor(x'.s, after.value, p);
      }
    }
  }

  lemma {:induction false} ReachedSubset(s: State, refs: seq<Key>)
    ensures forall key :: key in AuthPolicies.Reached(s, refs) ==> key in refs
  {
    if refs != [] && !AuthPolicies.RefError(s, refs[0]) {
      ReachedSubset(s, refs[1..]);
    }
  }

  lemma OtherStepKeeps(x: System, a: Action, x': System, key: Key)
    requires Inv(x) && Next(x, a, x') && !a.ReconcilePolicy?
    ensures Kept(x'.s, x'.released, x'.s.auths.Get(key))
  {
    var cur, after := x.s.auths.Get(key), x'.s.auths.Get(key);
    assert Kept(x.s, x.released, cur);
    AuthFate(x.s, a, x'.s, key);
    if after.Some? && !after.value.optedOutOnce {
      var q :| Anchor(x.s, cur.value, q);
      AnchorStays(x, a, x', cur.value, q);
      assert Anchor(x'.s, after.value, q);
    }
  }

  /** Apart from the policy reconciler, only annotating changes a generated AuthPolicy in place. */
  lemma AuthFate(s: State, a: Action, s': State, key: Key)
    requires TokenLimits.WellNamed(s) && Moves(s, a, s') && !a.ReconcilePolicy?
    ensures s'.auths.Get(key).Some? ==>
            s.auths.Get(key).Some? &&
            var before, after := s.auths.Get(key).value, s'.auths.Get(key).value;
            && after.contributors == before.contributors
            && (after == before || (after.optedOutOnce == (before.optedOutOnce || !IsManaged(after.managed))))
  {
    match a
    case ReconcileSubscription(n) =>
    case ReconcileModel(k) =>
    case _ =>
  }

  lemma InvStep(x: System, a: Action, x': System)
    requires Inv(x) && Next(x, a, x')
    ensures Inv(x')
  {
    NamesStep(x, a, x');
    PoliciesStep(x, a, x');
    forall key ensures Kept(x'.s, x'.released, x'.s.auths.Get(key)) {
      if a.ReconcilePolicy? {
        PolicyStepKeeps(x, a.policy, x', key);
      } else {
        OtherStepKeeps(x, a, x', key);
      }
    }
  }

  lemma {:induction false} InvHolds(systems: seq<System>, actions: seq<Action>, n: nat)
    requires Run(systems, actions) && n <= |actions|
    ensures Inv(systems[n])
  {
    if n == 0 {
      EmptyIsInv(systems[0]);
    } else {
      InvHolds(systems, actions, n - 1);
      StepOf(systems, actions, n - 1);
      InvStep(systems[n - 1], actions[n - 1], systems[n]);
    }
  }

  // ---- What follows for every run ----

  /** No orphans: in every reachable state, every never-opted-out generated AuthPolicy names an existing policy. */
  lemma NoOrphans(systems: seq<System>, actions: seq<Action>, n: nat, key: Key)
    requires Run(systems, actions) && n <= |actions| && key in systems[n].s.auths.items
    requires !systems[n].s.auths.items[key].optedOutOnce
    ensures exists p :: p in systems[n].s.policies && AuthPolicies.Lists(systems[n].s.auths.items[key], p)
  {
    InvHolds(systems, actions, n);
    assert Kept(systems[n].s, systems[n].released, systems[n].s.auths.Get(key));
    var p :| Anchor(systems[n].s, systems[n].s.auths.items[key], p);
  }

  lemma {:induction false} ReleasedStays(systems: seq<System>, actions: seq<Action>, i: nat, j: nat, p: string)
    requires Run(systems, actions) && i < j <= |actions| && Releases(systems[i].s, actions[i], p)
    requires forall k :: i < k < j ==> !(actions[k].ApplyPolicy? && actions[k].policy == p)
    ensures p in systems[j].released
  {
    StepOf(systems, actions, j - 1);
    if i < j - 1 {
      ReleasedStays(systems, actions, i, j - 1, p);
    }
  }

  /** Once its finalizer is released, a policy is named by no never-opted-out AuthPolicy, until a policy of that
      name is created again. */
  lemma NeverOptedOutIsNotStale(systems: seq<System>, actions: seq<Action>, i: nat, j: nat, p: string, key: Key)
    requires Run(systems, actions) && i < j <= |actions| && Releases(systems[i].s, actions[i], p)
    requires forall k :: i < k < j ==> !(actions[k].ApplyPolicy? && actions[k].policy == p)
    requires key in systems[j].s.auths.items && !systems[j].s.auths.items[key].optedOutOnce
    ensures !AuthPolicies.Lists(systems[j].s.auths.items[key], p)
  {
    ReleasedStays(systems, actions, i, j, p);
    InvHolds(systems, actions, j);
    assert Kept(systems[j].s, systems[j].released, systems[j].s.auths.Get(key));
  }

  /** The generated AuthPolicy of `key` names `p`. */
  ghost predicate Names(s: State, key: Key, p: string) {
    s.auths.Get(key).Some? && AuthPolicies.Lists(s.auths.Get(key).value, p)
  }

  ghost predicate OptedOut(s: State, key: Key) {
    s.auths.Get(key).Some? && s.auths.Get(key).value.managed == Some("false")
  }

  /** Exactly which AuthPolicies still name a policy right after its release: those that named it and are opted
      out at that moment. */
  lemma ReleaseExactly(s: State, p: string, s': State, key: Key)
    requires Releases(s, ReconcilePolicy(p), p) && AuthPolicies.Reconciles(s, p, s')
    ensures Names(s', key, p) <==> Names(s, key, p) && OptedOut(s, key)
  {
    assert s'.auths.Get(key) == AuthPolicies.After(s, p, key);
  }

  /** No step adds the name of a policy that does not exist. */
  lemma NamesNoOneNew(x: System, a: Action, x': System, key: Key, p: string)
    requires Inv(x) && Next(x, a, x') && p !in x.s.policies && !Names(x.s, key, p)
    ensures !Names(x'.s, key, p)
  {
    if a.ReconcilePolicy? {
      var after := AuthPolicies.After(x.s, a.policy, key);
      assert x'.s.auths.Get(key) == after;
      if after.Some? && after != x.s.auths.Get(key) {
        ReachedSubset(x.s, x.s.policies[a.policy].refs);
        assert a.policy in AuthPolicies.LiveParents(x.s, key);
        AuthConvergence.AggregateLists(x.s, key, after.value.managed, after.value.optedOutOnce, p);
      }
    } else {
      AuthFate(x.s, a, x'.s, key);
    }
  }

  lemma UnnamedStep(x: System, a: Action, x': System, key: Key, p: string)
    requires Inv(x) && Next(x, a, x') && !(a.ApplyPolicy? && a.policy == p)
    requires p !in x.s.policies && !Names(x.s, key, p)
    ensures p !in x'.s.policies && !Names(x'.s, key, p)
  {
    NamesNoOneNew(x, a, x', key, p);
    PoliciesFate(x.s, a, x'.s, p);
  }

  lemma UnnamedAt(systems: seq<System>, actions: seq<Action>, i: nat, p: string, key: Key)
    requires Run(systems, actions) && i < |actions| && !(actions[i].ApplyPolicy? && actions[i].policy == p)
    requires p !in systems[i].s.policies && !Names(systems[i].s, key, p)
    ensures p !in systems[i + 1].s.policies && !Names(systems[i + 1].s, key, p)
  {
    InvHolds(systems, actions, i);
    StepOf(systems, actions, i);
    UnnamedStep(systems[i], actions[i], systems[i + 1], key, p);
  }

  lemma {:induction false} StaysUnnamed(systems: seq<System>, actions: seq<Action>, i: nat, j: nat, p: string, key: Key)
    requires Run(systems, actions) && i <= j <= |actions|
    requires forall k :: i <= k < j ==> !(actions[k].ApplyPolicy? && actions[k].policy == p)
    requires p !in systems[i].s.policies && !Names(systems[i].s, key, p)
    ensures p !in systems[j].s.policies && !Names(systems[j].s, key, p)
  {
    if i < j {
      StaysUnnamed(systems, actions, i, j - 1, p, key);
      UnnamedAt(systems, actions, j - 1, p, key);
    }
  }

  /** No stale contributor, exactly, over every run: after the finalizer of `p` is released, and until a policy of
      that name is created again, no state ever has an AuthPolicy of `key` that names `p`, managed or not, if and
      only if none that named it was opted out at the moment of the release. */
  lemma NoStaleContributor(systems: seq<System>, actions: seq<Action>, i: nat, p: string, key: Key)
    requires Run(systems, actions) && i < |actions| && Releases(systems[i].s, actions[i], p)
    requires forall k :: i < k < |actions| ==> !(actions[k].ApplyPolicy? && actions[k].policy == p)
    ensures (forall j :: i < j <= |actions| ==> !Names(systems[j].s, key, p)) <==>
            !(Names(systems[i].s, key, p) && OptedOut(systems[i].s, key))
  {
    StepOf(systems, actions, i);
    ReleaseExactly(systems[i].s, p, systems[i + 1].s, key);
    if !Names(systems[i + 1].s, key, p) {
      forall j | i < j <= |actions| ensures !Names(systems[j].s, key, p) {
        StaysUnnamed(systems, actions, i + 1, j, p, key);
      }
    }
  }

  /** The exception is real: an AuthPolicy opted out while its last parent is released, and opted in again, is a
      managed one that names the released policy. */
  lemma OptingBackInIsStale(x: System, p: string, key: Key, x1: System, x2: System)
    requires Inv(x) && Releases(x.s, ReconcilePolicy(p), p) && Names(x.s, key, p) && OptedOut(x.s, key)
    requires Next(x, ReconcilePolicy(p), x1) && TokenLimits.WellNamed(x1.s)
    requires Next(x1, AnnotateAuthPolicy(key, None), x2)
    ensures Names(x2.s, key, p) && !OptedOut(x2.s, key) && p in x2.released && p !in x2.s.policies
  {
    assert x1.s.auths.Get(key) == AuthPolicies.After(x.s, p, key);
    InvStep(x, ReconcilePolicy(p), x1);
    InvStep(x1, AnnotateAuthPolicy(key, None), x2);
  }

  /** Every reachable state in which nothing is opted out is steady; if nothing ever was, it is anchored too. */
  lemma ReachableIsSteady(systems: seq<System>, actions: seq<Action>, n: nat)
    requires Run(systems, actions) && n <= |actions| && forall key :: !OptedOut(systems[n].s, key)
    ensures AuthConvergence.Steady(systems[n].s)
    ensures (forall key :: key in systems[n].s.auths.items ==> !systems[n].s.auths.items[key].optedOutOnce) ==>
            AuthConvergence.Anchored(systems[n].s)
  {
    InvHolds(systems, actions, n);
    var s := systems[n].s;
    forall key | s.auths.Get(key).Some? ensures IsManaged(s.auths.Get(key).value.managed) {
      assert !OptedOut(s, key);
    }
    forall key | key in s.auths.items && !s.auths.items[key].optedOutOnce
      ensures exists p :: p in s.policies && AuthPolicies.Lists(s.auths.items[key], p)
    {
      assert Kept(s, systems[n].released, s.auths.Get(key));
      var p :| Anchor(s, s.auths.items[key], p);
    }
  }

  /** Convergence from every reachable state in which nothing is opted out, whatever the run did before: two rounds
      without errors reach the union of the live policies on every served model. Where no live policy is left the
      object goes, unless all it names is gone and no policy being deleted references the model. */
  lemma RunsConverge(
      systems: seq<System>, actions: seq<Action>, n: nat,
      states1: seq<State>, order1: seq<string>, states2: seq<State>, order2: seq<string>, key: Key)
    requires Run(systems, actions) && n <= |actions| && states1 != [] && states1[0] == systems[n].s
    requires forall k :: !OptedOut(systems[n].s, k)
    requires AuthConvergence.TwoRounds(states1, order1, states2, order2) && AuthConvergence.ErrorFree(states1[0])
    ensures var s0, s := systems[n].s, states2[|order2|];
            && (AuthPolicies.LiveParents(s0, key) != {} && Resolve(s0, key).Route? ==>
                  key in s.auths.items && AuthConvergence.IsUnion(s0, key, s.auths.items[key]))
            && (AuthPolicies.LiveParents(s0, key) != {} && Resolve(s0, key).ModelMissing? ==> key !in s.auths.items)
            && (AuthPolicies.LiveParents(s0, key) == {} ==>
                  (key !in s.auths.items <==> key !in s0.auths.items || AuthConvergence.Claimed(s0, key)))
  {
    ReachableIsSteady(systems, actions, n);
    AuthConvergence.ErrorFreeConvergence(states1, order1, states2, order2, key);
  }

  // ---- Opting out ----

  /** No controller step touches a generated policy that is annotated managed=false. */
  lemma OptedOutIsUntouched(s: State, a: Action, s': State, key: Key)
    requires TokenLimits.WellNamed(s) && ByController(a) && Moves(s, a, s')
    ensures OptedOut(s, key) ==> s'.auths.Get(key) == s.auths.Get(key)
    ensures OptedOutToken(s, key) ==> s'.trlps.Get(key) == s.trlps.Get(key)
  {
    match a
    case ReconcilePolicy(p) =>
      assert s'.auths.Get(key) == AuthPolicies.After(s, p, key);
    case ReconcileSubscription(n) =>
      if s.trlps.Get(key).Some? && !IsManaged(s.trlps.Get(key).value.managed) {
        SubscriptionFrame(s, n, s', key);
      }
    case ReconcileModel(k) =>
  }

  lemma SubscriptionFrame(s: State, n: string, s': State, key: Key)
    requires TokenLimits.WellNamed(s) && Subscriptions.Reconciles(s, n, s')
    requires s.trlps.Get(key).Some? && !IsManaged(s.trlps.Get(key).value.managed)
    ensures s'.trlps.Get(key) == s.trlps.Get(key)
  {
    if n in s.subscriptions {
      var sub := s.subscriptions[n];
      var keys := TokenLimits.RefKeys(sub.refs);
      if sub.deleting && sub.finalizer {
        assert s'.trlps.Get(key) == TokenLimits.AfterPass(s, n, keys, key);
      } else if !sub.deleting {
        if Subscriptions.HasValidModels(s, keys) {
          assert s'.trlps.Get(key) == TokenLimits.AfterPass(s, n, keys, key);
        } else {
          assert s'.trlps.Get(key) == Subscriptions.Cleaned(s.trlps.Get(key), key, n, keys);
        }
      }
    }
  }

  /** The user annotates or deletes this object. */
  predicate HandlesAuthPolicy(a: Action, key: Key) {
    (a.AnnotateAuthPolicy? || a.DropAuthPolicy?) && a.key == key
  }

  predicate HandlesTokenPolicy(a: Action, key: Key) {
    (a.AnnotateTokenPolicy? || a.DropTokenPolicy?) && a.key == key
  }

  /** A TokenRateLimitPolicy without the status its own controller reports. */
  function SpecOf(t: TokenPolicy): TokenPolicy {
    t.(accepted := false)
  }

  ghost predicate KeepsTokenSpec(s: State, s': State, key: Key) {
    s.trlps.Get(key).Some? ==>
      s'.trlps.Get(key).Some? && SpecOf(s'.trlps.Get(key).value) == SpecOf(s.trlps.Get(key).value)
  }

  lemma UserFrame(s: State, a: Action, key: Key)
    requires !ByController(a)
    ensures !HandlesAuthPolicy(a, key) ==> Edited(s, a).auths.Get(key) == s.auths.Get(key)
    ensures !HandlesTokenPolicy(a, key) ==> KeepsTokenSpec(s, Edited(s, a), key)
  {
  }

  ghost predicate OptedOutToken(s: State, key: Key) {
    s.trlps.Get(key).Some? && s.trlps.Get(key).value.managed == Some("false")
  }

  /** Over every stretch of every run, an opted-out AuthPolicy stays as it is until a user annotates or deletes that
      very object, whatever the controllers do and whatever else the users do. */
  lemma {:induction false} OptOutFrame(systems: seq<System>, actions: seq<Action>, i: nat, j: nat, key: Key)
    requires Run(systems, actions) && i <= j <= |actions| && OptedOut(systems[i].s, key)
    requires forall k :: i <= k < j ==> !HandlesAuthPolicy(actions[k], key)
    ensures systems[j].s.auths.Get(key) == systems[i].s.auths.Get(key)
  {
    if i < j {
      OptOutFrame(systems, actions, i, j - 1, key);
      var s, a, s' := systems[j - 1].s, actions[j - 1], systems[j].s;
      StepOf(systems, actions, j - 1);
      if ByController(a) {
        OptedOutIsUntouched(s, a, s', key);
      } else {
        UserFrame(s, a, key);
      }
    }
  }

  /** The same for TokenRateLimitPolicies, up to the acceptance reported in their status. */
  lemma {:induction false} TokenOptOutFrame(systems: seq<System>, actions: seq<Action>, i: nat, j: nat, key: Key)
    requires Run(systems, actions) && i <= j <= |actions| && OptedOutToken(systems[i].s, key)
    requires forall k :: i <= k < j ==> !HandlesTokenPolicy(actions[k], key)
    ensures KeepsTokenSpec(systems[i].s, systems[j].s, key) && OptedOutToken(systems[j].s, key)
  {
    if i < j {
      TokenOptOutFrame(systems, actions, i, j - 1, key);
      var s, a, s' := systems[j - 1].s, actions[j - 1], systems[j].s;
      StepOf(systems, actions, j - 1);
      if ByController(a) {
        OptedOutIsUntouched(s, a, s', key);
      } else {
        UserFrame(s, a, key);
      }
      assert SpecOf(s'.trlps.Get(key).value).managed == SpecOf(s.trlps.Get(key).value).managed;
    }
  }
}
