/** What deletions leave behind, over every run: which generated objects still name a subscription that is gone,
    which remain of a finalized model, and a run that reaches the one stale AuthPolicy there can be. */
module Releases {
  import opened Strings
  import opened Cluster
  import opened ControlPlane
  import AuthPolicies
  import AuthConvergence
  import TokenLimits
  import Subscriptions
  import TokenConvergence
  import ModelRefs

  // ---- TokenRateLimitPolicies and the subscriptions they name ----

  /** The generated TokenRateLimitPolicy of `key` names `n`. */
  ghost predicate TokenNames(s: State, key: Key, n: string) {
    s.trlps.Get(key).Some? && TokenLimits.Lists(s.trlps.Get(key).value, n)
  }

  /** The action releases this subscription's finalizer. */
  ghost predicate ReleasesSub(s: State, a: Action, n: string) {
    && a == ReconcileSubscription(n) && n in s.subscriptions
    && s.subscriptions[n].deleting && s.subscriptions[n].finalizer
    && Subscriptions.Complete(s, TokenLimits.RefKeys(s.subscriptions[n].refs))
  }

  /** The object at `key` escapes the release of `n`: it is opted out, or the route of a model that others still
      reference is missing, in which case the reconciler skips the model. */
  ghost predicate Escapes(s: State, n: string, key: Key)
    requires n in s.subscriptions
  {
    || OptedOutToken(s, key)
    || (key in TokenLimits.RefKeys(s.subscriptions[n].refs) && Resolve(s, key).RouteMissing? &&
        TokenLimits.LiveSubs(s, key) != {})
  }

  lemma AggregateNames(s: State, key: Key, managed: Option<string>, accepted: bool, n: string)
    requires TokenLimits.WellNamed(s) && Resolve(s, key).Route? && TokenLimits.EffectiveSubs(s, key) != {}
    ensures TokenLimits.Lists(TokenLimits.Aggregate(s, key, managed, accepted), n) <==>
            n in TokenLimits.EffectiveSubs(s, key)
  {
    TokenLimits.ExactContributors(s, key);
  }

  /** Exactly which TokenRateLimitPolicies still name a subscription right after its release. */
  lemma TokenReleaseExactly(s: State, n: string, s': State, key: Key)
    requires TokenLimits.WellNamed(s) && ReleasesSub(s, ReconcileSubscription(n), n)
    requires Subscriptions.Reconciles(s, n, s')
    ensures n !in s'.subscriptions
    ensures TokenNames(s', key, n) <==> TokenNames(s, key, n) && Escapes(s, n, key)
  {
    var keys := TokenLimits.RefKeys(s.subscriptions[n].refs);
    var cur, after := s.trlps.Get(key), s'.trlps.Get(key);
    assert after == TokenLimits.AfterPass(s, n, keys, key);
    if key in keys {
      TokenLimits.ReachedMembers(s, keys, key);
      if Resolve(s, key).Route? && !OptedOutToken(s, key) && after.Some? {
        AggregateNames(s, key, after.value.managed, after.value.accepted, n);
      }
    }
  }

  /** Apart from the subscription reconciler, nothing names anyone new. */
  lemma OtherTokenFate(s: State, a: Action, s': State, key: Key)
    requires TokenLimits.WellNamed(s) && Moves(s, a, s') && !a.ReconcileSubscription?
    ensures s'.trlps.Get(key).Some? ==>
            s.trlps.Get(key).Some? &&
            s'.trlps.Get(key).value.contributors == s.trlps.Get(key).value.contributors &&
            s'.trlps.Get(key).value.owner == s.trlps.Get(key).value.owner &&
            s'.trlps.Get(key).value.route == s.trlps.Get(key).value.route
  {
    if a.ReconcileModel? {
      assert s'.trlps.Get(key) == s.trlps.Get(key) || s'.trlps.Get(key).None?;
    } else if !a.ReconcilePolicy? {
      EditedTokens(s, a, key);
    }
  }

  lemma EditedTokens(s: State, a: Action, key: Key)
    requires !ByController(a)
    ensures !a.AnnotateTokenPolicy? && !a.DropTokenPolicy? && !a.ReportTokenPolicy? ==> Edited(s, a).trlps == s.trlps
    ensures a.DropTokenPolicy? ==> Edited(s, a).trlps == s.trlps.Delete(a.key)
    ensures a.AnnotateTokenPolicy? || a.ReportTokenPolicy? ==>
            (Edited(s, a).trlps.Get(key).Some? <==> s.trlps.Get(key).Some?) &&
            (s.trlps.Get(key).Some? ==>
               var t, t' := s.trlps.Get(key).value, Edited(s, a).trlps.Get(key).value;
               t' == t.(managed := t'.managed, accepted := t'.accepted))
  {
  }

  /** A step names only those it named before and live subscriptions. */
  lemma TokenNamesStep(s: State, a: Action, s': State, key: Key, n: string)
    requires TokenLimits.WellNamed(s) && Moves(s, a, s') && TokenNames(s', key, n)
    ensures TokenNames(s, key, n) ||
            (a.ReconcileSubscription? && n in s.subscriptions && !s.subscriptions[n].deleting)
  {
    if a.ReconcileSubscription? {
      var after := s'.trlps.Get(key);
      Subscriptions.TokenFateOf(s, a.subscription, s', key);
      if after != s.trlps.Get(key) {
        AggregateNames(s, key, after.value.managed, after.value.accepted, n);
      }
    } else {
      OtherTokenFate(s, a, s', key);
    }
  }

  /** What one step can do to one subscription's existence. */
  lemma SubscriptionStep(s: State, a: Action, s': State, n: string)
    requires TokenLimits.WellNamed(s) && Moves(s, a, s')
    ensures n in s'.subscriptions && n !in s.subscriptions ==> a.ApplySubscription? && a.subscription == n
    ensures n in s.subscriptions && n !in s'.subscriptions <==>
            ReleasesSub(s, a, n) || (a == DeleteSubscription(n) && n in s.subscriptions &&
                                     !s.subscriptions[n].finalizer)
  {
    if a.ReconcileSubscription? {
      SubscriptionGone(s, a.subscription, s');
    } else if ByController(a) {
      ControllersKeepSubscriptions(s, a, s');
    } else {
      EditedSubscriptions(s, a);
    }
  }

  lemma SubscriptionGone(s: State, m: string, s': State)
    requires TokenLimits.WellNamed(s) && Subscriptions.Reconciles(s, m, s')
    ensures s'.subscriptions.Keys ==
            s.subscriptions.Keys - if ReleasesSub(s, ReconcileSubscription(m), m) then {m} else {}
  {
  }

  lemma ControllersKeepSubscriptions(s: State, a: Action, s': State)
    requires TokenLimits.WellNamed(s) && Moves(s, a, s') && (a.ReconcilePolicy? || a.ReconcileModel?)
    ensures s'.subscriptions == s.subscriptions
  {
  }

  lemma EditedSubscriptions(s: State, a: Action)
    ensures a.DeleteSubscription? ==> Edited(s, a) == RemoveSubscription(s, a.subscription)
    ensures !a.ApplySubscription? && !a.DeleteSubscription? ==> Edited(s, a).subscriptions == s.subscriptions
  {
  }

  lemma {:induction false} StaysTokenUnnamed(
      systems: seq<System>, actions: seq<Action>, i: nat, j: nat, n: string, key: Key)
    requires Run(systems, actions) && i <= j <= |actions|
    requires n !in systems[i].s.subscriptions && !TokenNames(systems[i].s, key, n)
    requires forall k :: i <= k < j ==> !(actions[k].ApplySubscription? && actions[k].subscription == n)
    ensures n !in systems[j].s.subscriptions && !TokenNames(systems[j].s, key, n)
  {
    if i < j {
      StaysTokenUnnamed(systems, actions, i, j - 1, n, key);
      StepOf(systems, actions, j - 1);
      TokenUnnamedStep(systems[j - 1].s, actions[j - 1], systems[j].s, n, key);
    }
  }

  lemma TokenUnnamedStep(s: State, a: Action, s': State, n: string, key: Key)
    requires TokenLimits.WellNamed(s) && Moves(s, a, s') && !(a.ApplySubscription? && a.subscription == n)
    requires n !in s.subscriptions && !TokenNames(s, key, n)
    ensures n !in s'.subscriptions && !TokenNames(s', key, n)
  {
    SubscriptionStep(s, a, s', n);
    if TokenNames(s', key, n) {
      TokenNamesStep(s, a, s', key, n);
    }
  }

  /** No stale contributor, exactly, over every run: after the finalizer of `n` is released, and until a subscription
      of that name is created again, no state has a TokenRateLimitPolicy of `key` that names `n` if and only if none
      that named it escaped the release. */
  lemma NoStaleSubscription(systems: seq<System>, actions: seq<Action>, i: nat, n: string, key: Key)
    requires Run(systems, actions) && i < |actions| && ReleasesSub(systems[i].s, actions[i], n)
    requires forall k :: i < k < |actions| ==> !(actions[k].ApplySubscription? && actions[k].subscription == n)
    ensures (forall j :: i < j <= |actions| ==> !TokenNames(systems[j].s, key, n)) <==>
            !(TokenNames(systems[i].s, key, n) && Escapes(systems[i].s, n, key))
  {
    StepOf(systems, actions, i);
    TokenReleaseExactly(systems[i].s, n, systems[i + 1].s, key);
    if !TokenNames(systems[i + 1].s, key, n) {
      forall j | i < j <= |actions| ensures !TokenNames(systems[j].s, key, n) {
        StaysTokenUnnamed(systems, actions, i + 1, j, n, key);
      }
    }
  }

  // ---- Orphans ----

  /** Every subscription a TokenRateLimitPolicy names exists. */
  ghost predicate AllExist(s: State) {
    forall key, n :: TokenNames(s, key, n) ==> n in s.subscriptions
  }

  /** The step takes away a subscription that some policy goes on naming: one deleted before its first reconcile, or
      one released while the policy escapes. */
  ghost predicate AbandonsAt(s: State, a: Action, key: Key, n: string) {
    && TokenNames(s, key, n) && n in s.subscriptions
    && ((a == DeleteSubscription(n) && !s.subscriptions[n].finalizer) || (ReleasesSub(s, a, n) && Escapes(s, n, key)))
  }

  ghost predicate Abandons(s: State, a: Action) {
    exists key, n :: AbandonsAt(s, a, key, n)
  }

  lemma AbandonedStep(s: State, a: Action, s': State, key: Key, n: string)
    requires TokenLimits.WellNamed(s) && Moves(s, a, s') && AbandonsAt(s, a, key, n)
    ensures TokenNames(s', key, n) && n !in s'.subscriptions
  {
    SubscriptionStep(s, a, s', n);
    if a.ReconcileSubscription? {
      TokenReleaseExactly(s, n, s', key);
    } else {
      assert s' == RemoveSubscription(s, n);
    }
  }

  lemma Abandoned(s: State, a: Action, s': State, key: Key, n: string)
    requires TokenLimits.WellNamed(s) && Moves(s, a, s') && AllExist(s)
    requires TokenNames(s', key, n) && n !in s'.subscriptions
    ensures AbandonsAt(s, a, key, n)
  {
    TokenNamesStep(s, a, s', key, n);
    SubscriptionStep(s, a, s', n);
    if ReleasesSub(s, a, n) {
      TokenReleaseExactly(s, n, s', key);
    }
  }

  lemma AllExistStep(s: State, a: Action, s': State)
    requires TokenLimits.WellNamed(s) && Moves(s, a, s') && AllExist(s)
    ensures AllExist(s') <==> !Abandons(s, a)
  {
    if key, n :| AbandonsAt(s, a, key, n) {
      AbandonedStep(s, a, s', key, n);
    } else {
      forall key, n | TokenNames(s', key, n) ensures n in s'.subscriptions {
        if n !in s'.subscriptions {
          Abandoned(s, a, s', key, n);
        }
      }
    }
  }

  lemma {:induction false} AllExistPrefix(systems: seq<System>, actions: seq<Action>, n: nat)
    requires Run(systems, actions) && n <= |actions|
    requires forall i :: 0 <= i < n ==> !Abandons(systems[i].s, actions[i])
    ensures AllExist(systems[n].s)
  {
    if n > 0 {
      AllExistPrefix(systems, actions, n - 1);
      StepOf(systems, actions, n - 1);
      AllExistStep(systems[n - 1].s, actions[n - 1], systems[n].s);
    }
  }

  /** Over every run: all subscriptions named by TokenRateLimitPolicies exist in all states if and only if no step
      abandons one. */
  lemma AllExistIff(systems: seq<System>, actions: seq<Action>)
    requires Run(systems, actions)
    ensures (forall j :: 0 <= j <= |actions| ==> AllExist(systems[j].s)) <==>
            (forall i :: 0 <= i < |actions| ==> !Abandons(systems[i].s, actions[i]))
  {
    if forall j :: 0 <= j <= |actions| ==> AllExist(systems[j].s) {
      forall i | 0 <= i < |actions| ensures !Abandons(systems[i].s, actions[i]) {
        StepOf(systems, actions, i);
        assert AllExist(systems[i].s) && AllExist(systems[i + 1].s);
        AllExistStep(systems[i].s, actions[i], systems[i + 1].s);
      }
    }
    if forall i :: 0 <= i < |actions| ==> !Abandons(systems[i].s, actions[i]) {
      forall j | 0 <= j <= |actions| ensures AllExist(systems[j].s) {
        AllExistPrefix(systems, actions, j);
      }
    }
  }

  /** In such a run no TokenRateLimitPolicy is ever an orphan. */
  lemma NoTokenOrphans(systems: seq<System>, actions: seq<Action>, j: nat, key: Key)
    requires Run(systems, actions) && j <= |actions| && key in systems[j].s.trlps.items
    requires forall i :: 0 <= i < j ==> !Abandons(systems[i].s, actions[i])
    ensures exists n :: n in systems[j].s.subscriptions && TokenNames(systems[j].s, key, n)
  {
    AllExistPrefix(systems, actions, j);
    var n := Split(systems[j].s.trlps.items[key].contributors, ',')[0];
    assert TokenNames(systems[j].s, key, n);
  }

  // ---- The same for AuthPolicies and the policies they name ----

  /** Every policy an AuthPolicy names exists. */
  ghost predicate AllPoliciesExist(s: State) {
    forall key, p :: Names(s, key, p) ==> p in s.policies
  }

  /** The step takes away a policy that some AuthPolicy goes on naming: one deleted before its first reconcile, or one
      released while the AuthPolicy is opted out. */
  ghost predicate AbandonsPolicyAt(s: State, a: Action, key: Key, p: string) {
    && Names(s, key, p) && p in s.policies
    && ((a == DeletePolicy(p) && !s.policies[p].finalizer) || (ControlPlane.Releases(s, a, p) && OptedOut(s, key)))
  }

  ghost predicate AbandonsPolicy(s: State, a: Action) {
    exists key, p :: AbandonsPolicyAt(s, a, key, p)
  }

  /** What one step can do to one policy's existence. */
  lemma PolicyStep(s: State, a: Action, s': State, p: string)
    requires TokenLimits.WellNamed(s) && Moves(s, a, s')
    ensures p in s.policies && p !in s'.policies <==>
            ControlPlane.Releases(s, a, p) || (a == DeletePolicy(p) && p in s.policies && !s.policies[p].finalizer)
  {
    PoliciesFate(s, a, s', p);
    if a.ReconcilePolicy? {
      assert s'.policies == AuthPolicies.PoliciesAfter(s, a.policy);
    } else if ByController(a) {
      ControllersCreateNone(s, a, s');
    } else {
      EditedPolicies(s, a);
    }
  }

  /** A step names only those it named before and live policies. */
  lemma AuthNamesStep(x: System, a: Action, x': System, key: Key, p: string)
    requires Inv(x) && Next(x, a, x') && Names(x'.s, key, p)
    ensures Names(x.s, key, p) || (a.ReconcilePolicy? && p in x.s.policies && !x.s.policies[p].deleting)
  {
    if a.ReconcilePolicy? {
      var after := AuthPolicies.After(x.s, a.policy, key);
      assert x'.s.auths.Get(key) == after;
      if after != x.s.auths.Get(key) {
        ReachedSubset(x.s, x.s.policies[a.policy].refs);
        assert a.policy in AuthPolicies.LiveParents(x.s, key);
        AuthConvergence.AggregateLists(x.s, key, after.value.managed, after.value.optedOutOnce, p);
      }
    } else {
      AuthFate(x.s, a, x'.s, key);
    }
  }

  lemma PolicyAbandoned(x: System, a: Action, x': System, key: Key, p: string)
    requires Inv(x) && Next(x, a, x') && AllPoliciesExist(x.s) && Names(x'.s, key, p) && p !in x'.s.policies
    ensures AbandonsPolicyAt(x.s, a, key, p)
  {
    AuthNamesStep(x, a, x', key, p);
    PolicyStep(x.s, a, x'.s, p);
    if ControlPlane.Releases(x.s, a, p) {
      ReleaseExactly(x.s, p, x'.s, key);
    }
  }

  lemma AbandonedPolicyStep(x: System, a: Action, x': System, key: Key, p: string)
    requires Inv(x) && Next(x, a, x') && AbandonsPolicyAt(x.s, a, key, p)
    ensures Names(x'.s, key, p) && p !in x'.s.policies
  {
    PolicyStep(x.s, a, x'.s, p);
    if a.ReconcilePolicy? {
      ReleaseExactly(x.s, p, x'.s, key);
    } else {
      EditedPolicies(x.s, a);
    }
  }

  lemma AllPoliciesExistStep(x: System, a: Action, x': System)
    requires Inv(x) && Next(x, a, x') && AllPoliciesExist(x.s)
    ensures AllPoliciesExist(x'.s) <==> !AbandonsPolicy(x.s, a)
  {
    if key, p :| AbandonsPolicyAt(x.s, a, key, p) {
      AbandonedPolicyStep(x, a, x', key, p);
    } else {
      forall key, p | Names(x'.s, key, p) ensures p in x'.s.policies {
        if p !in x'.s.policies {
          PolicyAbandoned(x, a, x', key, p);
        }
      }
    }
  }

  lemma PolicyExistAt(systems: seq<System>, actions: seq<Action>, i: nat)
    requires Run(systems, actions) && i < |actions| && AllPoliciesExist(systems[i].s)
    ensures AllPoliciesExist(systems[i + 1].s) <==> !AbandonsPolicy(systems[i].s, actions[i])
  {
    InvHolds(systems, actions, i);
    StepOf(systems, actions, i);
    AllPoliciesExistStep(systems[i], actions[i], systems[i + 1]);
  }

  lemma {:induction false} AllPoliciesExistPrefix(systems: seq<System>, actions: seq<Action>, n: nat)
    requires Run(systems, actions) && n <= |actions|
    requires forall i :: 0 <= i < n ==> !AbandonsPolicy(systems[i].s, actions[i])
    ensures AllPoliciesExist(systems[n].s)
  {
    if n > 0 {
      AllPoliciesExistPrefix(systems, actions, n - 1);
      PolicyExistAt(systems, actions, n - 1);
    }
  }

  /** Over every run: all policies named by AuthPolicies exist in all states if and only if no step abandons one. */
  lemma AllPoliciesExistIff(systems: seq<System>, actions: seq<Action>)
    requires Run(systems, actions)
    ensures (forall j :: 0 <= j <= |actions| ==> AllPoliciesExist(systems[j].s)) <==>
            (forall i :: 0 <= i < |actions| ==> !AbandonsPolicy(systems[i].s, actions[i]))
  {
    if forall j :: 0 <= j <= |actions| ==> AllPoliciesExist(systems[j].s) {
      forall i | 0 <= i < |actions| ensures !AbandonsPolicy(systems[i].s, actions[i]) {
        assert AllPoliciesExist(systems[i].s) && AllPoliciesExist(systems[i + 1].s);
        PolicyExistAt(systems, actions, i);
      }
    }
    if forall i :: 0 <= i < |actions| ==> !AbandonsPolicy(systems[i].s, actions[i]) {
      forall j | 0 <= j <= |actions| ensures AllPoliciesExist(systems[j].s) {
        AllPoliciesExistPrefix(systems, actions, j);
      }
    }
  }

  // ---- Convergence of TokenRateLimitPolicies from every reachable state ----

  /** Deletion of a subscription waits for the finalizer. */
  ghost predicate Waits(s: State, n: string) {
    n in s.subscriptions && s.subscriptions[n].deleting ==> s.subscriptions[n].finalizer
  }

  lemma WaitsStep(s: State, a: Action, s': State, n: string)
    requires TokenLimits.WellNamed(s) && Moves(s, a, s') && Waits(s, n)
    ensures Waits(s', n)
  {
    if a.ReconcilePolicy? || a.ReconcileModel? {
      ControllersKeepSubscriptions(s, a, s');
    } else if !a.ReconcileSubscription? {
      EditedSubscriptions(s, a);
    }
  }

  lemma {:induction false} AllWait(systems: seq<System>, actions: seq<Action>, j: nat, n: string)
    requires Run(systems, actions) && j <= |actions|
    ensures Waits(systems[j].s, n)
  {
    if j > 0 {
      AllWait(systems, actions, j - 1, n);
      StepOf(systems, actions, j - 1);
      WaitsStep(systems[j - 1].s, actions[j - 1], systems[j].s, n);
    }
  }

  /** Convergence from every reachable state in which nothing is opted out, whatever the run did before: one round
      without errors leaves exact limits on every served model. Where no live subscription is left the policy goes
      unless nobody claims it, and that of a missing model as the reconciler's rules say. */
  lemma TokenRunsConverge(
      systems: seq<System>, actions: seq<Action>, j: nat, states: seq<State>, order: seq<string>, key: Key)
    requires Run(systems, actions) && j <= |actions| && states != [] && states[0] == systems[j].s
    requires forall k :: !OptedOutToken(states[0], k)
    requires TokenConvergence.Round(states, order) && TokenConvergence.Covers(order, states[0])
    requires TokenConvergence.ErrorFree(states[0])
    ensures var s0, s := systems[j].s, states[|order|];
            && (Resolve(s0, key).Route? && TokenLimits.LiveSubs(s0, key) != {} ==>
                  TokenLimits.IsExact(s0, key, s.trlps.Get(key)))
            && (TokenLimits.LiveSubs(s0, key) == {} ==>
                  (s.trlps.Get(key).None? <==> s0.trlps.Get(key).None? || TokenConvergence.Claimed(s0, key)))
            && (Resolve(s0, key).ModelMissing? && TokenLimits.LiveSubs(s0, key) != {} ==>
                  (s.trlps.Get(key).None? <==>
                   || s0.trlps.Get(key).None?
                   || (exists n :: TokenConvergence.Visits(s0, n) && key in TokenConvergence.KeysOf(s0, n))
                   || (exists n :: TokenConvergence.Stale(s0, n, key, s0.trlps.Get(key)))))
  {
    ReachableTokensAreSteady(systems, actions, j);
    TokenConvergence.ErrorFreeConvergence(states, order, key);
  }

  /** Every reachable state in which nothing is opted out is steady; if nobody was abandoned, it is anchored too. */
  lemma ReachableTokensAreSteady(systems: seq<System>, actions: seq<Action>, j: nat)
    requires Run(systems, actions) && j <= |actions| && forall k :: !OptedOutToken(systems[j].s, k)
    ensures TokenConvergence.Steady(systems[j].s)
    ensures (forall i :: 0 <= i < j ==> !Abandons(systems[i].s, actions[i])) ==>
            TokenConvergence.Anchored(systems[j].s)
  {
    var s := systems[j].s;
    InvHolds(systems, actions, j);
    forall n | n in s.subscriptions && s.subscriptions[n].deleting ensures s.subscriptions[n].finalizer {
      AllWait(systems, actions, j, n);
    }
    forall key | s.trlps.Get(key).Some? ensures IsManaged(s.trlps.Get(key).value.managed) {
      assert !OptedOutToken(s, key);
    }
    if forall i :: 0 <= i < j ==> !Abandons(systems[i].s, actions[i]) {
      forall key | s.trlps.Get(key).Some?
        ensures exists n :: n in s.subscriptions && TokenLimits.Lists(s.trlps.Get(key).value, n)
      {
        NoTokenOrphans(systems, actions, j, key);
        var n :| n in s.subscriptions && TokenNames(s, key, n);
      }
    }
  }

  // ---- A TokenRateLimitPolicy never changes its target ----

  ghost predicate OwnedByTarget(s: State) {
    forall key :: s.trlps.Get(key).Some? ==> s.trlps.Get(key).value.owner == s.trlps.Get(key).value.route
  }

  lemma TargetStep(s: State, a: Action, s': State, key: Key)
    requires TokenLimits.WellNamed(s) && Moves(s, a, s') && OwnedByTarget(s) && s'.trlps.Get(key).Some?
    ensures s'.trlps.Get(key).value.owner == s'.trlps.Get(key).value.route
    ensures s.trlps.Get(key).Some? ==> s'.trlps.Get(key).value.route == s.trlps.Get(key).value.route
  {
    if a.ReconcileSubscription? {
      Subscriptions.TokenFateOf(s, a.subscription, s', key);
    } else {
      OtherTokenFate(s, a, s', key);
    }
  }

  lemma {:induction false} OwnedByTargetHolds(systems: seq<System>, actions: seq<Action>, n: nat)
    requires Run(systems, actions) && n <= |actions|
    ensures OwnedByTarget(systems[n].s)
  {
    if n > 0 {
      OwnedByTargetHolds(systems, actions, n - 1);
      StepOf(systems, actions, n - 1);
      forall key | systems[n].s.trlps.Get(key).Some?
        ensures systems[n].s.trlps.Get(key).value.owner == systems[n].s.trlps.Get(key).value.route
      {
        TargetStep(systems[n - 1].s, actions[n - 1], systems[n].s, key);
      }
    }
  }

  /** For as long as a TokenRateLimitPolicy exists it targets the route it was created for, wherever the model's own
      route moves meanwhile. */
  lemma {:induction false} TargetNeverMoves(systems: seq<System>, actions: seq<Action>, i: nat, j: nat, key: Key)
    requires Run(systems, actions) && i <= j <= |actions|
    requires forall k :: i <= k <= j ==> key in systems[k].s.trlps.items
    ensures systems[j].s.trlps.items[key].route == systems[i].s.trlps.items[key].route
    ensures systems[j].s.trlps.items[key].owner == systems[i].s.trlps.items[key].route
  {
    OwnedByTargetHolds(systems, actions, j);
    assert systems[j].s.trlps.Get(key).Some?;
    if i < j {
      TargetNeverMoves(systems, actions, i, j - 1, key);
      OwnedByTargetHolds(systems, actions, j - 1);
      StepOf(systems, actions, j - 1);
      assert systems[j - 1].s.trlps.Get(key).Some?;
      TargetStep(systems[j - 1].s, actions[j - 1], systems[j].s, key);
    }
  }

  // ---- A finalized model ----

  ghost predicate Bare(s: State, key: Key) {
    key !in s.models && key !in s.auths.items && key !in s.trlps.items
  }

  lemma BareStep(s: State, a: Action, s': State, key: Key)
    requires TokenLimits.WellNamed(s) && Moves(s, a, s') && Bare(s, key) && !(a.ApplyModel? && a.key == key)
    ensures Bare(s', key)
  {
    if a.ReconcilePolicy? {
      BareUnderPolicy(s, a.policy, s', key);
    } else if a.ReconcileSubscription? {
      BareUnderSubscription(s, a.subscription, s', key);
    } else if a.ReconcileModel? {
      assert s'.auths.Get(key).None? && s'.trlps.Get(key).None?;
    } else {
      BareUnderUser(s, a, key);
    }
  }

  lemma BareUnderPolicy(s: State, p: string, s': State, key: Key)
    requires AuthPolicies.Reconciles(s, p, s') && Bare(s, key)
    ensures Bare(s', key)
  {
    assert s'.auths.Get(key) == AuthPolicies.After(s, p, key);
    assert s'.auths.Get(key).None?;
  }

  lemma BareUnderSubscription(s: State, n: string, s': State, key: Key)
    requires TokenLimits.WellNamed(s) && Subscriptions.Reconciles(s, n, s') && Bare(s, key)
    ensures Bare(s', key)
  {
    Subscriptions.TokenFateOf(s, n, s', key);
    assert s'.trlps.Get(key).None?;
  }

  lemma BareUnderUser(s: State, a: Action, key: Key)
    requires !ByController(a) && Bare(s, key) && !(a.ApplyModel? && a.key == key)
    ensures Bare(Edited(s, a), key)
  {
  }

  lemma {:induction false} StaysBare(systems: seq<System>, actions: seq<Action>, i: nat, j: nat, key: Key)
    requires Run(systems, actions) && i <= j <= |actions| && Bare(systems[i].s, key)
    requires forall k :: i <= k < j ==> !(actions[k].ApplyModel? && actions[k].key == key)
    ensures Bare(systems[j].s, key)
  {
    if i < j {
      StaysBare(systems, actions, i, j - 1, key);
      StepOf(systems, actions, j - 1);
      BareStep(systems[j - 1].s, actions[j - 1], systems[j].s, key);
    }
  }

  /** Over every run: once a model is finalized, and until it is created again, no state has a generated policy for
      it if and only if none was opted out at the moment of the finalization. */
  lemma FinalizedForGood(systems: seq<System>, actions: seq<Action>, i: nat, key: Key)
    requires Run(systems, actions) && i < |actions|
    requires actions[i] == ReconcileModel(key) && ModelRefs.Finalizes(systems[i].s, key)
    requires forall k :: i < k < |actions| ==> !(actions[k].ApplyModel? && actions[k].key == key)
    ensures (forall j :: i < j <= |actions| ==> Bare(systems[j].s, key)) <==>
            !OptedOut(systems[i].s, key) && !OptedOutToken(systems[i].s, key)
  {
    StepOf(systems, actions, i);
    ModelRefs.FinalizationCleans(systems[i].s, key, systems[i + 1].s);
    var s' := systems[i + 1].s;
    assert key in s'.auths.items <==> s'.auths.Get(key).Some?;
    assert key in s'.trlps.items <==> s'.trlps.Get(key).Some?;
    if Bare(s', key) {
      forall j | i < j <= |actions| ensures Bare(systems[j].s, key) {
        StaysBare(systems, actions, i + 1, j, key);
      }
    }
  }

  // ---- A run that ends with a managed AuthPolicy naming a policy that is gone ----

  const MODEL := Key("team", "llm")

  function Sample(policies: map<string, Policy>, auths: Objects<AuthPolicy>): State {
    State("maas", policies, map[], map[MODEL := Model(false, true, true)], map[MODEL := "route"], auths,
          Objects(map[], 0))
  }

  function Grant(deleting: bool, finalizer: bool): Policy {
    Policy([MODEL], ["dev"], [], deleting, finalizer)
  }

  lemma CreatesAuth(s: State, a: AuthPolicy, s': State)
    requires s == Sample(map["p" := Grant(false, false)], Objects(map[], 0))
    requires a == AuthPolicies.Aggregate(s, MODEL, None, false)
    requires s' == Sample(map["p" := Grant(false, true)], Objects(map[MODEL := a], 1))
    ensures AuthPolicies.Reconciles(s, "p", s')
  {
    assert AuthPolicies.LiveParents(s, MODEL) == {"p"};
    assert AuthPolicies.CelValue("team") && AuthPolicies.CelValue("llm") && AuthPolicies.CelValue("dev");
    assert forall v :: v in AuthPolicies.AllowedGroups(s, MODEL) + AuthPolicies.AllowedUsers(s, MODEL) ==> v == "dev";
    assert AuthPolicies.Reached(s, [MODEL]) == [MODEL];
    forall key ensures s'.auths.Get(key) == AuthPolicies.After(s, "p", key) {
    }
    assert s.auths.Get(MODEL) != s'.auths.Get(MODEL);
  }

  lemma KeepsOptedOut(s: State, a: AuthPolicy, w: nat, s': State)
    requires !IsManaged(a.managed)
    requires s == Sample(map["p" := Grant(true, true)], Objects(map[MODEL := a], w))
    requires s' == Sample(map[], Objects(map[MODEL := a], w))
    ensures AuthPolicies.Reconciles(s, "p", s')
  {
    forall key ensures s'.auths.Get(key) == AuthPolicies.After(s, "p", key) {
    }
  }

  /** A run can be extended by one step. */
  lemma ExtendRun(systems: seq<System>, actions: seq<Action>, a: Action, x: System)
    requires Run(systems, actions) && TokenLimits.WellNamed(systems[|actions|].s) && Next(systems[|actions|], a, x)
    ensures Run(systems + [x], actions + [a])
  {
    var xs, acts := systems + [x], actions + [a];
    forall i | 0 <= i < |acts| ensures StepAt(xs, acts, i) {
      if i < |actions| {
        StepOf(systems, actions, i);
      }
    }
  }

  lemma AnnotateStep(policies: map<string, Policy>, a: AuthPolicy, w: nat, managed: Option<string>,
                     released: set<string>)
    requires TokenLimits.WellNamed(Sample(policies, Objects(map[MODEL := a], w)))
    ensures var b := a.(managed := managed, optedOutOnce := a.optedOutOnce || !IsManaged(managed));
            Next(System(Sample(policies, Objects(map[MODEL := a], w)), released), AnnotateAuthPolicy(MODEL, managed),
                 System(Sample(policies, Objects(map[MODEL := b], w + 1)), released))
  {
    var x := Objects(map[MODEL := a], w);
    var b := a.(managed := managed, optedOutOnce := a.optedOutOnce || !IsManaged(managed));
    assert x.Put(MODEL, b) == Objects(map[MODEL := b], w + 1);
  }

  lemma ApplyStep()
    ensures Next(System(Sample(map[], Objects(map[], 0)), {}), ApplyPolicy("p", [MODEL], ["dev"], []),
                 System(Sample(map["p" := Grant(false, false)], Objects(map[], 0)), {}))
  {
    assert LabelName("p");
  }

  lemma DeleteStep(auths: Objects<AuthPolicy>)
    ensures Next(System(Sample(map["p" := Grant(false, true)], auths), {}), DeletePolicy("p"),
                 System(Sample(map["p" := Grant(true, true)], auths), {}))
  {
    var s := Sample(map["p" := Grant(false, true)], auths);
    assert RemovePolicy(s, "p") == Sample(map["p" := Grant(true, true)], auths);
  }

  /** The policy is applied and reconciled; `a` is the AuthPolicy that creates. */
  lemma GrantedRun() returns (systems: seq<System>, actions: seq<Action>, a: AuthPolicy)
    ensures Run(systems, actions) && |actions| == 2 && AuthPolicies.Lists(a, "p") && a.managed.None? && !a.optedOutOnce
    ensures systems[2] == System(Sample(map["p" := Grant(false, true)], Objects(map[MODEL := a], 1)), {})
  {
    var x0 := System(Sample(map[], Objects(map[], 0)), {});
    var x1 := System(Sample(map["p" := Grant(false, false)], Objects(map[], 0)), {});
    a := AuthPolicies.Aggregate(x1.s, MODEL, None, false);
    var x2 := System(Sample(map["p" := Grant(false, true)], Objects(map[MODEL := a], 1)), {});
    systems, actions := [x0], [];
    ApplyStep();
    ExtendRun(systems, actions, ApplyPolicy("p", [MODEL], ["dev"], []), x1);
    CreatesAuth(x1.s, a, x2.s);
    ExtendRun([x0, x1], [ApplyPolicy("p", [MODEL], ["dev"], [])], ReconcilePolicy("p"), x2);
    systems, actions := [x0, x1] + [x2], [ApplyPolicy("p", [MODEL], ["dev"], [])] + [ReconcilePolicy("p")];
    StaleAuthNames(x1.s, a);
  }

  lemma StaleAuthNames(s: State, a: AuthPolicy)
    requires s == Sample(map["p" := Grant(false, false)], Objects(map[], 0))
    requires a == AuthPolicies.Aggregate(s, MODEL, None, false)
    ensures AuthPolicies.Lists(a, "p")
  {
    assert MODEL in s.policies["p"].refs;
    assert "p" in AuthPolicies.LiveParents(s, MODEL);
    AuthConvergence.AggregateLists(s, MODEL, None, false, "p");
  }

  /** ... then opted out and deleted, but not yet released. */
  lemma DepartingRun() returns (systems: seq<System>, actions: seq<Action>, off: AuthPolicy)
    ensures Run(systems, actions) && |actions| == 4 && AuthPolicies.Lists(off, "p") && !IsManaged(off.managed)
    ensures systems[4] == System(Sample(map["p" := Grant(true, true)], Objects(map[MODEL := off], 2)), {})
  {
    var xs, acts, a := GrantedRun();
    off := a.(managed := Some("false"), optedOutOnce := true);
    var x3 := System(Sample(map["p" := Grant(false, true)], Objects(map[MODEL := off], 2)), {});
    var x4 := System(Sample(map["p" := Grant(true, true)], Objects(map[MODEL := off], 2)), {});
    AnnotateStep(map["p" := Grant(false, true)], a, 1, Some("false"), {});
    ExtendRun(xs, acts, AnnotateAuthPolicy(MODEL, Some("false")), x3);
    DeleteStep(Objects(map[MODEL := off], 2));
    ExtendRun(xs + [x3], acts + [AnnotateAuthPolicy(MODEL, Some("false"))], DeletePolicy("p"), x4);
    systems := xs + [x3] + [x4];
    actions := acts + [AnnotateAuthPolicy(MODEL, Some("false"))] + [DeletePolicy("p")];
  }

  lemma ReleaseStep(off: AuthPolicy)
    requires !IsManaged(off.managed)
    ensures Next(System(Sample(map["p" := Grant(true, true)], Objects(map[MODEL := off], 2)), {}), ReconcilePolicy("p"),
                 System(Sample(map[], Objects(map[MODEL := off], 2)), {"p"}))
  {
    KeepsOptedOut(Sample(map["p" := Grant(true, true)], Objects(map[MODEL := off], 2)), off, 2,
                  Sample(map[], Objects(map[MODEL := off], 2)));
  }

  /** A run from a cluster without policies, subscriptions and generated objects that ends with a managed AuthPolicy
      whose only contributor was released. */
  lemma StaleRun() returns (systems: seq<System>, actions: seq<Action>)
    ensures Run(systems, actions) && |actions| == 6
    ensures Releases(systems[4].s, actions[4], "p") && OptedOut(systems[4].s, MODEL) && Names(systems[4].s, MODEL, "p")
    ensures Names(systems[6].s, MODEL, "p") && !OptedOut(systems[6].s, MODEL) && "p" !in systems[6].s.policies
    ensures systems[6].s.policies == map[] && forall key :: !OptedOut(systems[6].s, key)
  {
    var xs, acts, off := DepartingRun();
    var x5 := System(Sample(map[], Objects(map[MODEL := off], 2)), {"p"});
    var on := off.(managed := None);
    var x6 := System(Sample(map[], Objects(map[MODEL := on], 3)), {"p"});
    ReleaseStep(off);
    ExtendRun(xs, acts, ReconcilePolicy("p"), x5);
    AnnotateStep(map[], off, 2, None, {"p"});
    ExtendRun(xs + [x5], acts + [ReconcilePolicy("p")], AnnotateAuthPolicy(MODEL, None), x6);
    systems, actions := xs + [x5] + [x6], acts + [ReconcilePolicy("p")] + [AnnotateAuthPolicy(MODEL, None)];
  }

  /** From its last state nothing is opted out and no reference errs, nobody references the model, and yet no sequence
      of reconciles, two rounds or more, ever removes the AuthPolicy. */
  lemma StaleNeverConverges(s: State, states: seq<State>, order: seq<string>, n: nat)
    requires s.policies == map[] && AuthConvergence.Round(states, order) && states[0] == s && n <= |order|
    ensures AuthConvergence.ErrorFree(s) && AuthPolicies.LiveParents(s, MODEL) == {}
    ensures states[n] == s
  {
    if n > 0 {
      StaleNeverConverges(s, states, order, n - 1);
      assert AuthPolicies.Reconciles(states[n - 1], order[n - 1], states[n]);
      NobodyReconciles(s, order[n - 1], states[n]);
    }
  }

  lemma NobodyReconciles(s: State, p: string, s': State)
    requires s.policies == map[] && AuthPolicies.Reconciles(s, p, s')
    ensures s' == s
  {
    assert forall key :: s'.auths.Get(key) == s.auths.Get(key);
  }

  // ---- A run that ends with an orphaned TokenRateLimitPolicy ----

  const FIRST := SubStatus(Unreconciled, [], [])

  function Use(deleting: bool, finalizer: bool, status: SubStatus): Subscription {
    Subscription([SubRef(MODEL, [])], deleting, finalizer, status)
  }

  function Served(subs: map<string, Subscription>, routes: map<Key, string>, trlps: Objects<TokenPolicy>): System {
    System(State("maas", map[], subs, map[MODEL := Model(false, false, true)], routes, Objects(map[], 0), trlps), {})
  }

  lemma UseRefs(deleting: bool, finalizer: bool, status: SubStatus)
    ensures TokenLimits.RefKeys(Use(deleting, finalizer, status).refs) == [MODEL]
    ensures TokenLimits.EffectiveRates(Use(deleting, finalizer, status).refs, MODEL).Some?
  {
  }

  /** Reconciling one reference to a served model without a policy, or to one the reconciler skips. */
  lemma CreatesToken(s: State, n: string, t: TokenPolicy, trlps: Objects<TokenPolicy>)
    requires TokenLimits.WellNamed(s) && Resolve(s, MODEL).Route? && TokenLimits.EffectiveSubs(s, MODEL) != {}
    requires s.trlps == Objects(map[], 0) && t == TokenLimits.Aggregate(s, MODEL, None, false)
    requires trlps == Objects(map[MODEL := t], 1)
    ensures Subscriptions.Complete(s, [MODEL]) && Subscriptions.Passes(s, n, [MODEL], trlps) && Honest(s.trlps, trlps)
  {
    Subscriptions.CompleteIff(s, [MODEL]);
    forall key ensures trlps.Get(key) == TokenLimits.AfterPass(s, n, [MODEL], key) {
    }
    assert trlps.Get(MODEL) != s.trlps.Get(MODEL);
  }

  lemma SkipsToken(s: State, n: string)
    requires TokenLimits.WellNamed(s) && Resolve(s, MODEL).RouteMissing? && TokenLimits.LiveSubs(s, MODEL) != {}
    requires s.trlps.items.Keys == {MODEL}
    ensures Subscriptions.Complete(s, [MODEL]) && Subscriptions.Passes(s, n, [MODEL], s.trlps)
  {
    Subscriptions.CompleteIff(s, [MODEL]);
    forall key ensures s.trlps.Get(key) == TokenLimits.AfterPass(s, n, [MODEL], key) {
    }
  }

  lemma FirstReconcile(s: State, t: TokenPolicy, st: SubStatus, s': State)
    requires s == Served(map["a" := Use(false, false, FIRST)], map[MODEL := "route"], Objects(map[], 0)).s
    requires s' == Served(map["a" := Use(false, true, st)], map[MODEL := "route"], Objects(map[MODEL := t], 1)).s
    requires TokenLimits.WellNamed(s) && Resolve(s, MODEL).Route? && t == TokenLimits.Aggregate(s, MODEL, None, false)
    requires st == Subscriptions.LiveStatus(s, [MODEL], [], s'.trlps)
    ensures Subscriptions.Reconciles(s, "a", s') && forall n :: TokenLimits.Lists(t, n) <==> n == "a"
  {
    OnlyUser(s, "a");
    CreatesToken(s, "a", t, s'.trlps);
    assert Subscriptions.HasValidModels(s, [MODEL]) by { assert [MODEL][0] in s.models; }
    assert s'.subscriptions == s.subscriptions["a" := Use(false, true, st)];
    forall n ensures TokenLimits.Lists(t, n) <==> n == "a" {
      AggregateNames(s, MODEL, None, false, n);
    }
  }

  lemma OnlyUser(s: State, n: string)
    requires s.subscriptions == map[n := Use(false, false, FIRST)]
    ensures TokenLimits.EffectiveSubs(s, MODEL) == {n} && TokenLimits.RefKeys(s.subscriptions[n].refs) == [MODEL]
  {
    UseRefs(false, false, FIRST);
    assert TokenLimits.RefKeys(s.subscriptions[n].refs)[0] == MODEL;
    assert n in TokenLimits.EffectiveSubs(s, MODEL);
  }

  lemma LastReconcile(s: State, st: SubStatus, trlps: Objects<TokenPolicy>, s': State)
    requires s == Served(map["a" := Use(true, true, st), "b" := Use(false, false, FIRST)], map[], trlps).s
    requires s' == Served(map["b" := Use(false, false, FIRST)], map[], trlps).s
    requires TokenLimits.WellNamed(s) && trlps.items.Keys == {MODEL}
    ensures Subscriptions.Reconciles(s, "a", s')
  {
    UseRefs(true, true, st);
    UseRefs(false, false, FIRST);
    assert TokenLimits.RefKeys(s.subscriptions["b"].refs)[0] == MODEL;
    assert "b" in TokenLimits.LiveSubs(s, MODEL);
    SkipsToken(s, "a");
    assert s'.subscriptions == s.subscriptions - {"a"};
  }

  lemma ServedNamed(x: System)
    requires x == Served(x.s.subscriptions, x.s.routes, x.s.trlps) && x.s.subscriptions.Keys <= {"a", "b"}
    ensures TokenLimits.WellNamed(x.s)
  {
  }

  lemma SubscribeStep(x: System, n: string, x': System)
    requires TokenLimits.WellNamed(x.s) && LabelName(n) && n !in x.s.subscriptions && x'.released == x.released
    requires x'.s == x.s.(subscriptions := x.s.subscriptions[n := Use(false, false, FIRST)])
    ensures Next(x, ApplySubscription(n, [SubRef(MODEL, [])]), x')
  {
  }

  lemma UnrouteStep(x: System, x': System)
    requires TokenLimits.WellNamed(x.s) && x'.s == x.s.(routes := x.s.routes - {MODEL}) && x'.released == x.released
    ensures Next(x, SetRoute(MODEL, None), x')
  {
  }

  lemma UnsubscribeStep(x: System, n: string, x': System)
    requires TokenLimits.WellNamed(x.s) && x'.s == RemoveSubscription(x.s, n) && x'.released == x.released
    ensures Next(x, DeleteSubscription(n), x')
  {
  }

  lemma ReconcileStep(x: System, n: string, x': System)
    requires TokenLimits.WellNamed(x.s) && Subscriptions.Reconciles(x.s, n, x'.s) && x'.released == x.released
    ensures Next(x, ReconcileSubscription(n), x')
  {
  }

  /** A subscription is applied. */
  lemma AppliedRun() returns (systems: seq<System>, actions: seq<Action>)
    ensures Run(systems, actions) && |actions| == 1
    ensures systems[1] == Served(map["a" := Use(false, false, FIRST)], map[MODEL := "route"], Objects(map[], 0))
  {
    var x0 := Served(map[], map[MODEL := "route"], Objects(map[], 0));
    var x1 := Served(map["a" := Use(false, false, FIRST)], map[MODEL := "route"], Objects(map[], 0));
    ServedNamed(x0);
    SubscribeStep(x0, "a", x1);
    ExtendRun([x0], [], ApplySubscription("a", [SubRef(MODEL, [])]), x1);
    systems, actions := [x0] + [x1], [] + [ApplySubscription("a", [SubRef(MODEL, [])])];
  }

  /** ... and reconciled; `t` is the policy that creates and `st` the status it writes. */
  lemma SubscribedRun() returns (systems: seq<System>, actions: seq<Action>, t: TokenPolicy, st: SubStatus)
    ensures Run(systems, actions) && |actions| == 2 && t.managed.None?
    ensures forall n :: TokenLimits.Lists(t, n) <==> n == "a"
    ensures systems[2] == Served(map["a" := Use(false, true, st)], map[MODEL := "route"], Objects(map[MODEL := t], 1))
  {
    var xs, acts := AppliedRun();
    var x1 := xs[1];
    ServedNamed(x1);
    t := TokenLimits.Aggregate(x1.s, MODEL, None, false);
    st := Subscriptions.LiveStatus(x1.s, [MODEL], [], Objects(map[MODEL := t], 1));
    var x2 := Served(map["a" := Use(false, true, st)], map[MODEL := "route"], Objects(map[MODEL := t], 1));
    FirstReconcile(x1.s, t, st, x2.s);
    ReconcileStep(x1, "a", x2);
    ExtendRun(xs, acts, ReconcileSubscription("a"), x2);
    systems, actions := xs + [x2], acts + [ReconcileSubscription("a")];
  }

  /** ... then the model is deleted, which it can be at once as it has no finalizer yet: a run that ends with the policy
      of a missing model that `TokenConvergence.MissingModelKeepsItsPolicy` shows is never removed. */
  lemma BereftRun() returns (systems: seq<System>, actions: seq<Action>, t: TokenPolicy, st: SubStatus)
    ensures Run(systems, actions) && |actions| == 3 && IsManaged(t.managed)
    ensures systems[3].s == TokenConvergence.Bereft(t, st)
  {
    var xs, acts;
    xs, acts, t, st := SubscribedRun();
    var x3 := System(TokenConvergence.Bereft(t, st), {});
    ServedNamed(xs[2]);
    assert TokenConvergence.MODEL == MODEL;
    RemoveStep(xs[2], x3);
    ExtendRun(xs, acts, DeleteModel(MODEL), x3);
    systems, actions := xs + [x3], acts + [DeleteModel(MODEL)];
  }

  lemma RemoveStep(x: System, x': System)
    requires TokenLimits.WellNamed(x.s) && MODEL in x.s.models && !x.s.models[MODEL].finalizer
    requires x'.s == x.s.(models := x.s.models - {MODEL}) && x'.released == x.released
    ensures Next(x, DeleteModel(MODEL), x')
  {
    assert RemoveModel(x.s, MODEL) == x'.s;
  }

  /** ... or the route goes and another subscription is created. */
  lemma UnroutedRun() returns (systems: seq<System>, actions: seq<Action>, t: TokenPolicy, st: SubStatus)
    ensures Run(systems, actions) && |actions| == 4 && forall n :: TokenLimits.Lists(t, n) <==> n == "a"
    ensures systems[4] == Served(map["a" := Use(false, true, st), "b" := Use(false, false, FIRST)], map[],
                                 Objects(map[MODEL := t], 1))
  {
    var xs, acts;
    xs, acts, t, st := SubscribedRun();
    var some := Objects(map[MODEL := t], 1);
    var x3 := Served(map["a" := Use(false, true, st)], map[], some);
    var x4 := Served(map["a" := Use(false, true, st), "b" := Use(false, false, FIRST)], map[], some);
    ServedNamed(xs[2]);
    ServedNamed(x3);
    UnrouteStep(xs[2], x3);
    ExtendRun(xs, acts, SetRoute(MODEL, None), x3);
    assert x4.s.subscriptions == x3.s.subscriptions["b" := Use(false, false, FIRST)];
    SubscribeStep(x3, "b", x4);
    ExtendRun(xs + [x3], acts + [SetRoute(MODEL, None)], ApplySubscription("b", [SubRef(MODEL, [])]), x4);
    systems := xs + [x3] + [x4];
    actions := acts + [SetRoute(MODEL, None)] + [ApplySubscription("b", [SubRef(MODEL, [])])];
  }

  /** A run from a cluster without policies, subscriptions and generated objects that ends with a policy none of whose
      contributors exists: its route was missing when its only subscription was released, and another subscription had
      just been created. */
  lemma OrphanRun() returns (systems: seq<System>, actions: seq<Action>)
    ensures Run(systems, actions) && |actions| == 6 && MODEL in systems[6].s.trlps.items
    ensures forall n :: TokenNames(systems[6].s, MODEL, n) <==> n == "a"
    ensures "a" !in systems[6].s.subscriptions && AbandonsAt(systems[5].s, actions[5], MODEL, "a")
  {
    var xs, acts, t, st := UnroutedRun();
    var some := Objects(map[MODEL := t], 1);
    var x5 := Served(map["a" := Use(true, true, st), "b" := Use(false, false, FIRST)], map[], some);
    var x6 := Served(map["b" := Use(false, false, FIRST)], map[], some);
    ServedNamed(xs[4]);
    ServedNamed(x5);
    assert x5.s.subscriptions == xs[4].s.subscriptions["a" := Use(true, true, st)];
    UnsubscribeStep(xs[4], "a", x5);
    ExtendRun(xs, acts, DeleteSubscription("a"), x5);
    LastReconcile(x5.s, st, some, x6.s);
    ReconcileStep(x5, "a", x6);
    ExtendRun(xs + [x5], acts + [DeleteSubscription("a")], ReconcileSubscription("a"), x6);
    systems, actions := xs + [x5] + [x6], acts + [DeleteSubscription("a")] + [ReconcileSubscription("a")];
    assert x5.s.trlps.Get(MODEL) == Some(t) == x6.s.trlps.Get(MODEL);
    AbandonedAtRelease(x5.s, x6.s, MODEL, "a");
  }

  lemma AbandonedAtRelease(s: State, s': State, key: Key, n: string)
    requires TokenNames(s, key, n) && TokenNames(s', key, n) && TokenLimits.WellNamed(s)
    requires n in s.subscriptions && s.subscriptions[n].deleting && s.subscriptions[n].finalizer
    requires Subscriptions.Reconciles(s, n, s') && n !in s'.subscriptions
    ensures AbandonsAt(s, ReconcileSubscription(n), key, n)
  {
    TokenReleaseExactly(s, n, s', key);
  }
}
