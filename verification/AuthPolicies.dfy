/** The MaaSAuthPolicy reconciler (maas-controller/pkg/controller/maas/maasauthpolicy_controller.go): one
    aggregated AuthPolicy per model, rebuilt from all live policies at every reconcile. */
module AuthPolicies {
  import opened Strings
  import opened Sorting
  import opened Cluster

  // ---- Specification, model by model ----

  /** `findAllAuthPoliciesForModel`. */
  ghost function LiveParents(s: State, key: Key): set<string> {
    set p | p in s.policies && !s.policies[p].deleting && key in s.policies[p].refs
  }

  ghost function GroupsOf(s: State, parents: set<string>): set<string> {
    set p, g | p in parents && p in s.policies && g in s.policies[p].groups :: g
  }

  ghost function UsersOf(s: State, parents: set<string>): set<string> {
    set p, u | p in parents && p in s.policies && u in s.policies[p].users :: u
  }

  ghost function AllowedGroups(s: State, key: Key): set<string> {
    GroupsOf(s, LiveParents(s, key))
  }

  ghost function AllowedUsers(s: State, key: Key): set<string> {
    UsersOf(s, LiveParents(s, key))
  }

  lemma ParentStep(s: State, parents: set<string>, p: string)
    requires p in s.policies
    ensures GroupsOf(s, parents + {p}) == GroupsOf(s, parents) + Elems(s.policies[p].groups)
    ensures UsersOf(s, parents + {p}) == UsersOf(s, parents) + Elems(s.policies[p].users)
  {
  }

  /** `validateCELValue`. */
  predicate CelValue(v: string) {
    '"' !in v && '\\' !in v
  }

  ghost predicate CelSafe(s: State, key: Key) {
    && CelValue(key.ns) && CelValue(key.name)
    && forall v :: v in AllowedGroups(s, key) + AllowedUsers(s, key) ==> CelValue(v)
  }

  /** The reconcile of this reference returns an error. */
  ghost predicate RefError(s: State, key: Key) {
    Resolve(s, key).UnknownKind? || (Resolve(s, key).Route? && !CelSafe(s, key))
  }

  /** The aggregate of all live parents, keeping what the reconciler does not own. */
  ghost function Aggregate(s: State, key: Key, managed: Option<string>, optedOutOnce: bool): AuthPolicy
    requires Resolve(s, key).Route?
  {
    AuthPolicy(Join(Arranged(LiveParents(s, key)), ','),
               Arranged(AllowedGroups(s, key)), Arranged(AllowedUsers(s, key)),
               Resolve(s, key).name, managed, optedOutOnce)
  }

  function Deleted(cur: Option<AuthPolicy>): Option<AuthPolicy> {
    if cur.Some? && IsManaged(cur.value.managed) then None else cur
  }

  /** What reconciling one reference to `key` leaves there. */
  ghost function AfterRef(s: State, key: Key, cur: Option<AuthPolicy>): Option<AuthPolicy> {
    match Resolve(s, key)
    case ModelMissing => Deleted(cur)
    case RouteMissing => cur
    case UnknownKind => cur
    case Route(_) =>
      if !CelSafe(s, key) then cur
      else if cur.None? then Some(Aggregate(s, key, None, false))
      else if IsManaged(cur.value.managed) then Some(Aggregate(s, key, cur.value.managed, cur.value.optedOutOnce))
      else cur
  }

  /** The contributor annotation names `policy`. */
  predicate Lists(a: AuthPolicy, policy: string) {
    policy in Split(a.contributors, ',')
  }

  /** References reconciled before the first error. */
  ghost function Reached(s: State, refs: seq<Key>): seq<Key> {
    if refs == [] || RefError(s, refs[0]) then [] else [refs[0]] + Reached(s, refs[1..])
  }

  /** What one `Reconcile` of `policy` leaves at `key`: the reference definition the methods below meet. */
  ghost function After(s: State, policy: string, key: Key): Option<AuthPolicy> {
    var cur := s.auths.Get(key);
    if policy !in s.policies then cur
    else
      var p := s.policies[policy];
      if p.deleting then
        if p.finalizer && (key in p.refs || (cur.Some? && Lists(cur.value, policy))) then Deleted(cur) else cur
      else if key in Reached(s, p.refs) then AfterRef(s, key, cur)
      else if Reached(s, p.refs) == p.refs && cur.Some? && Lists(cur.value, policy) then Deleted(cur)
      else cur
  }

  ghost function PoliciesAfter(s: State, policy: string): map<string, Policy> {
    if policy !in s.policies then s.policies
    else if !s.policies[policy].deleting then s.policies[policy := s.policies[policy].(finalizer := true)]
    else if s.policies[policy].finalizer then s.policies - {policy}
    else s.policies
  }

  /** The transition of one `Reconcile`. */
  ghost predicate Reconciles(s: State, policy: string, s': State) {
    && s' == s.(policies := PoliciesAfter(s, policy), auths := s'.auths)
    && (forall key :: s'.auths.Get(key) == After(s, policy, key))
    && Honest(s.auths, s'.auths)
  }

  /** No error is returned, so the reconcile is not retried. */
  ghost predicate Succeeds(s: State, policy: string) {
    policy in s.policies && !s.policies[policy].deleting ==>
      Reached(s, s.policies[policy].refs) == s.policies[policy].refs
  }

  // ---- Bookkeeping for the loops ----

  /** `s'` differs from `s` in finalizers and generated objects only. */
  ghost predicate SameInputs(s: State, s': State) {
    && s'.models == s.models && s'.routes == s.routes && s'.policies.Keys == s.policies.Keys
    && forall p :: p in s.policies ==> s'.policies[p].(finalizer := true) == s.policies[p].(finalizer := true)
  }

  lemma InputsDecide(s: State, s': State, key: Key, cur: Option<AuthPolicy>)
    requires SameInputs(s, s')
    ensures LiveParents(s', key) == LiveParents(s, key)
    ensures RefError(s', key) == RefError(s, key) && AfterRef(s', key, cur) == AfterRef(s, key, cur)
  {
    assert forall p :: p in s.policies ==>
      s'.policies[p].refs == s.policies[p].refs && s'.policies[p].deleting == s.policies[p].deleting &&
      s'.policies[p].groups == s.policies[p].groups && s'.policies[p].users == s.policies[p].users;
    assert LiveParents(s', key) == LiveParents(s, key);
    assert AllowedGroups(s', key) == AllowedGroups(s, key);
    assert AllowedUsers(s', key) == AllowedUsers(s, key);
  }

  ghost function ApplyRefs(s: State, objects: Objects<AuthPolicy>, refs: seq<Key>): Objects<AuthPolicy> {
    if refs == [] then objects
    else
      var before, key := ApplyRefs(s, objects, refs[..|refs| - 1]), refs[|refs| - 1];
      before.SetTo(key, AfterRef(s, key, before.Get(key)))
  }

  lemma AfterRefIdempotent(s: State, key: Key, cur: Option<AuthPolicy>)
    ensures AfterRef(s, key, AfterRef(s, key, cur)) == AfterRef(s, key, cur)
  {
  }

  lemma {:induction false} ApplyRefsAt(s: State, objects: Objects<AuthPolicy>, refs: seq<Key>, key: Key)
    ensures ApplyRefs(s, objects, refs).Get(key) ==
            if key in refs then AfterRef(s, key, objects.Get(key)) else objects.Get(key)
  {
    if refs != [] {
      var init, last := refs[..|refs| - 1], refs[|refs| - 1];
      assert refs == init + [last];
      ApplyRefsAt(s, objects, init, key);
      AfterRefIdempotent(s, key, objects.Get(key));
    }
  }

  lemma {:induction false} ApplyRefsHonest(s: State, objects: Objects<AuthPolicy>, refs: seq<Key>)
    ensures objects.writes <= ApplyRefs(s, objects, refs).writes
    ensures (forall key :: key in refs ==> AfterRef(s, key, objects.Get(key)) == objects.Get(key)) ==>
            ApplyRefs(s, objects, refs) == objects
  {
    if refs != [] {
      var init, last := refs[..|refs| - 1], refs[|refs| - 1];
      assert refs == init + [last];
      ApplyRefsHonest(s, objects, init);
    }
  }

  /** `mid` results from the references that were reached, `fin` from the clean-up after them, if any. */
  lemma RoundMeetsAfter(s: State, policy: string, mid: Objects<AuthPolicy>, fin: Objects<AuthPolicy>)
    requires policy in s.policies && !s.policies[policy].deleting
    requires mid == ApplyRefs(s, s.auths, Reached(s, s.policies[policy].refs))
    requires if Reached(s, s.policies[policy].refs) == s.policies[policy].refs
             then (forall key :: fin.Get(key) == Cleaned(mid.Get(key), key, policy, s.policies[policy].refs)) &&
                  Honest(mid, fin)
             else fin == mid
    ensures forall key :: fin.Get(key) == After(s, policy, key)
    ensures Honest(s.auths, fin)
  {
    var refs, reached := s.policies[policy].refs, Reached(s, s.policies[policy].refs);
    forall key ensures fin.Get(key) == After(s, policy, key) && (key in reached ==> fin.Get(key) == mid.Get(key)) {
      ApplyRefsAt(s, s.auths, reached, key);
    }
    ApplyRefsHonest(s, s.auths, reached);
    if forall key :: s.auths.Get(key) == fin.Get(key) {
      forall key | key in reached ensures AfterRef(s, key, s.auths.Get(key)) == s.auths.Get(key) {
        ApplyRefsAt(s, s.auths, reached, key);
      }
    }
  }

  lemma {:induction false} ReachedPrefix(s: State, refs: seq<Key>, n: nat)
    requires n <= |refs| && (forall i :: 0 <= i < n ==> !RefError(s, refs[i]))
    requires n == |refs| || RefError(s, refs[n])
    ensures Reached(s, refs) == refs[..n]
  {
    if n > 0 {
      ReachedPrefix(s, refs[1..], n - 1);
      assert refs[..n] == [refs[0]] + refs[1..][..n - 1];
    }
  }

  /** What stale clean-up for `policy`, whose current references are `refs`, leaves at `key`. */
  ghost function Cleaned(cur: Option<AuthPolicy>, key: Key, policy: string, refs: seq<Key>): Option<AuthPolicy> {
    if key !in refs && cur.Some? && Lists(cur.value, policy) then Deleted(cur) else cur
  }

  // ---- The loops ----

  /** `deduplicateAndSort`: a set filled in a loop, listed in any order, then sorted. */
  method DeduplicateAndSort(items: seq<string>) returns (r: seq<string>)
    ensures r == Arranged(Elems(items))
  {
    var seen: set<string> := {};
    for i := 0 to |items|
      invariant seen == Elems(items[..i])
    {
      seen := seen + {items[i]};
      assert items[..i + 1] == items[..i] + [items[i]];
    }
    assert items[..|items|] == items;
    r := [];
    var rest := seen;
    while rest != {}
      invariant rest <= seen && Elems(r) == seen - rest
      invariant forall i, j :: 0 <= i < j < |r| ==> r[i] != r[j]
    {
      var item :| item in rest;
      assert item !in Elems(r);
      ElemsConcat(r, [item]);
      r := r + [item];
      rest := rest - {item};
    }
    SortDistinct(r);
    r := Sort(r, Less);
    IncreasingUnique(r, Arranged(Elems(items)));
  }

  class Reconciler {
    const server: ApiServer

    constructor (server: ApiServer)
      ensures this.server == server
    {
      this.server := server;
    }

    /** The aggregation loop over all policies; `ok` is false when a subject is not CEL safe. */
    method Collect(key: Key) returns (ok: bool, names: seq<string>, groups: seq<string>, users: seq<string>)
      ensures ok ==> Elems(names) == LiveParents(server.Snapshot(), key) &&
                     Elems(groups) == AllowedGroups(server.Snapshot(), key) &&
                     Elems(users) == AllowedUsers(server.Snapshot(), key)
      ensures ok <==>
              var s := server.Snapshot();
              forall v :: v in AllowedGroups(s, key) + AllowedUsers(s, key) ==> CelValue(v)
    {
      ghost var s := server.Snapshot();
      names, groups, users := [], [], [];
      var rest := server.policies.Keys;
      while rest != {}
        invariant rest <= s.policies.Keys
        invariant Elems(names) == LiveParents(s, key) - rest
        invariant Elems(groups) == GroupsOf(s, LiveParents(s, key) - rest)
        invariant Elems(users) == UsersOf(s, LiveParents(s, key) - rest)
        invariant forall v :: v in groups + users ==> CelValue(v)
      {
        var p :| p in rest;
        ghost var seen := LiveParents(s, key) - rest;
        rest := rest - {p};
        assert LiveParents(s, key) - rest == if p in LiveParents(s, key) then seen + {p} else seen;
        var policy := server.policies[p];
        if !policy.deleting && key in policy.refs {
          if (exists v :: v in policy.groups && !CelValue(v)) || (exists v :: v in policy.users && !CelValue(v)) {
            ghost var v :| (v in policy.groups || v in policy.users) && !CelValue(v);
            assert p in LiveParents(s, key);
            assert v in AllowedGroups(s, key) + AllowedUsers(s, key);
            return false, names, groups, users;
          }
          ParentStep(s, seen, p);
          ElemsConcat(names, [p]);
          ElemsConcat(groups, policy.groups);
          ElemsConcat(users, policy.users);
          names, groups, users := names + [p], groups + policy.groups, users + policy.users;
        }
      }
      ok := true;
    }

    /** `deleteModelAuthPolicy`. */
    method DeleteModel(key: Key)
      modifies server`auths
      ensures server.auths == old(server.auths).SetTo(key, Deleted(old(server.auths).Get(key)))
    {
      var found := server.auths.Get(key);
      if found.Some? && IsManaged(found.value.managed) {
        server.auths := server.auths.Delete(key);
      }
    }

    /** One iteration of `reconcileModelAuthPolicies`. */
    method ReconcileRef(key: Key) returns (ok: bool)
      modifies server`auths
      ensures ok == !RefError(old(server.Snapshot()), key)
      ensures server.auths ==
              old(server.auths).SetTo(key, AfterRef(old(server.Snapshot()), key, old(server.auths).Get(key)))
    {
      var route := Resolve(server.Snapshot(), key);
      match route
      case ModelMissing =>
        DeleteModel(key);
        return true;
      case RouteMissing =>
        return true;
      case UnknownKind =>
        return false;
      case Route(routeName) =>
        if !CelValue(key.ns) || !CelValue(key.name) {
          return false;
        }
        var safe, names, groups, users := Collect(key);
        if !safe {
          return false;
        }
        names := DeduplicateAndSort(names);
        groups := DeduplicateAndSort(groups);
        users := DeduplicateAndSort(users);
        var existing := server.auths.Get(key);
        if existing.None? {
          server.auths := server.auths.Put(key, AuthPolicy(Join(names, ','), groups, users, routeName, None, false));
        } else if IsManaged(existing.value.managed) {
          var updated := existing.value.(contributors := Join(names, ','), groups := groups, users := users,
                                         route := routeName);
          if updated != existing.value {
            server.auths := server.auths.Put(key, updated);
          }
        }
        return true;
    }

    /** `cleanupStaleAuthPolicies`. */
    method CleanupStale(policy: string, refs: seq<Key>)
      modifies server`auths
      ensures forall key :: server.auths.Get(key) == Cleaned(old(server.auths).Get(key), key, policy, refs)
      ensures Honest(old(server.auths), server.auths)
    {
      var rest := server.auths.items.Keys;
      ghost var before := server.auths;
      while rest != {}
        invariant rest <= before.items.Keys
        invariant forall key :: server.auths.Get(key) ==
                    if key in rest then before.Get(key) else Cleaned(before.Get(key), key, policy, refs)
        invariant Honest(before, server.auths)
      {
        var key :| key in rest;
        rest := rest - {key};
        assert server.auths.Get(key) == before.Get(key);
        if key !in refs && policy in Split(server.auths.items[key].contributors, ',') {
          DeleteModel(key);
        }
      }
    }

    /** `handleDeletion`. */
    method HandleDeletion(name: string)
      requires name in server.policies && server.policies[name].deleting
      modifies server`auths, server`policies
      ensures Reconciles(old(server.Snapshot()), name, server.Snapshot())
    {
      var policy := server.policies[name];
      if policy.finalizer {
        ghost var before := server.auths;
        for i := 0 to |policy.refs|
          invariant server.policies == old(server.policies)
          invariant forall key :: server.auths.Get(key) ==
                      if key in policy.refs[..i] then Deleted(before.Get(key)) else before.Get(key)
          invariant Honest(before, server.auths)
        {
          assert policy.refs[..i + 1] == policy.refs[..i] + [policy.refs[i]];
          DeleteModel(policy.refs[i]);
        }
        assert policy.refs[..|policy.refs|] == policy.refs;
        CleanupStale(name, policy.refs);
        server.policies := server.policies - {name};
      }
    }

    /** `Reconcile`, including `reconcileModelAuthPolicies`. */
    method Reconcile(name: string) returns (ok: bool)
      modifies server`auths, server`policies
      ensures Reconciles(old(server.Snapshot()), name, server.Snapshot())
      ensures ok <==> Succeeds(old(server.Snapshot()), name)
    {
      if name !in server.policies { return true; }
      if server.policies[name].deleting {
        HandleDeletion(name);
        return true;
      }
      ghost var s := server.Snapshot();
      server.policies := server.policies[name := server.policies[name].(finalizer := true)];
      ok := ReconcileModels(s, name);
    }

    method ReconcileModels(ghost s: State, name: string) returns (ok: bool)
      requires name in server.policies && !server.policies[name].deleting
      requires SameInputs(s, server.Snapshot()) && server.auths == s.auths
      modifies server`auths
      ensures forall key :: server.auths.Get(key) == After(s, name, key)
      ensures Honest(s.auths, server.auths)
      ensures ok <==> Reached(s, server.policies[name].refs) == server.policies[name].refs
    {
      var refs := server.policies[name].refs;
      for i := 0 to |refs|
        invariant forall j :: 0 <= j < i ==> !RefError(s, refs[j])
        invariant server.auths == ApplyRefs(s, s.auths, refs[..i])
      {
        InputsDecide(s, server.Snapshot(), refs[i], server.auths.Get(refs[i]));
        assert refs[..i + 1][..i] == refs[..i];
        ok := ReconcileRef(refs[i]);
        if !ok {
          ReachedPrefix(s, refs, i);
          RoundMeetsAfter(s, name, server.auths, server.auths);
          return false;
        }
      }
      ReachedPrefix(s, refs, |refs|);
      assert refs[..|refs|] == refs;
      ghost var mid := server.auths;
      CleanupStale(name, refs);
      RoundMeetsAfter(s, name, mid, server.auths);
      return true;
    }
  }
}
