/** What one reconcile of a MaaSAuthPolicy leaves, in terms of the objects in the cluster
    (maas-controller/pkg/controller/maas/maasauthpolicy_controller.go, annotations.go). */
module AuthMeaning {
  import opened Strings
  import opened Sorting
  import opened Cluster
  import opened AuthPolicies
  import AuthConvergence

  // ---- Models ----

  /** The model exists, is not being deleted, is of a known kind, and its route exists. */
  ghost predicate Served(s: State, key: Key) {
    key in s.models && !s.models[key].deleting && s.models[key].knownKind && key in s.routes
  }

  ghost predicate Gone(s: State, key: Key) {
    key !in s.models || s.models[key].deleting
  }

  ghost predicate OddKind(s: State, key: Key) {
    key in s.models && !s.models[key].deleting && !s.models[key].knownKind
  }

  lemma Resolution(s: State, key: Key)
    ensures Served(s, key) <==> Resolve(s, key).Route?
    ensures Served(s, key) ==> Resolve(s, key) == Route(s.routes[key])
    ensures Gone(s, key) <==> Resolve(s, key).ModelMissing?
    ensures OddKind(s, key) <==> Resolve(s, key).UnknownKind?
    ensures !Served(s, key) && !Gone(s, key) && !OddKind(s, key) <==> Resolve(s, key).RouteMissing?
  {
  }

  // ---- Policies ----

  /** `p` is a live policy with a reference to the model. */
  ghost predicate Grants(s: State, p: string, key: Key) {
    && p in s.policies && !s.policies[p].deleting
    && exists i :: 0 <= i < |s.policies[p].refs| && s.policies[p].refs[i] == key
  }

  lemma GrantsIff(s: State, p: string, key: Key)
    ensures Grants(s, p, key) <==> p in LiveParents(s, key)
  {
  }

  /** `a` lets in exactly the groups and users of the policies that grant the model, each once and in order, names
      exactly those policies in its annotation, and targets the model's route. */
  ghost predicate UnionOf(s: State, key: Key, a: AuthPolicy) {
    && StrictlyIncreasing(a.groups)
    && (forall g :: g in a.groups <==> exists p :: Grants(s, p, key) && g in s.policies[p].groups)
    && StrictlyIncreasing(a.users)
    && (forall u :: u in a.users <==> exists p :: Grants(s, p, key) && u in s.policies[p].users)
    && (exists names :: StrictlyIncreasing(names) && a.contributors == Join(names, ',') &&
                        forall p :: p in names <==> Grants(s, p, key))
    && key in s.routes && a.route == s.routes[key]
  }

  lemma GroupsAreGranted(s: State, key: Key, g: string)
    ensures g in AllowedGroups(s, key) <==> exists p :: Grants(s, p, key) && g in s.policies[p].groups
    ensures g in AllowedUsers(s, key) <==> exists p :: Grants(s, p, key) && g in s.policies[p].users
  {
    forall p ensures Grants(s, p, key) <==> p in LiveParents(s, key) {
      GrantsIff(s, p, key);
    }
  }

  lemma MembersAreElems(a: seq<string>, e: set<string>)
    ensures Elems(a) == e <==> forall x :: x in a <==> x in e
  {
  }

  /** The union determines everything but the annotation of the user and the history. */
  lemma UnionIff(s: State, key: Key, a: AuthPolicy)
    requires Served(s, key)
    ensures UnionOf(s, key, a) <==> a == Aggregate(s, key, a.managed, a.optedOutOnce)
  {
    Resolution(s, key);
    forall g ensures (g in AllowedGroups(s, key) <==> exists p :: Grants(s, p, key) && g in s.policies[p].groups)
      ensures (g in AllowedUsers(s, key) <==> exists p :: Grants(s, p, key) && g in s.policies[p].users)
    {
      GroupsAreGranted(s, key, g);
    }
    forall p ensures Grants(s, p, key) <==> p in LiveParents(s, key) {
      GrantsIff(s, p, key);
    }
    if UnionOf(s, key, a) {
      var names :| StrictlyIncreasing(names) && a.contributors == Join(names, ',') &&
                   forall p :: p in names <==> Grants(s, p, key);
      MembersAreElems(names, LiveParents(s, key));
      MembersAreElems(a.groups, AllowedGroups(s, key));
      MembersAreElems(a.users, AllowedUsers(s, key));
      IncreasingUnique(names, Arranged(LiveParents(s, key)));
      IncreasingUnique(a.groups, Arranged(AllowedGroups(s, key)));
      IncreasingUnique(a.users, Arranged(AllowedUsers(s, key)));
    }
    if a == Aggregate(s, key, a.managed, a.optedOutOnce) {
      MembersAreElems(Arranged(LiveParents(s, key)), LiveParents(s, key));
      MembersAreElems(a.groups, AllowedGroups(s, key));
      MembersAreElems(a.users, AllowedUsers(s, key));
      assert a.contributors == Join(Arranged(LiveParents(s, key)), ',');
    }
  }

  // ---- Errors ----

  /** A double quote or a backslash. */
  ghost predicate Unsafe(v: string) {
    exists i :: 0 <= i < |v| && (v[i] as int == 0x22 || v[i] as int == 0x5C)
  }

  /** Reconciling a reference to `key` is an error: the kind is unknown, or something that goes into a CEL rule of a
      served model is unsafe. */
  ghost predicate Erring(s: State, key: Key) {
    || OddKind(s, key)
    || (Served(s, key) &&
        (Unsafe(key.ns) || Unsafe(key.name) ||
         exists p, v :: Grants(s, p, key) && (v in s.policies[p].groups || v in s.policies[p].users) && Unsafe(v)))
  }

  lemma UnsafeIff(v: string)
    ensures Unsafe(v) <==> !CelValue(v)
  {
    if !CelValue(v) {
      if '"' in v {
        var i :| 0 <= i < |v| && v[i] == '"';
      } else {
        var i :| 0 <= i < |v| && v[i] == '\\';
      }
    }
  }

  lemma ErringIff(s: State, key: Key)
    ensures Erring(s, key) <==> RefError(s, key)
  {
    Resolution(s, key);
    UnsafeIff(key.ns);
    UnsafeIff(key.name);
    forall v ensures Unsafe(v) <==> !CelValue(v) {
      UnsafeIff(v);
    }
    forall v ensures v in AllowedGroups(s, key) + AllowedUsers(s, key) <==>
                     exists p :: Grants(s, p, key) && (v in s.policies[p].groups || v in s.policies[p].users) {
      GroupsAreGranted(s, key, v);
    }
  }

  // ---- One reference ----

  ghost predicate OptedOut(cur: Option<AuthPolicy>) {
    cur.Some? && cur.value.managed == Some("false")
  }

  /** What reconciling a reference to `key` leaves: the union on a served model, nothing for one that is gone, and what
      was there while a route is missing; but an object annotated "false", and no other, is left as it is. */
  ghost predicate Rebuilt(s: State, key: Key, cur: Option<AuthPolicy>, after: Option<AuthPolicy>) {
    if OptedOut(cur) then after == cur
    else if Gone(s, key) then after == None
    else if Served(s, key) then
      && after.Some? && UnionOf(s, key, after.value)
      && after.value.managed == (if cur.Some? then cur.value.managed else None)
    else after == cur
  }

  lemma RebuiltByRef(s: State, key: Key, cur: Option<AuthPolicy>)
    requires !Erring(s, key)
    ensures Rebuilt(s, key, cur, AfterRef(s, key, cur))
  {
    Resolution(s, key);
    ErringIff(s, key);
    if Served(s, key) && !OptedOut(cur) {
      UnionIff(s, key, AfterRef(s, key, cur).value);
    }
  }

  /** What deleting the object of `key` leaves. */
  ghost predicate Removed(cur: Option<AuthPolicy>, after: Option<AuthPolicy>) {
    after == if OptedOut(cur) then cur else None
  }

  /** The annotation names the policy. */
  ghost predicate Named(cur: Option<AuthPolicy>, p: string) {
    cur.Some? && p in Split(cur.value.contributors, ',')
  }

  // ---- One reconcile ----

  lemma {:induction false} ReachedIs(s: State, refs: seq<Key>, n: nat)
    requires n <= |refs| && (forall i :: 0 <= i < n ==> !Erring(s, refs[i])) && (n < |refs| ==> Erring(s, refs[n]))
    ensures Reached(s, refs) == refs[..n]
  {
    forall i | 0 <= i < |refs| ensures Erring(s, refs[i]) <==> RefError(s, refs[i]) {
      ErringIff(s, refs[i]);
    }
    ReachedPrefix(s, refs, n);
  }

  /** A live policy without an error: its references are rebuilt in one go, and managed objects that name it but are no
      longer referenced are removed; nothing else changes. */
  lemma LiveReconcile(s: State, p: string, s': State, key: Key)
    requires Reconciles(s, p, s') && p in s.policies && !s.policies[p].deleting
    requires forall i :: 0 <= i < |s.policies[p].refs| ==> !Erring(s, s.policies[p].refs[i])
    ensures var cur, after := s.auths.Get(key), s'.auths.Get(key);
            if key in s.policies[p].refs then Rebuilt(s, key, cur, after)
            else if Named(cur, p) then Removed(cur, after)
            else after == cur
    ensures s' == s.(policies := s.policies[p := s.policies[p].(finalizer := true)], auths := s'.auths)
  {
    var refs := s.policies[p].refs;
    ReachedIs(s, refs, |refs|);
    assert refs[..|refs|] == refs;
    assert s'.auths.Get(key) == After(s, p, key);
    if key in refs {
      var i :| 0 <= i < |refs| && refs[i] == key;
      RebuiltByRef(s, key, s.auths.Get(key));
    }
  }

  /** With an error at reference `n`: the references before it are rebuilt, and nothing else changes. */
  lemma ErringReconcile(s: State, p: string, s': State, n: nat, key: Key)
    requires Reconciles(s, p, s') && p in s.policies && !s.policies[p].deleting && n < |s.policies[p].refs|
    requires Erring(s, s.policies[p].refs[n]) && forall i :: 0 <= i < n ==> !Erring(s, s.policies[p].refs[i])
    ensures var cur, after := s.auths.Get(key), s'.auths.Get(key);
            if exists i :: 0 <= i < n && s.policies[p].refs[i] == key then Rebuilt(s, key, cur, after) else after == cur
    ensures s' == s.(policies := s.policies[p := s.policies[p].(finalizer := true)], auths := s'.auths)
  {
    var refs := s.policies[p].refs;
    ReachedIs(s, refs, n);
    assert |refs[..n]| != |refs|;
    assert s'.auths.Get(key) == After(s, p, key);
    assert key in refs[..n] <==> exists i :: 0 <= i < n && refs[i] == key;
    if key in refs[..n] {
      RebuiltByRef(s, key, s.auths.Get(key));
    }
  }

  /** Finalizing a policy removes the objects of all models it references, and those that name it, unless annotated
      "false", and then the policy; nothing else changes. */
  lemma DeletingReconcile(s: State, p: string, s': State, key: Key)
    requires Reconciles(s, p, s') && p in s.policies && s.policies[p].deleting
    ensures !s.policies[p].finalizer ==> s' == s
    ensures s.policies[p].finalizer ==>
            var cur, after := s.auths.Get(key), s'.auths.Get(key);
            && (if key in s.policies[p].refs || Named(cur, p) then Removed(cur, after) else after == cur)
            && s' == s.(policies := s.policies - {p}, auths := s'.auths)
  {
    assert s'.auths.Get(key) == After(s, p, key);
    if !s.policies[p].finalizer {
      forall k ensures s.auths.Get(k) == s'.auths.Get(k) {
        assert s'.auths.Get(k) == After(s, p, k);
      }
    }
  }

  /** The opt-out, exactly: when a live policy reaches a served model that has an AuthPolicy, the object there is the
      union afterwards if and only if it is not annotated "false", or it was the union already. */
  lemma OptOutIff(s: State, p: string, s': State, key: Key)
    requires Reconciles(s, p, s') && Served(s, key) && s.auths.Get(key).Some? && AuthConvergence.ReachedBy(s, p, key)
    ensures s'.auths.Get(key).Some?
    ensures UnionOf(s, key, s'.auths.Get(key).value) <==>
            s.auths.Get(key).value.managed != Some("false") || UnionOf(s, key, s.auths.Get(key).value)
  {
    AuthConvergence.ReachedIsParent(s, p, key);
    assert s'.auths.Get(key) == AfterRef(s, key, s.auths.Get(key)) by {
      assert s'.auths.Get(key) == After(s, p, key);
    }
    ErringIff(s, key);
    RebuiltByRef(s, key, s.auths.Get(key));
  }
}
