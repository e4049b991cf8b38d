/** What selection and listing answer, in terms of the fields of the subscriptions and the request
    (maas-api/internal/subscription/selector.go:68-234, 449-622). */
module SelectionMeaning {
  import opened Strings
  import opened Sorting
  import opened Selector
  import opened SelectionOrder

  // ---- Owners ----

  /** The user is an owner, or some requested group, stripped of surrounding white space, is. */
  ghost predicate Owned(s: Subscription, username: string, groups: seq<string>) {
    || (exists i :: 0 <= i < |s.users| && s.users[i] == username)
    || (exists i, j :: 0 <= i < |groups| && 0 <= j < |s.groups| && Trim(groups[i]) == s.groups[j])
  }

  lemma AccessIsOwnership(s: Subscription, username: string, groups: seq<string>)
    ensures UserHasAccess(s, username, groups) <==> Owned(s, username, groups)
  {
    if g :| g in groups && Trim(g) in s.groups {
      var i :| 0 <= i < |groups| && groups[i] == g;
      var j :| 0 <= j < |s.groups| && s.groups[j] == Trim(g);
      assert Trim(groups[i]) == s.groups[j];
    }
  }

  // ---- Models ----

  ghost predicate Serves(s: Subscription, model: string) {
    model == "" || exists i :: 0 <= i < |s.modelRefs| && s.modelRefs[i].ns + "/" + s.modelRefs[i].name == model
  }

  /** Namespaces are DNS labels. */
  ghost predicate PlainRefs(s: Subscription) {
    forall i :: 0 <= i < |s.modelRefs| ==> '/' !in s.modelRefs[i].ns
  }

  lemma IncludesIsServing(s: Subscription, model: string)
    requires PlainRefs(s)
    ensures IncludesModel(s, model) <==> Serves(s, model)
  {
    if model != "" {
      if i :| 0 <= i < |s.modelRefs| && s.modelRefs[i].ns + "/" + s.modelRefs[i].name == model {
        CutGlue(s.modelRefs[i].ns, '/', s.modelRefs[i].name);
        assert s.modelRefs[i] in s.modelRefs;
      }
      if IncludesModel(s, model) {
        var parts := Cut(model, '/').value;
        var ref :| ref in s.modelRefs && ref.ns == parts.0 && ref.name == parts.1;
        var i :| 0 <= i < |s.modelRefs| && s.modelRefs[i] == ref;
        assert s.modelRefs[i].ns + "/" + s.modelRefs[i].name == model;
      }
    }
  }

  // ---- Health ----

  /** Reference `i` is the first to the model. */
  ghost predicate FirstRef(s: Subscription, model: string, i: int) {
    && 0 <= i < |s.modelRefs| && s.modelRefs[i].ns + "/" + s.modelRefs[i].name == model
    && forall j :: 0 <= j < i ==> s.modelRefs[j].ns + "/" + s.modelRefs[j].name != model
  }

  /** Status `k` is the first for the bare model name. */
  ghost predicate FirstStatus(s: Subscription, name: string, k: int) {
    && 0 <= k < |s.trlpStatuses| && s.trlpStatuses[k].model == name
    && forall l :: 0 <= l < k ==> s.trlpStatuses[l].model != name
  }

  /** The first reference has no rate limit, or the first status for its bare name is ready. */
  ghost predicate Enforced(s: Subscription, model: string) {
    exists i :: FirstRef(s, model, i) &&
                (s.modelRefs[i].limits == [] ||
                 exists k :: FirstStatus(s, s.modelRefs[i].name, k) && s.trlpStatuses[k].ready)
  }

  ghost predicate Healthy(s: Subscription, model: string) {
    if model == "" then s.phase != "" && s.phase != "Failed"
    else s.phase == "Active" || (s.phase == "Degraded" && Enforced(s, model))
  }

  lemma {:induction false} FirstRefDecides(s: Subscription, model: string, ns: string, name: string, i: nat, from: nat)
    requires PlainRefs(s) && '/' !in ns && ns + "/" + name == model && FirstRef(s, model, i) && from <= i
    ensures HasRateLimits(s.modelRefs[from..], ns, name) == (s.modelRefs[i].limits != [])
    decreases i - from
  {
    var ref := s.modelRefs[from];
    SameModelIff(ref, ns, name);
    if from < i {
      assert s.modelRefs[from..][1..] == s.modelRefs[from + 1..];
      FirstRefDecides(s, model, ns, name, i, from + 1);
    }
  }

  lemma SameModelIff(ref: ModelRefInfo, ns: string, name: string)
    requires '/' !in ref.ns && '/' !in ns
    ensures ref.ns + "/" + ref.name == ns + "/" + name <==> ref.ns == ns && ref.name == name
  {
    if ref.ns + "/" + ref.name == ns + "/" + name {
      GlueInjective(ref.ns, ref.name, ns, name, '/');
    }
  }

  lemma {:induction false} FirstStatusDecides(s: Subscription, name: string, from: nat)
    requires from <= |s.trlpStatuses| && forall l :: 0 <= l < from ==> s.trlpStatuses[l].model != name
    ensures TrlpReady(s.trlpStatuses[from..], name) <==> exists k :: FirstStatus(s, name, k) && s.trlpStatuses[k].ready
    decreases |s.trlpStatuses| - from
  {
    if from < |s.trlpStatuses| {
      assert s.trlpStatuses[from..][0] == s.trlpStatuses[from];
      if s.trlpStatuses[from].model == name {
        assert FirstStatus(s, name, from);
        forall k | FirstStatus(s, name, k) ensures k == from {
          assert !(from < k) && !(k < from);
        }
      } else {
        assert s.trlpStatuses[from..][1..] == s.trlpStatuses[from + 1..];
        FirstStatusDecides(s, name, from + 1);
      }
    }
  }

  lemma {:induction false} FirstRefExists(s: Subscription, model: string, n: nat) returns (i: nat)
    requires n < |s.modelRefs| && s.modelRefs[n].ns + "/" + s.modelRefs[n].name == model
    ensures FirstRef(s, model, i)
  {
    if j :| 0 <= j < n && s.modelRefs[j].ns + "/" + s.modelRefs[j].name == model {
      i := FirstRefExists(s, model, j);
    } else {
      i := n;
    }
  }

  /** With `i` the first reference to the model, enforcement is about that reference. */
  lemma EnforcedAt(s: Subscription, model: string, i: nat)
    requires FirstRef(s, model, i)
    ensures Enforced(s, model) <==>
            s.modelRefs[i].limits == [] ||
            exists k :: FirstStatus(s, s.modelRefs[i].name, k) && s.trlpStatuses[k].ready
  {
    forall j | FirstRef(s, model, j) ensures j == i {
      assert !(j < i) && !(i < j);
    }
  }

  lemma EnforcedIff(s: Subscription, model: string)
    requires PlainRefs(s) && model != "" && Serves(s, model)
    ensures Cut(model, '/').Some?
    ensures var (ns, name) := Cut(model, '/').value;
            Enforced(s, model) <==> !HasRateLimits(s.modelRefs, ns, name) || TrlpReady(s.trlpStatuses, name)
  {
    var n :| 0 <= n < |s.modelRefs| && s.modelRefs[n].ns + "/" + s.modelRefs[n].name == model;
    var i := FirstRefExists(s, model, n);
    EnforcedAt(s, model, i);
    FirstRefGate(s, model, i);
  }

  lemma FirstRefGate(s: Subscription, model: string, i: nat)
    requires PlainRefs(s) && FirstRef(s, model, i)
    ensures Cut(model, '/') == Some((s.modelRefs[i].ns, s.modelRefs[i].name))
    ensures HasRateLimits(s.modelRefs, s.modelRefs[i].ns, s.modelRefs[i].name) <==> s.modelRefs[i].limits != []
    ensures TrlpReady(s.trlpStatuses, s.modelRefs[i].name) <==>
            exists k :: FirstStatus(s, s.modelRefs[i].name, k) && s.trlpStatuses[k].ready
  {
    var ref := s.modelRefs[i];
    CutGlue(ref.ns, '/', ref.name);
    assert ref.ns + ['/'] + ref.name == ref.ns + "/" + ref.name;
    FirstRefDecides(s, model, ref.ns, ref.name, i, 0);
    assert s.modelRefs[0..] == s.modelRefs && s.trlpStatuses[0..] == s.trlpStatuses;
    FirstStatusDecides(s, ref.name, 0);
  }

  lemma HealthIff(s: Subscription, model: string)
    requires PlainRefs(s) && Serves(s, model)
    ensures CheckModelHealth(s, model).None? <==> Healthy(s, model)
    ensures CheckModelHealth(s, model).Some? ==>
            var e := CheckModelHealth(s, model).value;
            e.ModelUnhealthy? && e.subscription == s.name && e.phase == s.phase
  {
    if model != "" {
      EnforcedIff(s, model);
    }
  }

  // ---- One subscription ----

  /** Every field of the response is that of the subscription; a missing deletion time is empty. */
  ghost predicate Mirrors(r: Response, s: Subscription) {
    && r.name == s.name && r.ns == s.ns && r.displayName == s.displayName && r.description == s.description
    && r.priority == s.priority && r.modelRefs == s.modelRefs && r.organizationId == s.organizationId
    && r.costCenter == s.costCenter && r.labels == s.labels && r.phase == s.phase && r.ready == s.ready
    && (s.deletionTimestamp == Some(r.deletionTimestamp) || (s.deletionTimestamp.None? && r.deletionTimestamp == ""))
  }

  lemma ResponseMirrors(r: Response, s: Subscription)
    ensures Mirrors(r, s) <==> r == ToResponse(s)
  {
  }

  ghost predicate Asked(s: Subscription, q: Query) {
    q.subscription == "" || q.subscription == s.name || q.subscription == s.ns + "/" + s.name
  }

  /** The answer to a request when `s` is the only subscription: who gets it, who gets which error. */
  lemma LoneSelection(s: Subscription, q: Query, r: Response)
    requires PlainName(s) && PlainRefs(s) && (q.groups != [] || q.username != "")
    ensures Selected([s], q) == Ok(r) <==>
            && Asked(s, q) && Owned(s, q.username, q.groups) && Serves(s, q.model) && Healthy(s, q.model)
            && Mirrors(r, s)
    ensures !Asked(s, q) ==> Selected([s], q) == Err(SubscriptionNotFound(q.subscription))
    ensures q.subscription == "" && !(Owned(s, q.username, q.groups) && Serves(s, q.model)) ==>
            Selected([s], q) == Err(NoSubscription)
    ensures q.subscription != "" && Asked(s, q) && !Owned(s, q.username, q.groups) ==>
            Selected([s], q) == Err(AccessDenied(q.subscription))
    ensures q.subscription != "" && Asked(s, q) && Owned(s, q.username, q.groups) && !Serves(s, q.model) ==>
            Selected([s], q) == Err(ModelNotInSubscription(q.subscription, q.model))
    ensures Asked(s, q) && Owned(s, q.username, q.groups) && Serves(s, q.model) && !Healthy(s, q.model) ==>
            var a := Selected([s], q);
            a.Err? && a.error.ModelUnhealthy? && a.error.subscription == s.name && a.error.phase == s.phase
  {
    AccessIsOwnership(s, q.username, q.groups);
    IncludesIsServing(s, q.model);
    ResponseMirrors(r, s);
    if Serves(s, q.model) {
      HealthIff(s, q.model);
    }
    if q.subscription == "" {
      LoneAutomatic(s, q);
    } else if Asked(s, q) {
      ExplicitReaches([s], s, q);
    } else {
      LoneUnnamed(s, q);
    }
  }

  lemma SortOne(s: Subscription)
    ensures Sort([s], PriorityLess) == [s]
  {
    assert [s][..0] == [];
  }

  lemma LoneAutomatic(s: Subscription, q: Query)
    requires q.subscription == "" && (q.groups != [] || q.username != "")
    ensures Selected([s], q) ==
            if !Matches(s, q) then Err(NoSubscription)
            else if CheckModelHealth(s, q.model).Some? then Err(CheckModelHealth(s, q.model).value)
            else Ok(ToResponse(s))
  {
    SortOne(s);
    assert [s][..|[s]| - 1] == [] && Matching([], q) == [];
    assert Matching([s], q) == if Matches(s, q) then [s] else [];
  }

  lemma LoneUnnamed(s: Subscription, q: Query)
    requires q.subscription != "" && !Asked(s, q) && (q.groups != [] || q.username != "")
    ensures Selected([s], q) == Err(SubscriptionNotFound(q.subscription))
  {
    SortOne(s);
    assert [s][1..] == [];
  }

  // ---- Owners, by the request ----

  /** A healthy subscription owned by one group answers exactly the requests with a group that trims to it. */
  lemma GroupOwner(s: Subscription, g: string, q: Query)
    requires PlainName(s) && s.users == [] && s.groups == [g] && s.phase == "Active"
    requires q.model == "" && Asked(s, q) && (q.groups != [] || q.username != "") && PlainRefs(s)
    ensures Selected([s], q).Ok? <==> exists i :: 0 <= i < |q.groups| && Trim(q.groups[i]) == g
  {
    LoneSelection(s, q, ToResponse(s));
    ResponseMirrors(ToResponse(s), s);
    if i :| 0 <= i < |q.groups| && Trim(q.groups[i]) == g {
      assert Trim(q.groups[i]) == s.groups[0];
    }
    if Selected([s], q).Ok? {
      LoneSelection(s, q, Selected([s], q).value);
    }
  }

  /** One owned by a single user answers exactly that user. */
  lemma UserOwner(s: Subscription, u: string, q: Query)
    requires PlainName(s) && s.users == [u] && s.groups == [] && s.phase == "Active"
    requires q.model == "" && Asked(s, q) && (q.groups != [] || q.username != "") && PlainRefs(s)
    ensures Selected([s], q).Ok? <==> q.username == u
  {
    LoneSelection(s, q, ToResponse(s));
    ResponseMirrors(ToResponse(s), s);
    assert s.users[0] == u;
    if Selected([s], q).Ok? {
      LoneSelection(s, q, Selected([s], q).value);
    }
  }

  /** Joining two owner lists admits exactly those whom either admits, and nobody is admitted by an empty one. */
  lemma OwnersJoin(s: Subscription, a: Subscription, b: Subscription, q: Query)
    requires PlainName(s) && PlainRefs(s) && Asked(s, q) && (q.groups != [] || q.username != "")
    requires a == s.(users := a.users, groups := a.groups) && b == s.(users := b.users, groups := b.groups)
    requires s.users == a.users + b.users && s.groups == a.groups + b.groups
    ensures Selected([s], q).Ok? <==> Selected([a], q).Ok? || Selected([b], q).Ok?
    ensures a.users == [] && a.groups == [] ==> !Selected([a], q).Ok?
  {
    LoneOk(s, q);
    LoneOk(a, q);
    LoneOk(b, q);
    OwnedJoin(s, a, b, q.username, q.groups);
    SameHealth(s, a, q.model);
    SameHealth(s, b, q.model);
  }

  lemma LoneOk(s: Subscription, q: Query)
    requires PlainName(s) && PlainRefs(s) && (q.groups != [] || q.username != "")
    ensures Selected([s], q).Ok? <==>
            Asked(s, q) && Owned(s, q.username, q.groups) && Serves(s, q.model) && Healthy(s, q.model)
  {
    LoneSelection(s, q, ToResponse(s));
    ResponseMirrors(ToResponse(s), s);
    if Selected([s], q).Ok? {
      LoneSelection(s, q, Selected([s], q).value);
    }
  }

  lemma SameHealth(s: Subscription, a: Subscription, model: string)
    requires a == s.(users := a.users, groups := a.groups)
    ensures Healthy(s, model) <==> Healthy(a, model)
    ensures Serves(s, model) <==> Serves(a, model)
  {
    assert forall i :: FirstRef(s, model, i) <==> FirstRef(a, model, i);
    assert forall name, k :: FirstStatus(s, name, k) <==> FirstStatus(a, name, k);
  }

  lemma OwnedJoin(s: Subscription, a: Subscription, b: Subscription, username: string, groups: seq<string>)
    requires s.users == a.users + b.users && s.groups == a.groups + b.groups
    ensures Owned(s, username, groups) <==> Owned(a, username, groups) || Owned(b, username, groups)
  {
    AccessIsOwnership(s, username, groups);
    AccessIsOwnership(a, username, groups);
    AccessIsOwnership(b, username, groups);
  }

  // ---- Many subscriptions ----

  /** Each request against many subscriptions is one against a single one, or an error. */
  lemma NamedSelection(list: seq<Subscription>, q: Query)
    requires UniqueNames(list) && (forall s :: s in list ==> PlainName(s))
    requires q.subscription != "" && (q.groups != [] || q.username != "") && list != []
    ensures forall s :: s in list && Asked(s, q) ==> Selected(list, q) == Selected([s], q)
    ensures (forall s :: s in list ==> !Asked(s, q)) ==> Selected(list, q) == Err(SubscriptionNotFound(q.subscription))
  {
    forall s | s in list && Asked(s, q) ensures Selected(list, q) == Selected([s], q) {
      ExplicitReaches(list, s, q);
      ExplicitReaches([s], s, q);
    }
    if forall s :: s in list ==> !Asked(s, q) {
      SortPermutes(list, PriorityLess);
      SameElements(list, Sort(list, PriorityLess));
      var sorted := Sort(list, PriorityLess);
      var a, b := FirstQualified(sorted, q.subscription), FirstNamed(sorted, q.subscription);
      assert a.Some? ==> Asked(a.value, q);
      assert b.Some? ==> Asked(b.value, q);
    }
  }

  /** A name with a slash is only ever taken as a qualified one. */
  lemma SlashIsQualified(list: seq<Subscription>, q: Query)
    requires '/' in q.subscription && (q.groups != [] || q.username != "") && list != []
    requires forall s :: s in list ==> s.ns + "/" + s.name != q.subscription
    ensures Selected(list, q) == Err(SubscriptionNotFound(q.subscription))
  {
    var sorted := Sort(list, PriorityLess);
    SortPermutes(list, PriorityLess);
    SameElements(list, sorted);
  }

  /** A successful selection by name returns an owned subscription that the request names. */
  lemma NamedSource(list: seq<Subscription>, q: Query) returns (s: Subscription)
    requires q.subscription != "" && Selected(list, q).Ok?
    ensures s in list && Owned(s, q.username, q.groups) && Asked(s, q) && Mirrors(Selected(list, q).value, s)
  {
    var sorted := Sort(list, PriorityLess);
    SortPermutes(list, PriorityLess);
    SameElements(list, sorted);
    if FirstQualified(sorted, q.subscription).Some? {
      s := FirstQualified(sorted, q.subscription).value;
    } else {
      s := FirstNamed(sorted, q.subscription).value;
    }
    AccessIsOwnership(s, q.username, q.groups);
    ResponseMirrors(ToResponse(s), s);
  }

  ghost predicate Eligible(list: seq<Subscription>, q: Query, s: Subscription) {
    s in list && Owned(s, q.username, q.groups) && Serves(s, q.model)
  }

  lemma EligibleIff(list: seq<Subscription>, q: Query, s: Subscription)
    requires forall x :: x in list ==> PlainRefs(x)
    ensures Eligible(list, q, s) <==> s in list && Matches(s, q)
  {
    AccessIsOwnership(s, q.username, q.groups);
    if s in list {
      IncludesIsServing(s, q.model);
    }
  }

  /** What automatic selection finds are the eligible subscriptions. */
  lemma FoundAreEligible(list: seq<Subscription>, q: Query)
    requires forall s :: s in list ==> PlainRefs(s)
    ensures forall s :: s in Matching(Sort(list, PriorityLess), q) <==> Eligible(list, q, s)
  {
    var sorted := Sort(list, PriorityLess);
    MatchingMembers(sorted, q);
    SortPermutes(list, PriorityLess);
    SameElements(list, sorted);
    forall s ensures s in Matching(sorted, q) <==> Eligible(list, q, s) {
      EligibleIff(list, q, s);
    }
  }

  /** A single one answers as if it were alone. */
  lemma SoleEligible(list: seq<Subscription>, q: Query, s: Subscription)
    requires UniqueNames(list) && (forall x :: x in list ==> PlainRefs(x))
    requires q.subscription == "" && (q.groups != [] || q.username != "")
    requires Eligible(list, q, s) && forall x :: Eligible(list, q, x) ==> x == s
    ensures Selected(list, q) == Selected([s], q)
  {
    forall x | x in list && Matches(x, q) ensures x == s {
      EligibleIff(list, q, x);
    }
    EligibleIff(list, q, s);
    SoleMatch(list, q, s);
    LoneAutomatic(s, q);
  }

  /** No subscription precedes an earlier one. */
  ghost predicate InOrder(found: seq<Subscription>) {
    forall i, j :: 0 <= i < j < |found| ==> NotAfter(found[i], found[j])
  }

  ghost predicate Named(found: seq<Subscription>, names: seq<string>) {
    |names| == |found| && forall i :: 0 <= i < |found| ==> names[i] == found[i].name
  }

  lemma FoundInOrder(list: seq<Subscription>, q: Query)
    ensures InOrder(Matching(Sort(list, PriorityLess), q))
  {
    var sorted := Sort(list, PriorityLess);
    SortedList(list);
    MatchingSorted(sorted, q);
    var found := Matching(sorted, q);
    forall i, j | 0 <= i < j < |found| ensures NotAfter(found[i], found[j]) {
      NotAfterIff(found[i], found[j]);
    }
  }

  /** Several are an error that names exactly those, in order. */
  lemma SeveralEligible(list: seq<Subscription>, q: Query, s: Subscription, t: Subscription)
    requires forall x :: x in list ==> PlainRefs(x)
    requires q.subscription == "" && (q.groups != [] || q.username != "")
    requires Eligible(list, q, s) && Eligible(list, q, t) && s != t
    ensures Selected(list, q).Err? && Selected(list, q).error.MultipleSubscriptions?
    ensures forall n :: n in Selected(list, q).error.subscriptions <==> exists x :: Eligible(list, q, x) && x.name == n
    ensures exists found :: InOrder(found) && (forall x :: x in found <==> Eligible(list, q, x)) &&
                            Named(found, Selected(list, q).error.subscriptions)
  {
    var found := Matching(Sort(list, PriorityLess), q);
    FoundAreEligible(list, q);
    FoundInOrder(list, q);
    assert Named(found, Names(found));
    var i :| 0 <= i < |found| && found[i] == s;
    var j :| 0 <= j < |found| && found[j] == t;
    NamesAre(found);
  }

  /** Without a name, no eligible subscription is an error. */
  lemma NoneEligible(list: seq<Subscription>, q: Query)
    requires forall s :: s in list ==> PlainRefs(s)
    requires q.subscription == "" && (q.groups != [] || q.username != "") && forall s :: !Eligible(list, q, s)
    ensures Selected(list, q) == Err(NoSubscription)
  {
    var found := Matching(Sort(list, PriorityLess), q);
    FoundAreEligible(list, q);
    HeadIsMember(found);
  }

  lemma HeadIsMember<T>(s: seq<T>)
    ensures s != [] ==> s[0] in s
  {
  }

  lemma NamesAre(found: seq<Subscription>)
    ensures forall n :: n in Names(found) <==> exists x :: x in found && x.name == n
  {
    forall x | x in found ensures x.name in Names(found) {
      var i :| 0 <= i < |found| && found[i] == x;
      assert Names(found)[i] == x.name;
    }
  }

  /** A request without an identity, or without any subscription, is refused before anything else. */
  lemma RefusedOutright(list: seq<Subscription>, q: Query)
    ensures q.groups == [] && q.username == "" ==>
            && Selected(list, q) == Err(MissingIdentity)
            && HighestPriority(list, q.groups, q.username) == Err(MissingIdentity)
            && Accessible(list, q.groups, q.username) == Err(MissingIdentity)
    ensures (q.groups != [] || q.username != "") && list == [] ==> Selected(list, q) == Err(NoSubscription)
  {
  }

  // ---- Highest priority ----

  /** `m` is the largest positive limit of any model, or 0. */
  ghost predicate LargestLimit(s: Subscription, m: int) {
    && m >= 0
    && (forall i, j :: 0 <= i < |s.modelRefs| && 0 <= j < |s.modelRefs[i].limits| ==>
          s.modelRefs[i].limits[j].limit <= m)
    && (m > 0 ==> exists i, j :: 0 <= i < |s.modelRefs| && 0 <= j < |s.modelRefs[i].limits| &&
                                 s.modelRefs[i].limits[j].limit == m)
  }

  lemma {:induction false} LargestOfLimits(limits: seq<RateLimit>)
    ensures MaxOfLimits(limits) >= 0 && forall j :: 0 <= j < |limits| ==> limits[j].limit <= MaxOfLimits(limits)
    ensures MaxOfLimits(limits) > 0 ==> exists j :: 0 <= j < |limits| && limits[j].limit == MaxOfLimits(limits)
  {
    if limits != [] {
      LargestOfLimits(limits[1..]);
      if MaxOfLimits(limits) > 0 && MaxOfLimits(limits) != limits[0].limit {
        var j :| 0 <= j < |limits[1..]| && limits[1..][j].limit == MaxOfLimits(limits[1..]);
        assert limits[j + 1].limit == MaxOfLimits(limits);
      }
    }
  }

  lemma {:induction false} LargestOfRefs(refs: seq<ModelRefInfo>)
    ensures MaxOfRefs(refs) >= 0
    ensures forall i, j :: 0 <= i < |refs| && 0 <= j < |refs[i].limits| ==> refs[i].limits[j].limit <= MaxOfRefs(refs)
    ensures MaxOfRefs(refs) > 0 ==>
            exists i, j :: 0 <= i < |refs| && 0 <= j < |refs[i].limits| && refs[i].limits[j].limit == MaxOfRefs(refs)
  {
    if refs != [] {
      LargestOfLimits(refs[0].limits);
      LargestOfRefs(refs[1..]);
      if MaxOfRefs(refs) > 0 {
        if MaxOfRefs(refs) == MaxOfLimits(refs[0].limits) {
          var j :| 0 <= j < |refs[0].limits| && refs[0].limits[j].limit == MaxOfRefs(refs);
        } else {
          var i, j :| 0 <= i < |refs[1..]| && 0 <= j < |refs[1..][i].limits| &&
                      refs[1..][i].limits[j].limit == MaxOfRefs(refs[1..]);
          assert refs[i + 1].limits[j].limit == MaxOfRefs(refs);
        }
      }
    }
  }

  lemma LargestIff(s: Subscription, m: int)
    ensures LargestLimit(s, m) <==> m == MaxLimit(s)
  {
    LargestOfRefs(s.modelRefs);
  }

  /** `s` comes before `x` or ties with it: larger priority, then larger limit, then the smaller name. */
  ghost predicate NotAfter(s: Subscription, x: Subscription) {
    forall ls, lx :: LargestLimit(s, ls) && LargestLimit(x, lx) ==>
      || s.priority > x.priority
      || (s.priority == x.priority && (ls > lx || (ls == lx && !Less(x.name, s.name))))
  }

  lemma NotAfterIff(s: Subscription, x: Subscription)
    ensures NotAfter(s, x) <==> !PriorityLess(x, s)
  {
    LargestIff(s, MaxLimit(s));
    LargestIff(x, MaxLimit(x));
    forall ls, lx | LargestLimit(s, ls) && LargestLimit(x, lx) ensures ls == MaxLimit(s) && lx == MaxLimit(x) {
      LargestIff(s, ls);
      LargestIff(x, lx);
    }
  }

  /** Highest priority returns an owned subscription that no other owned one precedes, and an error only when the user
      owns none. */
  lemma HighestMeaning(list: seq<Subscription>, groups: seq<string>, username: string)
    requires groups != [] || username != ""
    ensures HighestPriority(list, groups, username).Ok? ==>
            exists s :: s in list && Owned(s, username, groups) &&
                        Mirrors(HighestPriority(list, groups, username).value, s) &&
                        forall x :: x in list && Owned(x, username, groups) ==> NotAfter(s, x)
    ensures HighestPriority(list, groups, username).Err? ==>
            HighestPriority(list, groups, username) == Err(NoSubscription) &&
            forall x :: x in list ==> !Owned(x, username, groups)
  {
    if HighestPriority(list, groups, username).Ok? {
      var s := HighestIsBest(list, groups, username);
      AccessIsOwnership(s, username, groups);
      ResponseMirrors(ToResponse(s), s);
      forall x | x in list && Owned(x, username, groups) ensures NotAfter(s, x) {
        AccessIsOwnership(x, username, groups);
        NotAfterIff(s, x);
      }
    } else {
      MatchingMembers(list, AnyModel(groups, username));
      forall x | x in list ensures !Owned(x, username, groups) {
        AccessIsOwnership(x, username, groups);
      }
    }
  }

  // ---- The listing ----

  ghost predicate Listed(s: Subscription, groups: seq<string>, username: string) {
    Owned(s, username, groups) && (s.phase == "Active" || s.phase == "Degraded") && s.deletionTimestamp == None
  }

  ghost function ListedAt(list: seq<Subscription>, groups: seq<string>, username: string): set<int> {
    set i | 0 <= i < |list| && Listed(list[i], groups, username)
  }

  lemma ListedSnoc(init: seq<Subscription>, s: Subscription, groups: seq<string>, username: string)
    ensures ListedAt(init + [s], groups, username) ==
            ListedAt(init, groups, username) + if Listed(s, groups, username) then {|init|} else {}
  {
  }

  lemma {:induction false} ListedCount(list: seq<Subscription>, groups: seq<string>, username: string)
    ensures |ListableResponses(list, groups, username)| == |ListedAt(list, groups, username)|
  {
    if list != [] {
      var init, n := list[..|list| - 1], |list| - 1;
      ListedCount(init, groups, username);
      AccessIsOwnership(list[n], username, groups);
      ListedSnoc(init, list[n], groups, username);
      assert list == init + [list[n]];
    } else {
      assert ListedAt(list, groups, username) == {};
    }
  }

  /** The listing holds exactly one response per owned, Active or Degraded, not deleting subscription, sorted by
      name. */
  lemma ListingMeaning(list: seq<Subscription>, groups: seq<string>, username: string)
    requires groups != [] || username != ""
    ensures Accessible(list, groups, username).Ok?
    ensures var rs := Accessible(list, groups, username).value;
            && (forall r :: r in rs <==> exists s :: s in list && Listed(s, groups, username) && Mirrors(r, s))
            && |rs| == |ListedAt(list, groups, username)|
            && forall i, j :: 0 <= i < j < |rs| ==> !Less(rs[j].name, rs[i].name)
  {
    var rs, unsorted := Accessible(list, groups, username).value, ListableResponses(list, groups, username);
    ListedMembers(list, groups, username);
    ListedCount(list, groups, username);
    SortPermutes(unsorted, NameLess);
    SameElements(unsorted, rs);
    OrdersAreWeak();
    SortSorts(unsorted, NameLess);
    forall s ensures Listable(s, groups, username) <==> Listed(s, groups, username) {
      AccessIsOwnership(s, username, groups);
    }
    forall r, s ensures Mirrors(r, s) <==> r == ToResponse(s) {
      ResponseMirrors(r, s);
    }
    forall i, j | 0 <= i < j < |rs| ensures !Less(rs[j].name, rs[i].name) {
      assert !NameLess(rs[j], rs[i]);
    }
  }
}
