/** Subscription selection (maas-api/internal/subscription/selector.go): explicit, bare, automatic and
    highest-priority selection, the health gate and the listing. */
module Selector {
  import opened Strings
  import opened Sorting

  datatype RateLimit = RateLimit(limit: int, window: string)

  datatype ModelRefInfo = ModelRefInfo(ns: string, name: string, limits: seq<RateLimit>)

  datatype TrlpStatus = TrlpStatus(model: string, name: string, ns: string, ready: bool, reason: string)

  datatype Subscription = Subscription(
    name: string, ns: string, displayName: string, description: string,
    groups: seq<string>, users: seq<string>, priority: int,
    organizationId: string, costCenter: string, labels: map<string, string>,
    modelRefs: seq<ModelRefInfo>, phase: string, ready: bool, deletionTimestamp: Option<string>,
    trlpStatuses: seq<TrlpStatus>)

  datatype Response = Response(
    name: string, ns: string, displayName: string, description: string, priority: int,
    modelRefs: seq<ModelRefInfo>, organizationId: string, costCenter: string, labels: map<string, string>,
    phase: string, ready: bool, deletionTimestamp: string)

  datatype Query = Query(groups: seq<string>, username: string, subscription: string, model: string)

  datatype SelectError =
    | MissingIdentity
    | NoSubscription
    | SubscriptionNotFound(subscription: string)
    | AccessDenied(subscription: string)
    | ModelNotInSubscription(subscription: string, model: string)
    | ModelUnhealthy(subscription: string, phase: string, reason: string)
    | MultipleSubscriptions(subscriptions: seq<string>)

  datatype Result<+T> = Ok(value: T) | Err(error: SelectError)

  const PENDING := "Pending"
  const ACTIVE := "Active"
  const DEGRADED := "Degraded"
  const FAILED := "Failed"

  // ---- One subscription ----

  /** `sub.MaxLimit`: the largest positive limit of any model reference. */
  function MaxLimit(sub: Subscription): int {
    MaxOfRefs(sub.modelRefs)
  }

  function MaxOfRefs(refs: seq<ModelRefInfo>): int {
    if refs == [] then 0 else Max(MaxOfLimits(refs[0].limits), MaxOfRefs(refs[1..]))
  }

  function MaxOfLimits(limits: seq<RateLimit>): int {
    if limits == [] then 0 else Max(limits[0].limit, MaxOfLimits(limits[1..]))
  }

  function Max(a: int, b: int): int {
    if a > b then a else b
  }

  predicate UserHasAccess(sub: Subscription, username: string, groups: seq<string>) {
    username in sub.users || exists g :: g in groups && Trim(g) in sub.groups
  }

  predicate IncludesModel(sub: Subscription, model: string) {
    model == "" ||
    match Cut(model, '/')
    case None => false
    case Some((ns, name)) => exists ref :: ref in sub.modelRefs && ref.ns == ns && ref.name == name
  }

  /** The first reference to the model decides whether it is rate limited. */
  function HasRateLimits(refs: seq<ModelRefInfo>, ns: string, name: string): bool {
    if refs == [] then false
    else if refs[0].ns == ns && refs[0].name == name then refs[0].limits != []
    else HasRateLimits(refs[1..], ns, name)
  }

  /** The first status recorded for the bare model name decides. */
  function TrlpReady(statuses: seq<TrlpStatus>, name: string): bool {
    if statuses == [] then false
    else if statuses[0].model == name then statuses[0].ready
    else TrlpReady(statuses[1..], name)
  }

  function CheckModelHealth(sub: Subscription, model: string): Option<SelectError> {
    if model == "" then
      if sub.phase == "" || sub.phase == FAILED then Some(ModelUnhealthy(sub.name, sub.phase, "SubscriptionNotReady"))
      else None
    else if sub.phase != ACTIVE && sub.phase != DEGRADED then
      Some(ModelUnhealthy(sub.name, sub.phase, "SubscriptionNotReady"))
    else if sub.phase != DEGRADED then None
    else match Cut(model, '/')
      case None => Some(ModelUnhealthy(sub.name, sub.phase, "InvalidModelFormat"))
      case Some((ns, name)) =>
        if !HasRateLimits(sub.modelRefs, ns, name) || TrlpReady(sub.trlpStatuses, name) then None
        else Some(ModelUnhealthy(sub.name, sub.phase, "RateLimitNotEnforced"))
  }

  function ToResponse(sub: Subscription): Response {
    Response(sub.name, sub.ns, sub.displayName, sub.description, sub.priority, sub.modelRefs, sub.organizationId,
             sub.costCenter, sub.labels, sub.phase, sub.ready,
             if sub.deletionTimestamp.Some? then sub.deletionTimestamp.value else "")
  }

  function QualifiedName(sub: Subscription): string {
    sub.ns + ['/'] + sub.name
  }

  // ---- Order ----

  /** Priority descending, then largest limit descending, then name ascending. */
  predicate PriorityLess(a: Subscription, b: Subscription) {
    if a.priority != b.priority then a.priority > b.priority
    else if MaxLimit(a) != MaxLimit(b) then MaxLimit(a) > MaxLimit(b)
    else Less(a.name, b.name)
  }

  predicate NameLess(a: Response, b: Response) {
    Less(a.name, b.name)
  }

  lemma OrdersAreWeak()
    ensures WeakOrder(PriorityLess) && WeakOrder(NameLess)
  {
    StringOrderIsWeak();
    forall a, b: Subscription | PriorityLess(a, b) ensures !PriorityLess(b, a) {
      assert Less(a.name, b.name) ==> !Less(b.name, a.name);
    }
    forall a, b, c: Subscription | !PriorityLess(b, a) && !PriorityLess(c, b) ensures !PriorityLess(c, a) {
      assert !Less(b.name, a.name) && !Less(c.name, b.name) ==> !Less(c.name, a.name);
    }
    forall a, b: Response | NameLess(a, b) ensures !NameLess(b, a) {
      assert Less(a.name, b.name) ==> !Less(b.name, a.name);
    }
    forall a, b, c: Response | !NameLess(b, a) && !NameLess(c, b) ensures !NameLess(c, a) {
      assert !Less(b.name, a.name) && !Less(c.name, b.name) ==> !Less(c.name, a.name);
    }
  }

  /** Kubernetes names are unique within the one watched namespace. */
  ghost predicate UniqueNames(subs: seq<Subscription>) {
    forall i, j :: 0 <= i < j < |subs| ==> subs[i].name != subs[j].name
  }

  lemma UniqueNamesDecide(subs: seq<Subscription>)
    requires UniqueNames(subs)
    ensures Decisive(subs, PriorityLess)
  {
    forall x, y | x in subs && y in subs && x != y ensures PriorityLess(x, y) || PriorityLess(y, x) {
      LessTrichotomy(x.name, y.name);
    }
  }

  // ---- Selection ----

  function Admit(sub: Subscription, q: Query): Result<Response> {
    if !UserHasAccess(sub, q.username, q.groups) then Err(AccessDenied(q.subscription))
    else if q.model != "" && !IncludesModel(sub, q.model) then Err(ModelNotInSubscription(q.subscription, q.model))
    else match CheckModelHealth(sub, q.model)
      case Some(e) => Err(e)
      case None => Ok(ToResponse(sub))
  }

  predicate Matches(sub: Subscription, q: Query) {
    UserHasAccess(sub, q.username, q.groups) && (q.model == "" || IncludesModel(sub, q.model))
  }

  function FirstQualified(subs: seq<Subscription>, name: string): (r: Option<Subscription>)
    ensures r.Some? ==> r.value in subs && QualifiedName(r.value) == name
    ensures r.None? ==> forall s :: s in subs ==> QualifiedName(s) != name
  {
    if subs == [] then None
    else if QualifiedName(subs[0]) == name then Some(subs[0])
    else FirstQualified(subs[1..], name)
  }

  function FirstNamed(subs: seq<Subscription>, name: string): (r: Option<Subscription>)
    ensures r.Some? ==> r.value in subs && r.value.name == name
    ensures r.None? ==> forall s :: s in subs ==> s.name != name
  {
    if subs == [] then None
    else if subs[0].name == name then Some(subs[0])
    else FirstNamed(subs[1..], name)
  }

  function Matching(subs: seq<Subscription>, q: Query): seq<Subscription> {
    if subs == [] then []
    else
      var last := subs[|subs| - 1];
      Matching(subs[..|subs| - 1], q) + (if Matches(last, q) then [last] else [])
  }

  function Names(subs: seq<Subscription>): seq<string> {
    seq(|subs|, i requires 0 <= i < |subs| => subs[i].name)
  }

  function SelectExplicit(sorted: seq<Subscription>, q: Query): Result<Response> {
    match FirstQualified(sorted, q.subscription)
    case Some(sub) => Admit(sub, q)
    case None =>
      if '/' in q.subscription then Err(SubscriptionNotFound(q.subscription))
      else match FirstNamed(sorted, q.subscription)
        case Some(sub) => Admit(sub, q)
        case None => Err(SubscriptionNotFound(q.subscription))
  }

  function SelectAutomatic(sorted: seq<Subscription>, q: Query): Result<Response> {
    var found := Matching(sorted, q);
    if found == [] then Err(NoSubscription)
    else if |found| > 1 then Err(MultipleSubscriptions(Names(found)))
    else match CheckModelHealth(found[0], q.model)
      case Some(e) => Err(e)
      case None => Ok(ToResponse(found[0]))
  }

  function Selected(list: seq<Subscription>, q: Query): Result<Response> {
    if q.groups == [] && q.username == "" then Err(MissingIdentity)
    else if list == [] then Err(NoSubscription)
    else
      var sorted := Sort(list, PriorityLess);
      if q.subscription != "" then SelectExplicit(sorted, q) else SelectAutomatic(sorted, q)
  }

  /** `Select`; its two branches follow. */
  method Select(list: seq<Subscription>, q: Query) returns (r: Result<Response>)
    ensures r == Selected(list, q)
  {
    if q.groups == [] && q.username == "" { return Err(MissingIdentity); }
    if list == [] { return Err(NoSubscription); }
    var subs := Sort(list, PriorityLess);
    if q.subscription != "" {
      r := SelectByName(subs, q);
    } else {
      r := SelectByAccess(subs, q);
    }
  }

  method SelectByName(subs: seq<Subscription>, q: Query) returns (r: Result<Response>)
    ensures r == SelectExplicit(subs, q)
  {
    for i := 0 to |subs|
      invariant FirstQualified(subs, q.subscription) == FirstQualified(subs[i..], q.subscription)
    {
      if QualifiedName(subs[i]) == q.subscription {
        return Admit(subs[i], q);
      }
    }
    if '/' !in q.subscription {
      for i := 0 to |subs|
        invariant FirstNamed(subs, q.subscription) == FirstNamed(subs[i..], q.subscription)
      {
        if subs[i].name == q.subscription {
          return Admit(subs[i], q);
        }
      }
    }
    return Err(SubscriptionNotFound(q.subscription));
  }

  method SelectByAccess(subs: seq<Subscription>, q: Query) returns (r: Result<Response>)
    ensures r == SelectAutomatic(subs, q)
  {
    var accessible := CollectMatching(subs, q);
    if accessible == [] { return Err(NoSubscription); }
    if |accessible| == 1 {
      var unhealthy := CheckModelHealth(accessible[0], q.model);
      if unhealthy.Some? { return Err(unhealthy.value); }
      return Ok(ToResponse(accessible[0]));
    }
    var names := [];
    for i := 0 to |accessible|
      invariant |names| == i && forall j :: 0 <= j < i ==> names[j] == accessible[j].name
    {
      names := names + [accessible[i].name];
    }
    assert names == Names(accessible);
    return Err(MultipleSubscriptions(names));
  }

  /** The loop that gathers accessible subscriptions, restricted to those with the model if one is asked for. */
  method CollectMatching(subs: seq<Subscription>, q: Query) returns (accessible: seq<Subscription>)
    ensures accessible == Matching(subs, q)
  {
    accessible := [];
    for i := 0 to |subs|
      invariant accessible == Matching(subs[..i], q)
    {
      assert subs[..i + 1][..i] == subs[..i];
      if UserHasAccess(subs[i], q.username, q.groups) {
        if q.model == "" || IncludesModel(subs[i], q.model) {
          accessible := accessible + [subs[i]];
        }
      }
    }
    assert subs[..|subs|] == subs;
  }

  function AnyModel(groups: seq<string>, username: string): Query {
    Query(groups, username, "", "")
  }

  function HighestPriority(list: seq<Subscription>, groups: seq<string>, username: string): Result<Response> {
    if groups == [] && username == "" then Err(MissingIdentity)
    else
      var accessible := Matching(list, AnyModel(groups, username));
      if accessible == [] then Err(NoSubscription)
      else
        SortPermutes(accessible, PriorityLess);
        SameElements(accessible, Sort(accessible, PriorityLess));
        Ok(ToResponse(Sort(accessible, PriorityLess)[0]))
  }

  method SelectHighestPriority(list: seq<Subscription>, groups: seq<string>, username: string)
    returns (r: Result<Response>)
    ensures r == HighestPriority(list, groups, username)
  {
    if groups == [] && username == "" { return Err(MissingIdentity); }
    if list == [] { return Err(NoSubscription); }
    var accessible := CollectMatching(list, AnyModel(groups, username));
    if accessible == [] { return Err(NoSubscription); }
    SortPermutes(accessible, PriorityLess);
    SameElements(accessible, Sort(accessible, PriorityLess));
    accessible := Sort(accessible, PriorityLess);
    return Ok(ToResponse(accessible[0]));
  }

  predicate Listable(sub: Subscription, groups: seq<string>, username: string) {
    UserHasAccess(sub, username, groups) && (sub.phase == ACTIVE || sub.phase == DEGRADED) &&
      sub.deletionTimestamp.None?
  }

  function ListableResponses(list: seq<Subscription>, groups: seq<string>, username: string): seq<Response> {
    if list == [] then []
    else
      var last := list[|list| - 1];
      ListableResponses(list[..|list| - 1], groups, username) +
      (if Listable(last, groups, username) then [ToResponse(last)] else [])
  }

  function Accessible(list: seq<Subscription>, groups: seq<string>, username: string): Result<seq<Response>> {
    if groups == [] && username == "" then Err(MissingIdentity)
    else Ok(Sort(ListableResponses(list, groups, username), NameLess))
  }

  method GetAllAccessible(list: seq<Subscription>, groups: seq<string>, username: string)
    returns (r: Result<seq<Response>>)
    ensures r == Accessible(list, groups, username)
  {
    if groups == [] && username == "" { return Err(MissingIdentity); }
    var accessible := [];
    for i := 0 to |list|
      invariant accessible == ListableResponses(list[..i], groups, username)
    {
      assert list[..i + 1][..i] == list[..i];
      if UserHasAccess(list[i], username, groups) {
        if list[i].phase == ACTIVE || list[i].phase == DEGRADED {
          if list[i].deletionTimestamp.None? {
            accessible := accessible + [ToResponse(list[i])];
          }
        }
      }
    }
    assert list[..|list|] == list;
    return Ok(Sort(accessible, NameLess));
  }

  // ---- Order independence ----

  /** `Select` depends on the set of subscriptions, not on the order the lister returns them in. */
  lemma SelectForgetsOrder(list: seq<Subscription>, list': seq<Subscription>, q: Query)
    requires UniqueNames(list) && multiset(list) == multiset(list')
    ensures Selected(list, q) == Selected(list', q)
  {
    OrdersAreWeak();
    UniqueNamesDecide(list);
    SortForgetsOrder(list, list', PriorityLess);
    SameElements(list, list');
  }

  lemma {:induction false} MatchingMembers(subs: seq<Subscription>, q: Query)
    ensures forall s :: s in Matching(subs, q) <==> s in subs && Matches(s, q)
  {
    if subs != [] {
      MatchingMembers(subs[..|subs| - 1], q);
      assert subs == subs[..|subs| - 1] + [subs[|subs| - 1]];
    }
  }

  lemma {:induction false} MatchingCounts(subs: seq<Subscription>, q: Query, s: Subscription)
    ensures multiset(Matching(subs, q))[s] == if Matches(s, q) then multiset(subs)[s] else 0
  {
    if subs != [] {
      MatchingCounts(subs[..|subs| - 1], q, s);
      assert subs == subs[..|subs| - 1] + [subs[|subs| - 1]];
    }
  }

  lemma DecisiveSubset(a: seq<Subscription>, b: seq<Subscription>)
    requires Decisive(b, PriorityLess) && forall s :: s in a ==> s in b
    ensures Decisive(a, PriorityLess)
  {
  }

  /** The lister's order does not matter to highest-priority selection either. */
  lemma HighestPriorityForgetsOrder(list: seq<Subscription>, list': seq<Subscription>, groups: seq<string>,
                                    username: string)
    requires UniqueNames(list) && multiset(list) == multiset(list')
    ensures HighestPriority(list, groups, username) == HighestPriority(list', groups, username)
  {
    var q := AnyModel(groups, username);
    var a, a' := Matching(list, q), Matching(list', q);
    MatchingMembers(list, q);
    forall s ensures multiset(a)[s] == multiset(a')[s] {
      MatchingCounts(list, q, s);
      MatchingCounts(list', q, s);
    }
    UniqueNamesDecide(list);
    DecisiveSubset(a, list);
    OrdersAreWeak();
    SortForgetsOrder(a, a', PriorityLess);
    SameElements(a, a');
  }

  lemma HighestPrioritySource(list: seq<Subscription>, groups: seq<string>, username: string) returns (s: Subscription)
    requires HighestPriority(list, groups, username).Ok?
    ensures s in list && UserHasAccess(s, username, groups) &&
            HighestPriority(list, groups, username) == Ok(ToResponse(s))
  {
    var accessible := Matching(list, AnyModel(groups, username));
    MatchingMembers(list, AnyModel(groups, username));
    SortPermutes(accessible, PriorityLess);
    SameElements(accessible, Sort(accessible, PriorityLess));
    s := Sort(accessible, PriorityLess)[0];
  }

  /** `s` is accessible and beats every other accessible subscription. */
  ghost predicate Beats(list: seq<Subscription>, groups: seq<string>, username: string, s: Subscription) {
    && s in list && UserHasAccess(s, username, groups)
    && forall x :: x in list && UserHasAccess(x, username, groups) && x != s ==> PriorityLess(s, x)
  }

  /** Highest-priority selection returns the unique accessible subscription that beats all others. */
  lemma HighestPriorityIsMaximum(list: seq<Subscription>, groups: seq<string>, username: string, s: Subscription)
    requires UniqueNames(list) && (groups != [] || username != "")
    requires s in list && UserHasAccess(s, username, groups)
    ensures Beats(list, groups, username, s) <==>
            HighestPriority(list, groups, username) == Ok(ToResponse(s))
  {
    var q := AnyModel(groups, username);
    var sorted := Sort(Matching(list, q), PriorityLess);
    MatchingMembers(list, q);
    SortPermutes(Matching(list, q), PriorityLess);
    SameElements(Matching(list, q), sorted);
    OrdersAreWeak();
    SortSorts(Matching(list, q), PriorityLess);
    UniqueNamesDecide(list);
    var top := sorted[0];
    assert forall x :: x in sorted <==> x in list && UserHasAccess(x, username, groups);
    forall x | x in list && UserHasAccess(x, username, groups) && x != top ensures PriorityLess(top, x) {
      SortedHead(sorted, x, PriorityLess);
    }
    if ToResponse(s) == ToResponse(top) {
      NamedIsUnique(list, s, top);
    }
  }

  /** With one name in two namespaces, a bare request depends on the lister's order. */
  lemma BareNameAcrossNamespaces(a: Subscription, b: Subscription, q: Query)
    requires a.name == b.name && a.ns != b.ns && a.priority == b.priority && MaxLimit(a) == MaxLimit(b)
    requires q.subscription == a.name && a.name != "" && '/' !in a.name && (q.groups != [] || q.username != "")
    requires Admit(a, q).Ok? && Admit(b, q).Ok?
    ensures Selected([a, b], q) != Selected([b, a], q)
  {
    LessTrichotomy(a.name, b.name);
    TiesKeepOrder(a, b);
    TiesKeepOrder(b, a);
    forall s | s == a || s == b ensures QualifiedName(s) != q.subscription {
      assert '/' in QualifiedName(s);
    }
  }

  lemma TiesKeepOrder(a: Subscription, b: Subscription)
    requires !PriorityLess(b, a)
    ensures Sort([a, b], PriorityLess) == [a, b]
  {
    assert [a, b][..1] == [a] && [a][..0] == [];
    assert Sort([a], PriorityLess) == [a];
    assert [a][1..] == [];
    assert Insert(b, [a], PriorityLess) == [a] + Insert(b, [], PriorityLess);
  }

  // ---- Explicit, automatic and listed selection agree ----

  /** DNS-label names (section 2.1 of RFC 1123) hold no slash. */
  predicate PlainName(sub: Subscription) {
    sub.name != "" && '/' !in sub.name && '/' !in sub.ns
  }

  lemma {:induction false} NamedIsUnique(subs: seq<Subscription>, s: Subscription, t: Subscription)
    requires UniqueNames(subs) && s in subs && t in subs && s.name == t.name
    ensures s == t
  {
  }

  /** Both spellings of a subscription's name reach that subscription. */
  lemma ExplicitReaches(list: seq<Subscription>, s: Subscription, q: Query)
    requires UniqueNames(list) && s in list && PlainName(s) && (q.groups != [] || q.username != "")
    requires forall x :: x in list ==> PlainName(x)
    requires q.subscription == s.name || q.subscription == QualifiedName(s)
    ensures Selected(list, q) == Admit(s, q)
  {
    var sorted := Sort(list, PriorityLess);
    SortPermutes(list, PriorityLess);
    SameElements(list, sorted);
    assert s in sorted && q.subscription != "";
    if q.subscription == s.name {
      forall x | x in sorted ensures QualifiedName(x) != s.name {
        assert '/' in QualifiedName(x);
      }
      NamedIsUnique(list, FirstNamed(sorted, s.name).value, s);
    } else {
      var x := FirstQualified(sorted, QualifiedName(s)).value;
      GlueInjective(x.ns, x.name, s.ns, s.name, '/');
      NamedIsUnique(list, x, s);
    }
  }

  lemma {:induction false} ListableMembers(list: seq<Subscription>, groups: seq<string>, username: string)
    ensures forall r :: r in ListableResponses(list, groups, username) <==>
              exists s :: s in list && Listable(s, groups, username) && r == ToResponse(s)
  {
    if list != [] {
      ListableMembers(list[..|list| - 1], groups, username);
      assert list == list[..|list| - 1] + [list[|list| - 1]];
    }
  }

  lemma ListedMembers(list: seq<Subscription>, groups: seq<string>, username: string)
    requires groups != [] || username != ""
    ensures Accessible(list, groups, username).Ok?
    ensures forall r :: r in Accessible(list, groups, username).value <==>
              exists s :: s in list && Listable(s, groups, username) && r == ToResponse(s)
  {
    var rs := ListableResponses(list, groups, username);
    ListableMembers(list, groups, username);
    SortPermutes(rs, NameLess);
    SameElements(rs, Sort(rs, NameLess));
  }

  /** Every listed entry can be selected by either name, with the identical response. */
  lemma ListedCanBeSelected(list: seq<Subscription>, groups: seq<string>, username: string, r: Response)
    requires UniqueNames(list) && (forall x :: x in list ==> PlainName(x))
    requires groups != [] || username != ""
    requires Accessible(list, groups, username).Ok? && r in Accessible(list, groups, username).value
    ensures Selected(list, Query(groups, username, r.name, "")) == Ok(r)
    ensures Selected(list, Query(groups, username, r.ns + ['/'] + r.name, "")) == Ok(r)
  {
    ListedMembers(list, groups, username);
    var s :| s in list && Listable(s, groups, username) && r == ToResponse(s);
    ExplicitReaches(list, s, Query(groups, username, r.name, ""));
    ExplicitReaches(list, s, Query(groups, username, r.ns + ['/'] + r.name, ""));
  }

  /** Where a successful selection comes from. */
  lemma SelectedSource(list: seq<Subscription>, q: Query) returns (s: Subscription)
    requires Selected(list, q).Ok?
    ensures s in list && Matches(s, q) && CheckModelHealth(s, q.model).None? && Selected(list, q) == Ok(ToResponse(s))
    ensures q.subscription == "" ==> forall x :: x in list && Matches(x, q) ==> x == s
  {
    var sorted := Sort(list, PriorityLess);
    SortPermutes(list, PriorityLess);
    SameElements(list, sorted);
    if q.subscription == "" {
      MatchingMembers(sorted, q);
      s := Matching(sorted, q)[0];
      assert Matching(sorted, q) == [s];
    } else if FirstQualified(sorted, q.subscription).Some? {
      s := FirstQualified(sorted, q.subscription).value;
    } else {
      s := FirstNamed(sorted, q.subscription).value;
    }
  }

  lemma SelectedIsHealthy(list: seq<Subscription>, q: Query, view: Subscription)
    requires UniqueNames(list) && view in list && Selected(list, q) == Ok(ToResponse(view))
    ensures Matches(view, q) && CheckModelHealth(view, q.model).None?
  {
    var s := SelectedSource(list, q);
    assert ToResponse(s).name == ToResponse(view).name;
    NamedIsUnique(list, s, view);
  }

  /** A subscription that serves a model, and is not being deleted, is in the user's listing. */
  lemma SelectedIsListed(list: seq<Subscription>, q: Query)
    requires q.model != "" && Selected(list, q).Ok?
    requires forall s :: s in list ==> s.deletionTimestamp != Some("")
    requires Selected(list, q).value.deletionTimestamp == ""
    ensures Accessible(list, q.groups, q.username).Ok?
    ensures Selected(list, q).value in Accessible(list, q.groups, q.username).value
  {
    var s := SelectedSource(list, q);
    ListedMembers(list, q.groups, q.username);
    assert Listable(s, q.groups, q.username);
  }

  /** Automatic selection succeeds with `r` exactly when one subscription matches and is healthy, and then
      naming that subscription gives the same answer. */
  lemma AutomaticIsSoleMatch(list: seq<Subscription>, q: Query, r: Response)
    requires UniqueNames(list) && (forall x :: x in list ==> PlainName(x))
    requires q.subscription == "" && (q.groups != [] || q.username != "")
    ensures Selected(list, q) == Ok(r) <==>
            exists s :: s in list && Matches(s, q) && (forall x :: x in list && Matches(x, q) ==> x == s) &&
              CheckModelHealth(s, q.model).None? && r == ToResponse(s)
    ensures Selected(list, q) == Ok(r) ==>
            Selected(list, q.(subscription := r.name)) == Ok(r) &&
            Selected(list, q.(subscription := r.ns + ['/'] + r.name)) == Ok(r)
  {
    if Selected(list, q) == Ok(r) {
      var s := SelectedSource(list, q);
      ExplicitReaches(list, s, q.(subscription := r.name));
      ExplicitReaches(list, s, q.(subscription := r.ns + ['/'] + r.name));
    }
    if s :| s in list && Matches(s, q) && (forall x :: x in list && Matches(x, q) ==> x == s) &&
            CheckModelHealth(s, q.model).None? && r == ToResponse(s)
    {
      SoleMatch(list, q, s);
    }
  }

  lemma SoleMatch(list: seq<Subscription>, q: Query, s: Subscription)
    requires UniqueNames(list) && q.subscription == "" && s in list && Matches(s, q)
    requires forall x :: x in list && Matches(x, q) ==> x == s
    ensures Matching(Sort(list, PriorityLess), q) == [s]
  {
    var sorted := Sort(list, PriorityLess);
    SortPermutes(list, PriorityLess);
    SameElements(list, sorted);
    MatchingMembers(sorted, q);
    MatchingCounts(sorted, q, s);
    var found := Matching(sorted, q);
    DistinctFromMultiset(list, sorted);
    DistinctCount(sorted, s);
    assert multiset(found)[s] <= 1;
    OnlyOne(found, s);
  }

  /** With a single matching and healthy subscription, automatic selection admits the request. */
  lemma AloneIsSelected(s: Subscription, q: Query)
    requires q.subscription == "" && (q.groups != [] || q.username != "")
    requires Matches(s, q) && CheckModelHealth(s, q.model).None?
    ensures Selected([s], q) == Ok(ToResponse(s))
  {
    SoleMatch([s], q, s);
  }

  lemma OnlyOne(found: seq<Subscription>, s: Subscription)
    requires s in found && (forall x :: x in found ==> x == s) && multiset(found)[s] <= 1
    ensures found == [s]
  {
    AllTheSame(found, s);
  }

  lemma {:induction false} AllTheSame(found: seq<Subscription>, s: Subscription)
    requires forall x :: x in found ==> x == s
    ensures multiset(found)[s] == |found|
  {
    if found != [] {
      assert found[0] in found;
      assert found == [s] + found[1..];
      forall x | x in found[1..] ensures x == s {
        assert x in found;
      }
      AllTheSame(found[1..], s);
    }
  }
}
