/** When the order in which subscriptions are listed can matter to selection, with names unique per namespace only:
    never for automatic and qualified requests, and for bare names exactly when the best candidates disagree. */
module SelectionOrder {
  import opened Strings
  import opened Sorting
  import opened Selector

  /** Kubernetes guarantees this much across namespaces. */
  ghost predicate UniquePairs(list: seq<Subscription>) {
    forall i, j :: 0 <= i < j < |list| ==> list[i].name != list[j].name || list[i].ns != list[j].ns
  }

  // ---- Ranks: what the priority order looks at ----

  datatype Rank = Rank(priority: int, maxLimit: int, name: string)

  function RankOf(s: Subscription): Rank {
    Rank(s.priority, MaxLimit(s), s.name)
  }

  predicate RankLess(a: Rank, b: Rank) {
    if a.priority != b.priority then a.priority > b.priority
    else if a.maxLimit != b.maxLimit then a.maxLimit > b.maxLimit
    else Less(a.name, b.name)
  }

  function Ranks(subs: seq<Subscription>): (r: seq<Rank>)
    ensures |r| == |subs|
  {
    seq(|subs|, i requires 0 <= i < |subs| => RankOf(subs[i]))
  }

  lemma RankOrderIsWeak()
    ensures WeakOrder(RankLess)
  {
    StringOrderIsWeak();
    forall a, b | RankLess(a, b) ensures !RankLess(b, a) {
      assert Less(a.name, b.name) ==> !Less(b.name, a.name);
    }
    forall a, b, c | !RankLess(b, a) && !RankLess(c, b) ensures !RankLess(c, a) {
      assert !Less(b.name, a.name) && !Less(c.name, b.name) ==> !Less(c.name, a.name);
    }
  }

  lemma RanksDecide(rs: seq<Rank>)
    ensures Decisive(rs, RankLess)
  {
    forall x, y | x in rs && y in rs && x != y ensures RankLess(x, y) || RankLess(y, x) {
      LessTrichotomy(x.name, y.name);
    }
  }

  function Without<T>(b: seq<T>, i: nat): seq<T>
    requires i < |b|
  {
    b[..i] + b[i + 1..]
  }

  lemma WithoutCounts<T>(b: seq<T>, i: nat)
    requires i < |b|
    ensures multiset(b) == multiset(Without(b, i)) + multiset{b[i]}
  {
    assert b == b[..i] + [b[i]] + b[i + 1..];
    assert multiset(b) == multiset(b[..i]) + multiset{b[i]} + multiset(b[i + 1..]);
  }

  lemma RanksWithout(b: seq<Subscription>, i: nat)
    requires i < |b|
    ensures Ranks(Without(b, i)) == Without(Ranks(b), i) && Ranks(b)[i] == RankOf(b[i])
  {
  }

  lemma CancelOne<T>(a: multiset<T>, b: multiset<T>, x: T)
    requires a + multiset{x} == b + multiset{x}
    ensures a == b
  {
    assert a == (a + multiset{x}) - multiset{x} == (b + multiset{x}) - multiset{x} == b;
  }

  lemma {:induction false} RanksPermute(a: seq<Subscription>, b: seq<Subscription>)
    requires multiset(a) == multiset(b)
    ensures multiset(Ranks(a)) == multiset(Ranks(b))
    decreases |a|
  {
    SameElements(a, b);
    if a != [] {
      assert a[0] in b;
      var i :| 0 <= i < |b| && b[i] == a[0];
      WithoutCounts(a, 0);
      WithoutCounts(b, i);
      CancelOne(multiset(Without(a, 0)), multiset(Without(b, i)), a[0]);
      RanksPermute(Without(a, 0), Without(b, i));
      RanksWithout(a, 0);
      RanksWithout(b, i);
      WithoutCounts(Ranks(a), 0);
      WithoutCounts(Ranks(b), i);
    }
  }

  /** Two sorted arrangements show the same names, ties included. */
  lemma SortedNames(a: seq<Subscription>, b: seq<Subscription>)
    requires multiset(a) == multiset(b) && Sorted(a, PriorityLess) && Sorted(b, PriorityLess)
    ensures Names(a) == Names(b)
  {
    RanksPermute(a, b);
    RankOrderIsWeak();
    RanksDecide(Ranks(a));
    SortedUnique(Ranks(a), Ranks(b), RankLess);
    SameElements(a, b);
    forall i | 0 <= i < |a| ensures a[i].name == b[i].name {
      assert Ranks(a)[i] == Ranks(b)[i];
    }
  }

  // ---- Automatic selection ----

  lemma {:induction false} MatchingSorted(subs: seq<Subscription>, q: Query)
    requires Sorted(subs, PriorityLess)
    ensures Sorted(Matching(subs, q), PriorityLess)
  {
    if subs != [] {
      var init, last := subs[..|subs| - 1], subs[|subs| - 1];
      MatchingSorted(init, q);
      MatchingMembers(init, q);
      var m := Matching(init, q);
      forall i | 0 <= i < |m| ensures !PriorityLess(last, m[i]) {
        assert m[i] in init;
      }
    }
  }

  /** Automatic selection never depends on the order, whatever the names. */
  lemma AutomaticForgetsOrder(list: seq<Subscription>, list': seq<Subscription>, q: Query)
    requires multiset(list) == multiset(list')
    ensures SelectAutomatic(Sort(list, PriorityLess), q) == SelectAutomatic(Sort(list', PriorityLess), q)
  {
    SortedList(list);
    SortedList(list');
    var s, s' := Sort(list, PriorityLess), Sort(list', PriorityLess);
    var found, found' := Matching(s, q), Matching(s', q);
    MatchingPermutes(s, s', q);
    MatchingSorted(s, q);
    MatchingSorted(s', q);
    SortedNames(found, found');
    SameElements(found, found');
    if |found| == 1 {
      assert found[0] in found';
    }
  }

  lemma SortedList(list: seq<Subscription>)
    ensures Sorted(Sort(list, PriorityLess), PriorityLess) && multiset(Sort(list, PriorityLess)) == multiset(list)
  {
    OrdersAreWeak();
    SortSorts(list, PriorityLess);
    SortPermutes(list, PriorityLess);
  }

  lemma MatchingPermutes(s: seq<Subscription>, s': seq<Subscription>, q: Query)
    requires multiset(s) == multiset(s')
    ensures multiset(Matching(s, q)) == multiset(Matching(s', q))
  {
    forall x ensures multiset(Matching(s, q))[x] == multiset(Matching(s', q))[x] {
      MatchingCounts(s, q, x);
      MatchingCounts(s', q, x);
    }
  }

  // ---- Qualified names ----

  lemma QualifiedIsUnique(list: seq<Subscription>, s: Subscription, t: Subscription)
    requires UniquePairs(list) && s in list && t in list && PlainName(s) && PlainName(t)
    requires QualifiedName(s) == QualifiedName(t)
    ensures s == t
  {
    GlueInjective(s.ns, s.name, t.ns, t.name, '/');
    var i :| 0 <= i < |list| && list[i] == s;
    var j :| 0 <= j < |list| && list[j] == t;
  }

  /** A request by qualified name finds the same subscription, or none, in every order. */
  lemma QualifiedForgetsOrder(list: seq<Subscription>, list': seq<Subscription>, name: string)
    requires UniquePairs(list) && (forall x :: x in list ==> PlainName(x)) && multiset(list) == multiset(list')
    ensures FirstQualified(Sort(list, PriorityLess), name) == FirstQualified(Sort(list', PriorityLess), name)
  {
    SortPermutes(list, PriorityLess);
    SortPermutes(list', PriorityLess);
    SameElements(list, Sort(list, PriorityLess));
    SameElements(list', Sort(list', PriorityLess));
    SameElements(list, list');
    var a, b := FirstQualified(Sort(list, PriorityLess), name), FirstQualified(Sort(list', PriorityLess), name);
    if a.Some? && b.Some? {
      QualifiedIsUnique(list, a.value, b.value);
    }
  }

  // ---- Bare names ----

  /** No other subscription of that name beats `t`. */
  ghost predicate Top(list: seq<Subscription>, name: string, t: Subscription) {
    t in list && t.name == name && forall x :: x in list && x.name == name ==> !PriorityLess(x, t)
  }

  lemma {:induction false} FirstIsTop(sorted: seq<Subscription>, name: string)
    requires Sorted(sorted, PriorityLess) && FirstNamed(sorted, name).Some?
    ensures Top(sorted, name, FirstNamed(sorted, name).value)
  {
    var t := FirstNamed(sorted, name).value;
    if sorted[0].name == name {
      OrdersAreWeak();
      forall x | x in sorted ensures !PriorityLess(x, t) {
        SortedHead(sorted, x, PriorityLess);
      }
    } else {
      FirstIsTop(sorted[1..], name);
      assert sorted == [sorted[0]] + sorted[1..];
    }
  }

  lemma {:induction false} InsertKeepsFirst(x: Subscription, s: seq<Subscription>, name: string, t: Subscription)
    requires WeakOrder(PriorityLess) && Sorted(s, PriorityLess) && FirstNamed(s, name) == Some(t)
    requires x.name == name ==> !PriorityLess(x, t)
    ensures FirstNamed(Insert(x, s, PriorityLess), name) == Some(t)
  {
    if PriorityLess(x, s[0]) {
      SortedHead(s, t, PriorityLess);
      assert ([x] + s)[1..] == s;
    } else {
      var rest := Insert(x, s[1..], PriorityLess);
      assert ([s[0]] + rest)[1..] == rest;
      if s[0].name != name {
        InsertKeepsFirst(x, s[1..], name, t);
      }
    }
  }

  /** A stable sort keeps a best candidate that is listed first ahead of its ties. */
  lemma {:induction false} ListedFirst(t: Subscription, rest: seq<Subscription>, name: string)
    requires Top([t] + rest, name, t)
    ensures FirstNamed(Sort([t] + rest, PriorityLess), name) == Some(t)
  {
    var list := [t] + rest;
    OrdersAreWeak();
    if rest == [] {
      assert list == [t] && [t][..0] == [];
      assert Sort([t], PriorityLess) == [t];
    } else {
      var init, x := rest[..|rest| - 1], rest[|rest| - 1];
      assert list[..|list| - 1] == [t] + init && list[|list| - 1] == x;
      forall y | y in [t] + init ensures y in list {
        assert rest == init + [x];
      }
      ListedFirst(t, init, name);
      SortSorts([t] + init, PriorityLess);
      assert x in list;
      InsertKeepsFirst(x, Sort([t] + init, PriorityLess), name, t);
    }
  }

  lemma PutFirst(list: seq<Subscription>, t: Subscription) returns (list': seq<Subscription>)
    requires t in list
    ensures multiset(list') == multiset(list) && list' != [] && list'[0] == t
  {
    var i :| 0 <= i < |list| && list[i] == t;
    list' := [t] + (list[..i] + list[i + 1..]);
    assert list == list[..i] + [t] + list[i + 1..];
  }

  /** A bare request looks at the best candidate that comes first. */
  lemma BareReads(list: seq<Subscription>, q: Query)
    requires q.groups != [] || q.username != ""
    requires q.subscription != "" && '/' !in q.subscription && forall x :: x in list ==> PlainName(x)
    ensures var first := FirstNamed(Sort(list, PriorityLess), q.subscription);
            && (first.Some? <==> exists t :: Top(list, q.subscription, t))
            && (first.Some? ==> Top(list, q.subscription, first.value) && Selected(list, q) == Admit(first.value, q))
  {
    var sorted := Sort(list, PriorityLess);
    SortedList(list);
    NoneQualified(list, q.subscription);
    TopPermutes(list, sorted, q.subscription);
    if FirstNamed(sorted, q.subscription).Some? {
      FirstIsTop(sorted, q.subscription);
    }
  }

  lemma NoneQualified(list: seq<Subscription>, name: string)
    requires '/' !in name
    ensures FirstQualified(Sort(list, PriorityLess), name).None?
  {
    forall x | x in Sort(list, PriorityLess) ensures QualifiedName(x) != name {
      assert '/' in QualifiedName(x);
    }
  }

  lemma TopPermutes(list: seq<Subscription>, list': seq<Subscription>, name: string)
    requires multiset(list) == multiset(list')
    ensures forall t :: Top(list, name, t) <==> Top(list', name, t)
  {
    SameElements(list, list');
  }

  // ---- The exact condition ----

  ghost predicate OrderFree(list: seq<Subscription>, q: Query) {
    forall list' :: multiset(list') == multiset(list) ==> Selected(list', q) == Selected(list, q)
  }

  predicate Bare(q: Query) {
    (q.groups != [] || q.username != "") && q.subscription != "" && '/' !in q.subscription
  }

  ghost predicate TopsAgree(list: seq<Subscription>, q: Query) {
    forall t, t' :: Top(list, q.subscription, t) && Top(list, q.subscription, t') ==> Admit(t, q) == Admit(t', q)
  }

  lemma AgreementFrees(list: seq<Subscription>, list': seq<Subscription>, q: Query)
    requires (forall x :: x in list ==> PlainName(x)) && Bare(q) && TopsAgree(list, q)
    requires multiset(list') == multiset(list)
    ensures Selected(list', q) == Selected(list, q)
  {
    SameElements(list, list');
    TopPermutes(list, list', q.subscription);
    BareReads(list, q);
    BareReads(list', q);
    if FirstNamed(Sort(list, PriorityLess), q.subscription).None? {
      NotFound(list, q);
      NotFound(list', q);
    }
  }

  lemma NotFound(list: seq<Subscription>, q: Query)
    requires (forall x :: x in list ==> PlainName(x)) && Bare(q)
    requires FirstNamed(Sort(list, PriorityLess), q.subscription).None?
    ensures Selected(list, q) == if list == [] then Err(NoSubscription) else Err(SubscriptionNotFound(q.subscription))
  {
    NoneQualified(list, q.subscription);
  }

  lemma FreedomAgrees(list: seq<Subscription>, q: Query, t: Subscription)
    requires (forall x :: x in list ==> PlainName(x)) && Bare(q) && OrderFree(list, q) && Top(list, q.subscription, t)
    ensures Selected(list, q) == Admit(t, q)
  {
    var list' := PutFirst(list, t);
    SameElements(list, list');
    TopPermutes(list, list', q.subscription);
    assert list' == [t] + list'[1..];
    ListedFirst(t, list'[1..], q.subscription);
    BareReads(list', q);
  }

  /** The lister's order never matters to `Select` if and only if the request is not by bare name, or all the best
      candidates of that name give the same answer. */
  lemma OrderFreeIff(list: seq<Subscription>, q: Query)
    requires UniquePairs(list) && forall x :: x in list ==> PlainName(x)
    ensures OrderFree(list, q) <==> !Bare(q) || TopsAgree(list, q)
  {
    if !Bare(q) {
      forall list' | multiset(list') == multiset(list) ensures Selected(list', q) == Selected(list, q) {
        SameElements(list, list');
        AutomaticForgetsOrder(list, list', q);
        QualifiedForgetsOrder(list, list', q.subscription);
      }
    } else if TopsAgree(list, q) {
      forall list' | multiset(list') == multiset(list) ensures Selected(list', q) == Selected(list, q) {
        AgreementFrees(list, list', q);
      }
    }
    if Bare(q) && OrderFree(list, q) {
      forall t, t' | Top(list, q.subscription, t) && Top(list, q.subscription, t') ensures Admit(t, q) == Admit(t', q) {
        FreedomAgrees(list, q, t);
        FreedomAgrees(list, q, t');
      }
    }
  }

  // ---- Highest priority ----

  /** No other accessible subscription beats `t`. */
  ghost predicate Best(list: seq<Subscription>, groups: seq<string>, username: string, t: Subscription) {
    && t in list && UserHasAccess(t, username, groups)
    && forall x :: x in list && UserHasAccess(x, username, groups) ==> !PriorityLess(x, t)
  }

  /** What highest-priority selection returns is the response of a best candidate. */
  lemma HighestIsBest(list: seq<Subscription>, groups: seq<string>, username: string) returns (t: Subscription)
    requires HighestPriority(list, groups, username).Ok?
    ensures Best(list, groups, username, t) && HighestPriority(list, groups, username) == Ok(ToResponse(t))
  {
    var m := Matching(list, AnyModel(groups, username));
    MatchingMembers(list, AnyModel(groups, username));
    SortedList(m);
    SameElements(m, Sort(m, PriorityLess));
    OrdersAreWeak();
    t := Sort(m, PriorityLess)[0];
    forall x | x in list && UserHasAccess(x, username, groups) ensures !PriorityLess(x, t) {
      assert x in Sort(m, PriorityLess);
      SortedHead(Sort(m, PriorityLess), x, PriorityLess);
    }
  }

  lemma {:induction false} HeadStays(t: Subscription, rest: seq<Subscription>)
    requires forall x :: x in rest ==> !PriorityLess(x, t)
    ensures Sort([t] + rest, PriorityLess) != [] && Sort([t] + rest, PriorityLess)[0] == t
  {
    var list := [t] + rest;
    if rest == [] {
      assert list == [t] && [t][..0] == [];
      assert Sort([t], PriorityLess) == [t];
    } else {
      var init, x := rest[..|rest| - 1], rest[|rest| - 1];
      assert list[..|list| - 1] == [t] + init && list[|list| - 1] == x;
      HeadStays(t, init);
    }
  }

  lemma {:induction false} MatchingHead(t: Subscription, rest: seq<Subscription>, q: Query)
    requires Matches(t, q)
    ensures Matching([t] + rest, q) == [t] + Matching(rest, q)
  {
    var list := [t] + rest;
    if rest == [] {
      assert list == [t] && [t][..0] == [];
      assert Matching([t], q) == [t];
    } else {
      assert list[..|list| - 1] == [t] + rest[..|rest| - 1];
      MatchingHead(t, rest[..|rest| - 1], q);
    }
  }

  /** A best candidate that is listed first is the one returned. */
  lemma BestListedFirst(list: seq<Subscription>, groups: seq<string>, username: string, t: Subscription)
    requires (groups != [] || username != "") && list != [] && list[0] == t && Best(list, groups, username, t)
    ensures HighestPriority(list, groups, username) == Ok(ToResponse(t))
  {
    var q := AnyModel(groups, username);
    assert list == [t] + list[1..];
    MatchingHead(t, list[1..], q);
    MatchingMembers(list[1..], q);
    forall x | x in Matching(list[1..], q) ensures !PriorityLess(x, t) {
      assert x in list;
    }
    HeadStays(t, Matching(list[1..], q));
  }

  ghost predicate HighestOrderFree(list: seq<Subscription>, groups: seq<string>, username: string) {
    forall list' :: multiset(list') == multiset(list) ==>
      HighestPriority(list', groups, username) == HighestPriority(list, groups, username)
  }

  ghost predicate BestAgree(list: seq<Subscription>, groups: seq<string>, username: string) {
    forall t, t' :: Best(list, groups, username, t) && Best(list, groups, username, t') ==>
      ToResponse(t) == ToResponse(t')
  }

  lemma BestPermutes(list: seq<Subscription>, list': seq<Subscription>, groups: seq<string>, username: string)
    requires multiset(list) == multiset(list')
    ensures forall t :: Best(list, groups, username, t) <==> Best(list', groups, username, t)
    ensures HighestPriority(list, groups, username).Ok? <==> HighestPriority(list', groups, username).Ok?
    ensures HighestPriority(list, groups, username).Err? ==>
            HighestPriority(list, groups, username) == HighestPriority(list', groups, username)
  {
    SameElements(list, list');
    var q := AnyModel(groups, username);
    MatchingPermutes(list, list', q);
    SameElements(Matching(list, q), Matching(list', q));
  }

  lemma HighestFollows(list: seq<Subscription>, groups: seq<string>, username: string, t: Subscription)
    requires (groups != [] || username != "") && HighestOrderFree(list, groups, username)
    requires Best(list, groups, username, t)
    ensures HighestPriority(list, groups, username) == Ok(ToResponse(t))
  {
    var list' := PutFirst(list, t);
    BestPermutes(list, list', groups, username);
    BestListedFirst(list', groups, username, t);
  }

  /** The lister's order never matters to highest-priority selection if and only if nobody asks, or all the best
      accessible candidates have one response. No uniqueness of names is assumed. */
  lemma HighestOrderFreeIff(list: seq<Subscription>, groups: seq<string>, username: string)
    ensures HighestOrderFree(list, groups, username) <==>
            (groups == [] && username == "") || BestAgree(list, groups, username)
  {
    if (groups != [] || username != "") && BestAgree(list, groups, username) {
      forall list' | multiset(list') == multiset(list)
        ensures HighestPriority(list', groups, username) == HighestPriority(list, groups, username)
      {
        BestPermutes(list, list', groups, username);
        if HighestPriority(list, groups, username).Ok? {
          var t := HighestIsBest(list, groups, username);
          var t' := HighestIsBest(list', groups, username);
        }
      }
    }
    if (groups != [] || username != "") && HighestOrderFree(list, groups, username) {
      forall t, t' | Best(list, groups, username, t) && Best(list, groups, username, t')
        ensures ToResponse(t) == ToResponse(t')
      {
        HighestFollows(list, groups, username, t);
        HighestFollows(list, groups, username, t');
      }
    }
  }
}
