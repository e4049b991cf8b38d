/** `sort.SliceStable`, `sort.Slice` and `sort.Strings` as one stable sort over a strict
    comparison, with what makes its output independent of the input order. */
module Sorting {
  import opened Strings

  /** What Go's sort package asks of a comparison. */
  ghost predicate WeakOrder<T(!new)>(lt: (T, T) -> bool) {
    && (forall a, b :: lt(a, b) ==> !lt(b, a))
    && (forall a, b, c :: !lt(b, a) && !lt(c, b) ==> !lt(c, a))
  }

  ghost predicate Sorted<T>(s: seq<T>, lt: (T, T) -> bool) {
    forall i, j :: 0 <= i < j < |s| ==> !lt(s[j], s[i])
  }

  /** Distinct elements are never tied. */
  ghost predicate Decisive<T(!new)>(s: seq<T>, lt: (T, T) -> bool) {
    forall x, y :: x in s && y in s && x != y ==> lt(x, y) || lt(y, x)
  }

  function Insert<T>(x: T, s: seq<T>, lt: (T, T) -> bool): seq<T> {
    if s == [] || lt(x, s[0]) then [x] + s else [s[0]] + Insert(x, s[1..], lt)
  }

  function Sort<T>(s: seq<T>, lt: (T, T) -> bool): seq<T> {
    if s == [] then [] else Insert(s[|s| - 1], Sort(s[..|s| - 1], lt), lt)
  }

  lemma {:induction false} InsertPermutes<T>(x: T, s: seq<T>, lt: (T, T) -> bool)
    ensures multiset(Insert(x, s, lt)) == multiset{x} + multiset(s)
  {
    if s != [] && !lt(x, s[0]) {
      InsertPermutes(x, s[1..], lt);
      assert s == [s[0]] + s[1..];
    }
  }

  lemma {:induction false} SortPermutes<T>(s: seq<T>, lt: (T, T) -> bool)
    ensures multiset(Sort(s, lt)) == multiset(s)
  {
    if s != [] {
      SortPermutes(s[..|s| - 1], lt);
      InsertPermutes(s[|s| - 1], Sort(s[..|s| - 1], lt), lt);
      assert s == s[..|s| - 1] + [s[|s| - 1]];
    }
  }

  lemma SameElements<T>(a: seq<T>, b: seq<T>)
    requires multiset(a) == multiset(b)
    ensures |a| == |b| && forall x :: x in a <==> x in b
  {
    assert |multiset(a)| == |a| && |multiset(b)| == |b|;
    forall x ensures x in a <==> x in b {
      assert x in a <==> x in multiset(a);
      assert x in b <==> x in multiset(b);
    }
  }

  lemma {:induction false} InsertSorts<T(!new)>(x: T, s: seq<T>, lt: (T, T) -> bool)
    requires WeakOrder(lt) && Sorted(s, lt)
    ensures Sorted(Insert(x, s, lt), lt)
  {
    if s != [] {
      if lt(x, s[0]) {
        forall j | 0 <= j < |s| ensures !lt(s[j], x) {
          assert !lt(s[0], x) && (j > 0 ==> !lt(s[j], s[0]));
        }
      } else {
        InsertSorts(x, s[1..], lt);
        var r := Insert(x, s[1..], lt);
        InsertPermutes(x, s[1..], lt);
        forall j | 0 <= j < |r| ensures !lt(r[j], s[0]) {
          assert r[j] in multiset(r);
          assert r[j] == x || r[j] in s[1..];
        }
      }
    }
  }

  lemma {:induction false} SortSorts<T(!new)>(s: seq<T>, lt: (T, T) -> bool)
    requires WeakOrder(lt)
    ensures Sorted(Sort(s, lt), lt)
  {
    if s != [] {
      SortSorts(s[..|s| - 1], lt);
      InsertSorts(s[|s| - 1], Sort(s[..|s| - 1], lt), lt);
    }
  }

  lemma SortedHead<T(!new)>(a: seq<T>, x: T, lt: (T, T) -> bool)
    requires WeakOrder(lt) && Sorted(a, lt) && x in a
    ensures !lt(x, a[0])
  {
    var i :| 0 <= i < |a| && a[i] == x;
  }

  lemma TailMultiset<T>(a: seq<T>)
    requires a != []
    ensures multiset(a[1..]) == multiset(a) - multiset{a[0]} && a == [a[0]] + a[1..]
  {
    assert a == [a[0]] + a[1..];
  }

  /** Without ties there is only one sorted arrangement. */
  lemma {:induction false} SortedUnique<T(!new)>(a: seq<T>, b: seq<T>, lt: (T, T) -> bool)
    requires WeakOrder(lt) && Sorted(a, lt) && Sorted(b, lt)
    requires multiset(a) == multiset(b) && Decisive(a, lt)
    ensures a == b
  {
    SameElements(a, b);
    if a != [] {
      assert a[0] in b && b[0] in a;
      SortedHead(a, b[0], lt);
      SortedHead(b, a[0], lt);
      assert a[0] == b[0];
      TailMultiset(a);
      TailMultiset(b);
      SortedUnique(a[1..], b[1..], lt);
    }
  }

  /** Sorting forgets the order in which untied elements arrived. */
  lemma SortForgetsOrder<T(!new)>(a: seq<T>, b: seq<T>, lt: (T, T) -> bool)
    requires WeakOrder(lt) && multiset(a) == multiset(b) && Decisive(a, lt)
    ensures Sort(a, lt) == Sort(b, lt)
  {
    SortSorts(a, lt);
    SortSorts(b, lt);
    SortPermutes(a, lt);
    SortPermutes(b, lt);
    SameElements(a, Sort(a, lt));
    SortedUnique(Sort(a, lt), Sort(b, lt), lt);
  }

  lemma StringOrderIsWeak()
    ensures WeakOrder(Less)
  {
    forall a, b | Less(a, b) ensures !Less(b, a) {
      LessTrichotomy(a, b);
    }
    forall a, b, c | !Less(b, a) && !Less(c, b) ensures !Less(c, a) {
      LessTrichotomy(a, b);
      LessTrichotomy(b, c);
      LessTrichotomy(a, c);
      if Less(a, b) && Less(b, c) {
        LessTransitive(a, b, c);
      }
    }
  }

  ghost predicate StrictlyIncreasing(s: seq<string>) {
    forall i, j :: 0 <= i < j < |s| ==> Less(s[i], s[j])
  }

  ghost function Elems<T>(s: seq<T>): set<T> {
    set x | x in s
  }

  lemma ElemsConcat<T>(a: seq<T>, b: seq<T>)
    ensures Elems(a + b) == Elems(a) + Elems(b)
  {
    assert forall x :: x in a + b <==> x in a || x in b;
  }

  /** Strictly increasing sequences with the same elements are equal. */
  lemma {:induction false} IncreasingByUnique<T(!new)>(a: seq<T>, b: seq<T>, lt: (T, T) -> bool)
    requires WeakOrder(lt) && Elems(a) == Elems(b)
    requires forall i, j :: 0 <= i < j < |a| ==> lt(a[i], a[j])
    requires forall i, j :: 0 <= i < j < |b| ==> lt(b[i], b[j])
    ensures a == b
  {
    if b != [] {
      assert b[0] in Elems(a);
    }
    if a != [] {
      assert a[0] in Elems(b);
      var i :| 0 <= i < |b| && b[i] == a[0];
      var j :| 0 <= j < |a| && a[j] == b[0];
      assert a[0] == b[0];
      forall x ensures x in Elems(a[1..]) <==> x in Elems(b[1..]) {
        assert x in a[1..] ==> x in Elems(a);
        assert x in b[1..] ==> x in Elems(b);
        assert x in Elems(a) && x != a[0] ==> x in a[1..];
        assert x in Elems(b) && x != b[0] ==> x in b[1..];
      }
      IncreasingByUnique(a[1..], b[1..], lt);
      assert a == [a[0]] + a[1..] && b == [b[0]] + b[1..];
    }
  }

  lemma IncreasingUnique(a: seq<string>, b: seq<string>)
    requires StrictlyIncreasing(a) && StrictlyIncreasing(b) && Elems(a) == Elems(b)
    ensures a == b
  {
    StringOrderIsWeak();
    IncreasingByUnique(a, b, Less);
  }

  /** A duplicate-free sequence, sorted, is strictly increasing and has the same elements. */
  lemma SortDistinct(s: seq<string>)
    requires forall i, j :: 0 <= i < j < |s| ==> s[i] != s[j]
    ensures StrictlyIncreasing(Sort(s, Less)) && Elems(Sort(s, Less)) == Elems(s)
  {
    var r := Sort(s, Less);
    StringOrderIsWeak();
    SortSorts(s, Less);
    SortPermutes(s, Less);
    SameElements(r, s);
    DistinctFromMultiset(s, r);
    forall i, j | 0 <= i < j < |r| ensures Less(r[i], r[j]) {
      LessTrichotomy(r[i], r[j]);
    }
  }

  lemma DistinctFromMultiset<T>(s: seq<T>, r: seq<T>)
    requires forall i, j :: 0 <= i < j < |s| ==> s[i] != s[j]
    requires multiset(s) == multiset(r)
    ensures forall i, j :: 0 <= i < j < |r| ==> r[i] != r[j]
  {
    forall i, j | 0 <= i < j < |r| ensures r[i] != r[j] {
      if r[i] == r[j] {
        assert r == r[..i] + [r[i]] + r[i + 1..j] + [r[j]] + r[j + 1..];
        assert multiset(r)[r[i]] >= 2;
        DistinctCount(s, r[i]);
        assert false;
      }
    }
  }

  lemma {:induction false} DistinctCount<T>(s: seq<T>, x: T)
    requires forall i, j :: 0 <= i < j < |s| ==> s[i] != s[j]
    ensures multiset(s)[x] <= 1
  {
    if s != [] {
      DistinctCount(s[1..], x);
      assert s == [s[0]] + s[1..];
      if s[0] == x {
        assert x !in s[1..];
      }
    }
  }

  lemma {:induction false} ArrangementExists(s: set<string>) returns (r: seq<string>)
    ensures StrictlyIncreasing(r) && Elems(r) == s
  {
    if s == {} {
      r := [];
    } else {
      var x :| x in s;
      var q := ArrangementExists(s - {x});
      var p := q + [x];
      forall i, j | 0 <= i < j < |p| ensures p[i] != p[j] {
        assert q[i] in Elems(q);
        if j < |q| {
          LessTrichotomy(q[i], q[j]);
        }
      }
      SortDistinct(p);
      r := Sort(p, Less);
      assert Elems(p) == Elems(q) + {x};
    }
  }

  /** The one increasing arrangement of a set of strings. */
  ghost function Arranged(s: set<string>): (r: seq<string>)
    ensures StrictlyIncreasing(r) && Elems(r) == s
  {
    assert exists r :: StrictlyIncreasing(r) && Elems(r) == s by {
      var r := ArrangementExists(s);
    }
    var r :| StrictlyIncreasing(r) && Elems(r) == s;
    r
  }
}
