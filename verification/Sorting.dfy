/** Sorting, as sort.Slice, sort.SliceStable and sort.Strings are used. */
module Sorting {

  /** Strictly increasing. */
  ghost predicate SortedBy<T(!new)>(less: (T, T) -> bool, s: seq<T>) {
    forall i, j :: 0 <= i < j < |s| ==> less(s[i], s[j])
  }

  /** Nothing stands before a lesser element; ties are allowed. */
  ghost predicate Ordered<T(!new)>(less: (T, T) -> bool, s: seq<T>) {
    forall i, j :: 0 <= i < j < |s| ==> !less(s[j], s[i])
  }

  /** A strict weak order of the elements of all: ties are transitive. */
  ghost predicate WeakOrder<T(!new)>(less: (T, T) -> bool, all: seq<T>) {
    && (forall a, b :: a in all && b in all && less(a, b) ==> !less(b, a))
    && (forall a, b, c :: a in all && b in all && c in all && !less(b, a) && !less(c, b) ==> !less(c, a))
  }

  /** A strict total order of the elements of all. */
  ghost predicate OrderOn<T(!new)>(less: (T, T) -> bool, all: seq<T>) {
    && (forall a, b :: a in all && b in all ==> a == b || less(a, b) || less(b, a))
    && (forall a, b :: a in all && b in all && less(a, b) ==> !less(b, a))
    && (forall a, b, c :: a in all && b in all && c in all && less(a, b) && less(b, c) ==> less(a, c))
  }

  lemma OrderIsWeak<T(!new)>(less: (T, T) -> bool, all: seq<T>)
    requires OrderOn(less, all)
    ensures WeakOrder(less, all)
  {
    forall a, b, c | a in all && b in all && c in all && !less(b, a) && !less(c, b) ensures !less(c, a) {
      assert a == b || less(a, b);
      assert b == c || less(b, c);
    }
  }

  /** x goes behind every element that is not greater. */
  function Place<T>(less: (T, T) -> bool, s: seq<T>, x: T): (r: seq<T>)
    ensures |r| == |s| + 1 && multiset(r) == multiset(s) + multiset{x}
  {
    if s == [] then [x]
    else
      var last, init := s[|s|-1], s[..|s|-1];
      assert s == init + [last];
      if less(x, last) then Place(less, init, x) + [last] else s + [x]
  }

  function StableSort<T>(less: (T, T) -> bool, s: seq<T>): (r: seq<T>)
    ensures |r| == |s| && multiset(r) == multiset(s)
  {
    if s == [] then []
    else
      assert s == s[..|s|-1] + [s[|s|-1]];
      Place(less, StableSort(less, s[..|s|-1]), s[|s|-1])
  }

  lemma SameElements<T>(r: seq<T>, s: seq<T>)
    requires multiset(r) == multiset(s)
    ensures forall x :: x in r <==> x in s
  {
    forall x ensures x in r <==> x in s {
      assert x in r <==> x in multiset(r);
      assert x in s <==> x in multiset(s);
    }
  }

  lemma {:induction false} PlaceOrdered<T(!new)>(less: (T, T) -> bool, all: seq<T>, s: seq<T>, x: T)
    requires WeakOrder(less, all) && x in all && (forall y :: y in s ==> y in all) && Ordered(less, s)
    ensures Ordered(less, Place(less, s, x))
    decreases |s|
  {
    if s != [] {
      var last, init := s[|s|-1], s[..|s|-1];
      assert s == init + [last] && last in s;
      assert forall y :: y in init ==> y in s;
      if less(x, last) {
        PlaceOrdered(less, all, init, x);
        PlacedBefore(less, init, x, last);
        BehindAll(less, Place(less, init, x), last);
      } else {
        forall i | 0 <= i < |s| ensures !less(x, s[i]) {
          assert s[i] in s;
          assert i < |s| - 1 ==> !less(s[|s|-1], s[i]);
        }
      }
    }
  }

  ghost predicate NoneAbove<T(!new)>(less: (T, T) -> bool, s: seq<T>, last: T) {
    forall y :: y in s ==> !less(last, y)
  }

  lemma PlacedBefore<T(!new)>(less: (T, T) -> bool, init: seq<T>, x: T, last: T)
    requires !less(last, x) && Ordered(less, init + [last])
    ensures NoneAbove(less, Place(less, init, x), last)
  {
    var t, s := Place(less, init, x), init + [last];
    SameElements(t, init + [x]);
    forall y | y in t ensures !less(last, y) {
      if y in init {
        var j :| 0 <= j < |init| && init[j] == y;
        assert !less(s[|s|-1], s[j]);
      }
    }
  }

  lemma BehindAll<T(!new)>(less: (T, T) -> bool, s: seq<T>, last: T)
    requires Ordered(less, s) && NoneAbove(less, s, last)
    ensures Ordered(less, s + [last])
  {
    forall i | 0 <= i < |s| ensures !less(last, s[i]) {
      assert s[i] in s;
    }
  }

  /** The sorted list is in order. */
  lemma {:induction false} StableSortOrdered<T(!new)>(less: (T, T) -> bool, s: seq<T>)
    requires WeakOrder(less, s)
    ensures Ordered(less, StableSort(less, s))
  {
    if s != [] {
      var init, last := s[..|s|-1], s[|s|-1];
      assert s == init + [last] && last in s;
      assert forall y :: y in init ==> y in s;
      StableSortOrdered(less, init);
      SameElements(StableSort(less, init), init);
      PlaceOrdered(less, s, StableSort(less, init), last);
    }
  }

  // --------------------------------------------------------------- stability

  /** The elements that tie with x, in the order they stand. */
  function Tied<T>(less: (T, T) -> bool, s: seq<T>, x: T): seq<T> {
    if s == [] then []
    else
      var y := s[|s|-1];
      Tied(less, s[..|s|-1], x) + if !less(x, y) && !less(y, x) then [y] else []
  }

  lemma TiedSnoc<T>(less: (T, T) -> bool, s: seq<T>, y: T, x: T)
    ensures Tied(less, s + [y], x) == Tied(less, s, x) + if !less(x, y) && !less(y, x) then [y] else []
  {
    assert (s + [y])[..|s|] == s;
  }

  /** Two elements that do not both tie with x may change places. */
  lemma TiedSwap<T>(less: (T, T) -> bool, placed: seq<T>, init: seq<T>, y: T, last: T, x: T)
    requires Tied(less, placed, x) == Tied(less, init + [y], x)
    requires less(x, y) || less(y, x) || less(x, last) || less(last, x)
    ensures Tied(less, placed + [last], x) == Tied(less, init + [last] + [y], x)
  {
    hide Tied;
    TiedSnoc(less, placed, last, x);
    TiedSnoc(less, init, y, x);
    TiedSnoc(less, init, last, x);
    TiedSnoc(less, init + [last], y, x);
  }

  lemma NotBothTied<T(!new)>(less: (T, T) -> bool, all: seq<T>, y: T, z: T, x: T)
    requires WeakOrder(less, all) && x in all && y in all && z in all && less(y, z)
    ensures less(x, y) || less(y, x) || less(x, z) || less(z, x)
  {
  }

  lemma {:induction false} PlaceStable<T(!new)>(less: (T, T) -> bool, all: seq<T>, s: seq<T>, y: T, x: T)
    requires WeakOrder(less, all) && x in all && y in all && forall z :: z in s ==> z in all
    ensures Tied(less, Place(less, s, y), x) == Tied(less, s + [y], x)
    decreases |s|
  {
    if s != [] {
      var last, init := s[|s|-1], s[..|s|-1];
      assert s == init + [last] && last in s && forall z :: z in init ==> z in s;
      hide Tied, WeakOrder;
      if less(y, last) {
        NotBothTied(less, all, y, last, x);
        PlaceStable(less, all, init, y, x);
        TiedSwap(less, Place(less, init, y), init, y, last, x);
      }
    }
  }

  /** Elements that tie keep their order. */
  lemma {:induction false} StableSortStable<T(!new)>(less: (T, T) -> bool, all: seq<T>, s: seq<T>, x: T)
    requires WeakOrder(less, all) && x in all && forall z :: z in s ==> z in all
    ensures Tied(less, StableSort(less, s), x) == Tied(less, s, x)
  {
    if s != [] {
      var init, last := s[..|s|-1], s[|s|-1];
      assert s == init + [last] && last in s && forall z :: z in init ==> z in s;
      StableSortStable(less, all, init, x);
      SameElements(StableSort(less, init), init);
      PlaceStable(less, all, StableSort(less, init), last, x);
      TiedSnoc(less, StableSort(less, init), last, x);
    }
  }

  // ------------------------------------------------------- distinct elements

  predicate Distinct<T(==)>(s: seq<T>) {
    forall i, j :: 0 <= i < j < |s| ==> s[i] != s[j]
  }

  lemma {:induction false} DistinctCounts<T>(s: seq<T>)
    ensures Distinct(s) <==> forall x :: x in s ==> multiset(s)[x] == 1
  {
    if s != [] {
      var init, last := s[..|s|-1], s[|s|-1];
      assert s == init + [last];
      assert multiset(s) == multiset(init) + multiset{last};
      DistinctCounts(init);
      assert Distinct(s) <==> Distinct(init) && last !in init by {
        assert forall i :: 0 <= i < |init| ==> s[i] == init[i];
        if last in init {
          var i :| 0 <= i < |init| && init[i] == last;
          assert s[i] == s[|s|-1];
        }
      }
      assert forall x :: x in s <==> x in init || x == last;
      assert last in init <==> last in multiset(init);
    }
  }

  /** Sorting distinct elements by a total order. */
  method Sort<T(!new)>(less: (T, T) -> bool, s: seq<T>) returns (r: seq<T>)
    requires OrderOn(less, s) && Distinct(s)
    ensures SortedBy(less, r) && |r| == |s| && forall y :: y in r <==> y in s
    ensures r == StableSort(less, s)
  {
    StrictlySorted(less, s);
    r := StableSort(less, s);
  }

  lemma StrictlySorted<T(!new)>(less: (T, T) -> bool, s: seq<T>)
    requires OrderOn(less, s) && Distinct(s)
    ensures SortedBy(less, StableSort(less, s)) && forall y :: y in StableSort(less, s) <==> y in s
  {
    var r := StableSort(less, s);
    OrderIsWeak(less, s);
    StableSortOrdered(less, s);
    SameElements(r, s);
    DistinctCounts(s);
    DistinctCounts(r);
    forall i, j | 0 <= i < j < |r| ensures less(r[i], r[j]) {
      assert r[i] in r && r[j] in r;
    }
  }

  /** A strict order leaves one way to sort the same elements. */
  lemma {:induction false} SortedUnique<T(!new)>(less: (T, T) -> bool, a: seq<T>, b: seq<T>)
    requires forall x, y :: x in a && y in a ==> !(less(x, y) && less(y, x))
    requires SortedBy(less, a) && SortedBy(less, b) && forall x :: x in a <==> x in b
    ensures a == b
  {
    assert b != [] ==> b[0] in b;
    if a != [] {
      assert a[0] in b && b != [] && b[0] in a;
      var i :| 0 <= i < |b| && b[i] == a[0];
      var j :| 0 <= j < |a| && a[j] == b[0];
      assert a[0] == b[0];
      TailElements(less, a);
      TailElements(less, b);
      SortedUnique(less, a[1..], b[1..]);
      assert a == [a[0]] + a[1..] && b == [b[0]] + b[1..];
    }
  }

  lemma TailElements<T(!new)>(less: (T, T) -> bool, a: seq<T>)
    requires a != [] && SortedBy(less, a) && !less(a[0], a[0])
    ensures SortedBy(less, a[1..]) && forall x :: x in a[1..] <==> x in a && x != a[0]
  {
    assert a == [a[0]] + a[1..];
    forall x | x in a[1..] ensures x != a[0] {
      var i :| 0 <= i < |a| - 1 && a[1..][i] == x;
      assert less(a[0], a[i+1]);
    }
  }

  /** The elements of a set once each, in whatever order it is iterated. */
  method Elements<T(==)>(s: set<T>) returns (out: seq<T>)
    ensures Distinct(out) && |out| == |s| && forall x :: x in out <==> x in s
  {
    out := [];
    var todo := s;
    while todo != {}
      invariant todo <= s && |out| + |todo| == |s| && Distinct(out)
      invariant forall x :: x in out <==> x in s && x !in todo
    {
      var x :| x in todo;
      out, todo := out + [x], todo - {x};
    }
  }
}
