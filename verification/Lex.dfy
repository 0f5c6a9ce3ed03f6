/** The order of strings that ORDER BY and sort.Strings use. */
module Lex {
  import opened Sorting

  predicate Less(a: string, b: string) {
    b != [] && (a == [] || a[0] < b[0] || (a[0] == b[0] && Less(a[1..], b[1..])))
  }

  /** a runs out, or has the lesser character, where the two first differ. */
  ghost predicate DiffersAt(a: string, b: string, k: int) {
    0 <= k <= |a| && k < |b| && a[..k] == b[..k] && (k == |a| || a[k] < b[k])
  }

  lemma {:induction false} LessExact(a: string, b: string)
    ensures Less(a, b) <==> exists k :: DiffersAt(a, b, k)
  {
    if a != [] && b != [] && a[0] == b[0] {
      LessExact(a[1..], b[1..]);
      forall k ensures DiffersAt(a, b, k) <==> DiffersAt(a[1..], b[1..], k - 1) {
        OneDeeper(a, b, k);
      }
      hide DiffersAt, Less;
      assert forall k :: DiffersAt(a[1..], b[1..], k) ==> DiffersAt(a, b, k + 1);
    } else {
      if Less(a, b) {
        assert DiffersAt(a, b, 0);
      }
      forall k ensures DiffersAt(a, b, k) ==> k == 0 || (a != [] && b != [] && a[0] == b[0]) {
        SameStart(a, b, k);
      }
    }
  }

  lemma SameStart(a: string, b: string, k: int)
    ensures DiffersAt(a, b, k) ==> k == 0 || (a != [] && b != [] && a[0] == b[0])
  {
    if DiffersAt(a, b, k) && k > 0 {
      assert a[0] == a[..k][0] && b[0] == b[..k][0];
    }
  }

  lemma OneDeeper(a: string, b: string, k: int)
    requires a != [] && b != [] && a[0] == b[0]
    ensures DiffersAt(a, b, k) <==> DiffersAt(a[1..], b[1..], k - 1)
  {
    if 0 < k <= |a| && k < |b| {
      assert a[..k] == [a[0]] + a[1..][..k-1] && b[..k] == [b[0]] + b[1..][..k-1];
      assert a[..k] == b[..k] <==> a[1..][..k-1] == b[1..][..k-1] by {
        if a[..k] == b[..k] {
          assert a[1..][..k-1] == a[..k][1..] && b[1..][..k-1] == b[..k][1..];
        }
      }
    }
  }

  lemma {:induction false} Irreflexive(a: string)
    ensures !Less(a, a)
  {
    if a != [] {
      Irreflexive(a[1..]);
    }
  }

  lemma {:induction false} Transitive(a: string, b: string, c: string)
    requires Less(a, b) && Less(b, c)
    ensures Less(a, c)
  {
    if a != [] && a[0] == b[0] == c[0] {
      Transitive(a[1..], b[1..], c[1..]);
    }
  }

  lemma {:induction false} Total(a: string, b: string)
    ensures a == b || Less(a, b) || Less(b, a)
  {
    if a != [] && b != [] && a[0] == b[0] {
      Total(a[1..], b[1..]);
      if a[1..] == b[1..] {
        assert a == [a[0]] + a[1..] && b == [b[0]] + b[1..];
      }
    }
  }

  lemma Asymmetric(a: string, b: string)
    ensures !(Less(a, b) && Less(b, a))
  {
    if Less(a, b) && Less(b, a) {
      Transitive(a, b, a);
      Irreflexive(a);
    }
  }

  /** Not greater, as sort.Strings compares neighbours. */
  lemma NotGreaterTransitive(a: string, b: string, c: string)
    requires !Less(b, a) && !Less(c, b)
    ensures !Less(c, a)
  {
    if Less(c, a) {
      Total(a, b);
      if a != b {
        Transitive(c, a, b);
      }
    }
  }

  // ------------------------------------------------------------ sorted strings

  ghost predicate Increasing(s: seq<string>) {
    SortedBy(Less, s)
  }

  lemma Orders(all: seq<string>)
    ensures OrderOn(Less, all) && WeakOrder(Less, all)
  {
    forall a: string, b: string
      ensures a == b || Less(a, b) || Less(b, a)
      ensures Less(a, b) ==> !Less(b, a)
    {
      Total(a, b);
      Asymmetric(a, b);
    }
    forall a: string, b: string, c: string | Less(a, b) && Less(b, c) ensures Less(a, c) {
      Transitive(a, b, c);
    }
    hide Less;
    OrderIsWeak(Less, all);
  }

  /** The keys of a Go set in increasing order. */
  method SortedSet(s: set<string>) returns (out: seq<string>)
    ensures Increasing(out) && |out| == |s| && forall x :: x in out <==> x in s
  {
    out := Elements(s);
    Orders(out);
    out := Sort(Less, out);
  }

  /** slices.Compact(slices.Sorted(...)): sort, then drop neighbours that repeat. */
  method SortUnique(ids: seq<string>) returns (unique: seq<string>)
    ensures Increasing(unique) && forall x :: x in unique <==> x in ids
  {
    var sorted := StableSort(Less, ids);
    Orders(ids);
    StableSortOrdered(Less, ids);
    SameElements(sorted, ids);
    unique := [];
    assert Compacted(sorted, 0, unique);
    hide Less, Compacted, Ordered, OrderOn, WeakOrder;
    for i := 0 to |sorted|
      invariant Compacted(sorted, i, unique)
    {
      CompactsOne(sorted, i, unique);
      if i == 0 || sorted[i] != sorted[i-1] {
        unique := unique + [sorted[i]];
      }
    }
    AllCompacted(sorted, unique);
  }

  /** What the first i sorted values leave. */
  ghost predicate Compacted(sorted: seq<string>, i: nat, unique: seq<string>)
    requires i <= |sorted|
  {
    && Increasing(unique) && (forall x :: x in unique <==> x in sorted[..i])
    && if i == 0 then unique == [] else unique != [] && unique[|unique|-1] == sorted[i-1]
  }

  lemma CompactsOne(sorted: seq<string>, i: nat, unique: seq<string>)
    requires i < |sorted| && Ordered(Less, sorted) && Compacted(sorted, i, unique)
    ensures Compacted(sorted, i + 1, if i == 0 || sorted[i] != sorted[i-1] then unique + [sorted[i]] else unique)
  {
    if i == 0 || sorted[i] != sorted[i-1] {
      Extends(sorted, i, unique);
    }
    hide Less, Increasing, Ordered;
    assert sorted[..i+1] == sorted[..i] + [sorted[i]];
  }

  lemma AllCompacted(sorted: seq<string>, unique: seq<string>)
    requires Compacted(sorted, |sorted|, unique)
    ensures Increasing(unique) && forall x :: x in unique <==> x in sorted
  {
    assert sorted[..|sorted|] == sorted;
  }

  /** A new value in an ordered list is above every value before it. */
  lemma Extends(sorted: seq<string>, i: nat, unique: seq<string>)
    requires Ordered(Less, sorted) && i < |sorted| && Increasing(unique)
    requires i > 0 ==> unique != [] && unique[|unique|-1] == sorted[i-1] && sorted[i] != sorted[i-1]
    requires i == 0 ==> unique == []
    ensures Increasing(unique + [sorted[i]])
  {
    if i > 0 {
      Total(sorted[i-1], sorted[i]);
      forall k | 0 <= k < |unique| ensures Less(unique[k], sorted[i]) {
        if k < |unique| - 1 {
          Transitive(unique[k], sorted[i-1], sorted[i]);
        }
      }
    }
  }
}
