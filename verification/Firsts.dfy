/** The first elements of a list by key, as a loop keeps them that skips keys it has seen. */
module Firsts {

  /** x stands before every other element with its key. */
  ghost predicate FirstAt<T, K>(key: T -> K, s: seq<T>, x: T, i: nat) {
    i < |s| && s[i] == x && forall j :: 0 <= j < i ==> key(s[j]) != key(x)
  }

  ghost predicate First<T, K>(key: T -> K, s: seq<T>, x: T) {
    exists i :: FirstAt(key, s, x, i)
  }

  ghost predicate HasKey<T, K>(key: T -> K, s: seq<T>, k: K) {
    exists i :: 0 <= i < |s| && key(s[i]) == k
  }

  lemma HasKeyAppend<T, K>(key: T -> K, s: seq<T>, t: seq<T>, k: K)
    ensures HasKey(key, s + t, k) <==> HasKey(key, s, k) || HasKey(key, t, k)
  {
    if HasKey(key, s, k) {
      var i :| 0 <= i < |s| && key(s[i]) == k;
      assert (s + t)[i] == s[i];
    }
    if HasKey(key, t, k) {
      var i :| 0 <= i < |t| && key(t[i]) == k;
      assert (s + t)[|s| + i] == t[i];
    }
  }

  lemma FirstAppend<T, K>(key: T -> K, s: seq<T>, t: seq<T>, x: T)
    ensures First(key, s + t, x) <==> First(key, s, x) || (!HasKey(key, s, key(x)) && First(key, t, x))
  {
    if i: nat :| FirstAt(key, s + t, x, i) {
      if i < |s| {
        assert forall j :: 0 <= j < i ==> (s + t)[j] == s[j];
        assert FirstAt(key, s, x, i);
      } else {
        forall j | 0 <= j < |s| ensures key(s[j]) != key(x) {
          assert (s + t)[j] == s[j];
        }
        forall j | 0 <= j < i - |s| ensures key(t[j]) != key(x) {
          assert (s + t)[|s| + j] == t[j];
        }
        assert FirstAt(key, t, x, i - |s|);
      }
    }
    if i: nat :| FirstAt(key, s, x, i) {
      assert forall j :: 0 <= j <= i ==> (s + t)[j] == s[j];
      assert FirstAt(key, s + t, x, i);
    } else if !HasKey(key, s, key(x)) && First(key, t, x) {
      var i: nat :| FirstAt(key, t, x, i);
      assert FirstAt(key, s + t, x, |s| + i);
    }
  }

  lemma FirstHasKey<T, K>(key: T -> K, s: seq<T>, x: T)
    requires First(key, s, x)
    ensures x in s && HasKey(key, s, key(x))
  {
  }

  /** Of the elements with one key exactly one is first. */
  lemma {:induction false} FirstOfKey<T(!new), K>(key: T -> K, s: seq<T>, k: K)
    requires HasKey(key, s, k)
    ensures exists x :: First(key, s, x) && key(x) == k
    decreases |s|
  {
    var init, last := s[..|s|-1], s[|s|-1];
    assert s == init + [last];
    HasKeyAppend(key, init, [last], k);
    if HasKey(key, init, k) {
      FirstOfKey(key, init, k);
      var x :| First(key, init, x) && key(x) == k;
      FirstAppend(key, init, [last], x);
    } else {
      assert FirstAt(key, [last], last, 0);
      FirstAppend(key, init, [last], last);
    }
  }

  lemma FirstUnique<T, K>(key: T -> K, s: seq<T>, x: T, y: T)
    requires First(key, s, x) && First(key, s, y) && key(x) == key(y)
    ensures x == y
  {
    var i :| FirstAt(key, s, x, i);
    var j :| FirstAt(key, s, y, j);
    assert i == j;
  }

  // ------------------------------------------------------------ recording

  /** The elements a loop records that skips keys it has recorded. */
  ghost function FirstsOf<T, K>(key: T -> K, s: seq<T>): seq<T> {
    if s == [] then []
    else
      var f := FirstsOf(key, s[..|s|-1]);
      if HasKey(key, f, key(s[|s|-1])) then f else f + [s[|s|-1]]
  }

  /** A cap of 0 or less is no cap. */
  function Cut<T>(s: seq<T>, max: int): seq<T> {
    if max > 0 && |s| > max then s[..max] else s
  }

  lemma FirstsSnoc<T, K>(key: T -> K, s: seq<T>, x: T)
    ensures FirstsOf(key, s + [x]) == if HasKey(key, FirstsOf(key, s), key(x)) then FirstsOf(key, s) else FirstsOf(key, s) + [x]
  {
    assert (s + [x])[..|s|] == s;
  }

  lemma {:induction false} FirstsKeys<T, K>(key: T -> K, s: seq<T>, k: K)
    ensures HasKey(key, FirstsOf(key, s), k) <==> HasKey(key, s, k)
  {
    if s != [] {
      var init, x := s[..|s|-1], s[|s|-1];
      assert s == init + [x];
      FirstsKeys(key, init, k);
      HasKeyAppend(key, init, [x], k);
      HasKeyAppend(key, FirstsOf(key, init), [x], k);
      FirstsKeys(key, init, key(x));
      OneKey(key, x, k);
    }
  }

  lemma OneKey<T, K>(key: T -> K, x: T, k: K)
    ensures HasKey(key, [x], k) <==> key(x) == k
  {
    assert [x][0] == x;
  }

  /** They are the first elements under their keys. */
  lemma {:induction false} FirstsExact<T(!new), K>(key: T -> K, s: seq<T>, x: T)
    ensures x in FirstsOf(key, s) <==> First(key, s, x)
  {
    if s != [] {
      var init, last := s[..|s|-1], s[|s|-1];
      assert s == init + [last];
      FirstsExact(key, init, x);
      FirstAppend(key, init, [last], x);
      FirstsKeys(key, init, key(last));
      FirstOfOne(key, last, x);
    }
  }

  lemma FirstOfOne<T, K>(key: T -> K, x: T, y: T)
    ensures First(key, [x], y) <==> x == y
  {
    assert FirstAt(key, [x], x, 0);
  }

  /** One more element: recorded unless its key is, or the cap is reached. */
  lemma CutSnoc<T, K>(key: T -> K, s: seq<T>, x: T, max: int)
    ensures var kept, more := Cut(FirstsOf(key, s), max), Cut(FirstsOf(key, s + [x]), max);
      && (HasKey(key, kept, key(x)) ==> more == kept)
      && (!HasKey(key, kept, key(x)) && max > 0 && |kept| >= max ==> more == kept)
      && (!HasKey(key, kept, key(x)) && !(max > 0 && |kept| >= max) ==> more == kept + [x])
  {
    FirstsSnoc(key, s, x);
    var f := FirstsOf(key, s);
    if HasKey(key, Cut(f, max), key(x)) {
      var i :| 0 <= i < |Cut(f, max)| && key(Cut(f, max)[i]) == key(x);
      assert f[i] == Cut(f, max)[i];
    }
    assert max > 0 && |f| >= max ==> Cut(f, max) == f[..max] && (f + [x])[..max] == f[..max];
  }

  /** Whether the cap cuts nothing. */
  ghost predicate Whole<T, K>(key: T -> K, s: seq<T>, max: int) {
    max <= 0 || |FirstsOf(key, s)| <= max
  }

  lemma WholeSnoc<T, K>(key: T -> K, s: seq<T>, x: T, max: int)
    requires Whole(key, s, max)
    ensures HasKey(key, Cut(FirstsOf(key, s), max), key(x)) || !(max > 0 && |Cut(FirstsOf(key, s), max)| >= max) ==> Whole(key, s + [x], max)
  {
    FirstsSnoc(key, s, x);
  }
}
