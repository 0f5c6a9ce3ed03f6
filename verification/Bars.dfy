/** Identities spelt as three texts joined by vertical bars. */
module Bars {

  function Joined(a: string, b: string, c: string): string {
    a + "|" + b + "|" + c
  }

  lemma FirstBar(a: string, x: string)
    requires '|' !in a
    ensures |a + "|" + x| > |a| && (a + "|" + x)[|a|] == '|'
    ensures forall k :: 0 <= k < |a| ==> (a + "|" + x)[k] != '|'
    ensures (a + "|" + x)[..|a|] == a && (a + "|" + x)[|a|+1..] == x
  {
    assert forall k :: 0 <= k < |a| ==> (a + "|" + x)[k] == a[k] && a[k] in a;
  }

  lemma SplitAtBar(a: string, x: string, b: string, y: string)
    requires '|' !in a && '|' !in b && a + "|" + x == b + "|" + y
    ensures a == b && x == y
  {
    FirstBar(a, x);
    FirstBar(b, y);
  }

  /** Without a bar in the first two parts the joined text determines all three. */
  lemma JoinedUnique(a: string, b: string, c: string, a': string, b': string, c': string)
    requires '|' !in a && '|' !in b && '|' !in a' && '|' !in b'
    requires Joined(a, b, c) == Joined(a', b', c')
    ensures a == a' && b == b' && c == c'
  {
    assert Joined(a, b, c) == a + "|" + (b + "|" + c) && Joined(a', b', c') == a' + "|" + (b' + "|" + c');
    SplitAtBar(a, b + "|" + c, a', b' + "|" + c');
    SplitAtBar(b, c, b', c');
  }

  /** With a bar in the middle part it never does. */
  lemma JoinedClash(a: string, b: string, m: string, c: string)
    ensures Joined(a, b + "|" + m, c) == Joined(a, b, m + "|" + c)
    ensures b + "|" + m != b && c != m + "|" + c
  {
    assert Joined(a, b + "|" + m, c) == a + "|" + b + "|" + m + "|" + c == Joined(a, b, m + "|" + c);
    assert |b + "|" + m| > |b| && |m + "|" + c| > |c|;
  }
}
