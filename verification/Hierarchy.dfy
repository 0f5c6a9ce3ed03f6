/** store/relationships.go: the hierarchy closure and its containment edges. */
module Hierarchy {
  import opened Wrappers

  /** A recorded pair: child below parent. */
  datatype Pair = Pair(child: string, parent: string)

  /** hierarchy_closure, keyed by (ancestor, descendant): its depth column. */
  type Closure = map<(string, string), nat>

  /** A `contains` edge, from container to contained. */
  datatype Contains = Contains(from: string, to: string)

  // --------------------------------------------------------- the statements

  /** INSERT (child, child, 0) ON CONFLICT DO NOTHING. */
  function SelfEntry(t: Closure, child: string): Closure {
    if (child, child) in t then t else t[(child, child) := 0]
  }

  /** INSERT ... SELECT of the parent's ancestors, one level deeper, ON CONFLICT DO
      NOTHING: rows already there keep their depth. */
  function AncestorEntries(t: Closure, child: string, parent: string): Closure {
    (map k: (string, string) | k in Raised(t, child, parent) :: t[(k.0, parent)] + 1) + t
  }

  function Raised(t: Closure, child: string, parent: string): set<(string, string)>
    ensures forall k :: k in Raised(t, child, parent) <==> k.1 == child && (k.0, parent) in t
  {
    var r := set k | k in t && k.1 == parent :: (k.0, child);
    assert forall a :: (a, child) in r <== (a, parent) in t by {
      forall a | (a, parent) in t ensures (a, child) in r {
        assert (a, parent).1 == parent;
      }
    }
    r
  }

  function Record(t: Closure, p: Pair): Closure {
    AncestorEntries(SelfEntry(t, p.child), p.child, p.parent)
  }

  function RecordAll(t: Closure, ps: seq<Pair>): Closure {
    if ps == [] then t else Record(RecordAll(t, ps[..|ps|-1]), ps[|ps|-1])
  }

  lemma RecordExact(t: Closure, p: Pair, a: string, x: string)
    ensures (a, x) in Record(t, p) <==>
      (a, x) in t || (x == p.child && (a == p.child || (a, p.parent) in t))
    ensures (a, x) in t ==> Record(t, p)[(a, x)] == t[(a, x)]
    ensures (a, x) !in t && (a, x) in Record(t, p) ==>
      Record(t, p)[(a, x)] == if a == p.child then 0 else t[(a, p.parent)] + 1
  {
    var s := SelfEntry(t, p.child);
    assert (a, x) in Raised(s, p.child, p.parent) <==> x == p.child && (a, p.parent) in s;
    assert (a, p.parent) in s <==> (a, p.parent) in t || (a == p.child && p.parent == p.child);
  }

  // ------------------------------------------------------------- ancestry

  /** s climbs from x to its last element through recorded pairs of distinct nodes. */
  ghost predicate Climbs(ps: set<Pair>, s: seq<string>) {
    |s| >= 1 && forall i :: 0 <= i < |s| - 1 ==> s[i] != s[i+1] && Pair(s[i], s[i+1]) in ps
  }

  /** A chain of k recorded pairs from d up to a. */
  ghost predicate ChainOf(ps: set<Pair>, s: seq<string>, a: string, d: string, k: nat) {
    Climbs(ps, s) && s[0] == d && s[|s|-1] == a && |s| - 1 == k
  }

  ghost predicate HasChain(ps: set<Pair>, a: string, d: string, k: nat) {
    exists s :: ChainOf(ps, s, a, d, k)
  }

  function Recorded(ps: seq<Pair>): set<Pair> {
    set p | p in ps
  }

  lemma {:induction false} ChainWiden(ps: set<Pair>, qs: set<Pair>, a: string, d: string, k: nat)
    requires ps <= qs && HasChain(ps, a, d, k)
    ensures HasChain(qs, a, d, k)
  {
    var s :| ChainOf(ps, s, a, d, k);
    assert ChainOf(qs, s, a, d, k);
  }

  lemma ChainBelow(ps: set<Pair>, p: Pair, a: string, k: nat)
    requires p in ps && p.child != p.parent && HasChain(ps, a, p.parent, k)
    ensures HasChain(ps, a, p.child, k + 1)
  {
    var s :| ChainOf(ps, s, a, p.parent, k);
    var t := [p.child] + s;
    forall i | 0 <= i < |t| - 1 ensures t[i] != t[i+1] && Pair(t[i], t[i+1]) in ps {
      assert i > 0 ==> t[i] == s[i-1] && t[i+1] == s[i];
    }
    assert ChainOf(ps, t, a, p.child, k + 1);
  }

  // ---------------------------------------------------------- justification

  /** Every closure row is backed by a chain of recorded pairs of its depth. */
  ghost predicate Justified(t: Closure, ps: set<Pair>) {
    forall a, d :: (a, d) in t ==> HasChain(ps, a, d, t[(a, d)])
  }

  lemma RecordJustified(t: Closure, ps: set<Pair>, p: Pair)
    requires Justified(t, ps)
    ensures Justified(Record(t, p), ps + {p})
  {
    var t', qs := Record(t, p), ps + {p};
    forall a, d | (a, d) in t'
      ensures HasChain(qs, a, d, t'[(a, d)])
    {
      RecordExact(t, p, a, d);
      if (a, d) in t {
        ChainWiden(ps, qs, a, d, t[(a, d)]);
      } else if a == p.child {
        assert ChainOf(qs, [a], a, d, 0);
      } else {
        ChainWiden(ps, qs, a, p.parent, t[(a, p.parent)]);
        ChainBelow(qs, p, a, t[(a, p.parent)]);
      }
    }
  }

  lemma EmptyJustified()
    ensures Justified(map[], Recorded([]))
  {
  }

  /** For every order of calls, each closure row (a, d, k) is justified by a chain of k
      recorded child-parent pairs from d up to a. */
  lemma {:induction false} EveryRowJustified(ps: seq<Pair>)
    ensures Justified(RecordAll(map[], ps), Recorded(ps))
  {
    hide Record, Justified;
    if ps == [] {
      EmptyJustified();
    } else {
      var init, p := ps[..|ps|-1], ps[|ps|-1];
      EveryRowJustified(init);
      RecordJustified(RecordAll(map[], init), Recorded(init), p);
      assert ps == init + [p];
      assert Recorded(ps) == Recorded(init) + {p};
    }
  }

  // -------------------------------------------------- exactness of the closure

  predicate Known(ps: set<Pair>, x: string) {
    exists p :: p in ps && (p.child == x || p.parent == x)
  }

  ghost predicate Reach(ps: set<Pair>, a: string, d: string) {
    exists k :: HasChain(ps, a, d, k)
  }

  /** The reflexive-transitive closure of the recorded pairs, over the nodes they name. */
  ghost predicate InClosure(ps: set<Pair>, a: string, d: string) {
    Reach(ps, a, d) && Known(ps, a) && Known(ps, d)
  }

  ghost predicate Exact(t: Closure, ps: set<Pair>) {
    forall a, d :: (a, d) in t <==> InClosure(ps, a, d)
  }

  lemma ReachSelf(ps: set<Pair>, x: string)
    ensures Reach(ps, x, x)
  {
    assert ChainOf(ps, [x], x, x, 0);
    assert HasChain(ps, x, x, 0);
  }

  lemma ReachWiden(ps: set<Pair>, qs: set<Pair>, a: string, d: string)
    requires ps <= qs && Reach(ps, a, d)
    ensures Reach(qs, a, d)
  {
    var k :| HasChain(ps, a, d, k);
    ChainWiden(ps, qs, a, d, k);
  }

  lemma ReachStep(ps: set<Pair>, p: Pair, a: string)
    requires p in ps && Reach(ps, a, p.parent)
    ensures Reach(ps, a, p.child)
  {
    if p.child != p.parent {
      var k :| HasChain(ps, a, p.parent, k);
      ChainBelow(ps, p, a, k);
    }
  }

  lemma ClimbTail(ps: set<Pair>, s: seq<string>)
    requires Climbs(ps, s) && |s| > 1
    ensures Climbs(ps, s[1..])
  {
    var t := s[1..];
    forall i | 0 <= i < |t| - 1 ensures t[i] != t[i+1] && Pair(t[i], t[i+1]) in ps {
      var j := i + 1;
      assert s[j] != s[j+1] && t[i] == s[j] && t[i+1] == s[j+1];
    }
  }

  lemma {:induction false} ReachTransitive(ps: set<Pair>, a: string, m: string, s: seq<string>)
    requires Reach(ps, a, m) && Climbs(ps, s) && s[|s|-1] == m
    ensures Reach(ps, a, s[0])
    decreases |s|
  {
    if |s| > 1 {
      ClimbTail(ps, s);
      ReachTransitive(ps, a, m, s[1..]);
      assert Pair(s[0], s[0+1]) in ps;
      ReachStep(ps, Pair(s[0], s[1]), a);
    }
  }

  lemma ReachThrough(ps: set<Pair>, a: string, m: string, d: string)
    requires Reach(ps, a, m) && Reach(ps, m, d)
    ensures Reach(ps, a, d)
  {
    var k :| HasChain(ps, m, d, k);
    var s :| ChainOf(ps, s, m, d, k);
    ReachTransitive(ps, a, m, s);
  }

  /** A climb that may use a new pair needs it at most once. */
  lemma {:induction false} ClimbSplits(ps: set<Pair>, p: Pair, s: seq<string>)
    requires Climbs(ps + {p}, s)
    ensures var a, d := s[|s|-1], s[0]; Reach(ps, a, d) || (Reach(ps, p.child, d) && Reach(ps, a, p.parent))
    decreases |s|
  {
    var a, d := s[|s|-1], s[0];
    if |s| == 1 {
      ReachSelf(ps, d);
    } else {
      var e := s[0+1];
      assert Pair(d, e) in ps + {p};
      ClimbTail(ps + {p}, s);
      ClimbSplits(ps, p, s[1..]);
      if Pair(d, e) in ps {
        if Reach(ps, a, e) {
          ReachStep(ps, Pair(d, e), a);
        } else {
          ReachStep(ps, Pair(d, e), p.child);
        }
      } else {
        ReachSelf(ps, p.child);
      }
    }
  }

  /** What one more pair adds to reachability. */
  lemma ReachGrows(ps: set<Pair>, p: Pair, a: string, d: string)
    ensures Reach(ps + {p}, a, d) <==> Reach(ps, a, d) || (Reach(ps, p.child, d) && Reach(ps, a, p.parent))
  {
    var qs := ps + {p};
    if Reach(qs, a, d) {
      var k :| HasChain(qs, a, d, k);
      var s :| ChainOf(qs, s, a, d, k);
      ClimbSplits(ps, p, s);
    }
    if Reach(ps, a, d) {
      ReachWiden(ps, qs, a, d);
    }
    if Reach(ps, p.child, d) && Reach(ps, a, p.parent) {
      ReachWiden(ps, qs, p.child, d);
      ReachWiden(ps, qs, a, p.parent);
      ReachStep(qs, p, a);
      ReachThrough(qs, a, p.child, d);
    }
  }

  /** What a pair must find in the table: its parent's own row, and no row missing
      between the parent's ancestors and the child's descendants. */
  ghost predicate Extendable(t: Closure, p: Pair) {
    && (p.parent == p.child || (p.parent, p.parent) in t)
    && forall a, x :: (a, p.parent) in t && (p.child, x) in t && x != p.child ==> (a, x) in t
  }

  lemma KnownReach(ps: set<Pair>, a: string, d: string)
    requires Reach(ps, a, d)
    ensures a != d ==> Known(ps, a) && Known(ps, d)
  {
    var k :| HasChain(ps, a, d, k);
    var s :| ChainOf(ps, s, a, d, k);
    if a != d {
      assert Pair(s[0], s[0+1]) in ps;
      assert Pair(s[|s|-2], s[|s|-2+1]) in ps;
    }
  }

  lemma KnownGrows(ps: set<Pair>, p: Pair, x: string)
    ensures Known(ps + {p}, x) <==> Known(ps, x) || x == p.child || x == p.parent
  {
    assert p in ps + {p};
    if Known(ps, x) {
      var q :| q in ps && (q.child == x || q.parent == x);
      assert q in ps + {p};
    }
  }

  /** One row of the new table against one pair of the new closure. */
  lemma RowExact(t: Closure, ps: set<Pair>, p: Pair, a: string, d: string)
    requires Exact(t, ps)
    ensures (a, d) in Record(t, p) ==> InClosure(ps + {p}, a, d)
    ensures Extendable(t, p) && InClosure(ps + {p}, a, d) ==> (a, d) in Record(t, p)
  {
    RecordExact(t, p, a, d);
    ReachGrows(ps, p, a, d);
    KnownGrows(ps, p, a);
    KnownGrows(ps, p, d);
    hide Record, Reach, Known;
    ReachSelf(ps, p.child);
    if a == p.child && d == p.child {
      ReachSelf(ps, a);
    }
    if Extendable(t, p) && InClosure(ps + {p}, a, d) {
      RowFound(t, ps, p, a, d);
    }
  }

  lemma RowFound(t: Closure, ps: set<Pair>, p: Pair, a: string, d: string)
    requires Exact(t, ps) && Extendable(t, p)
    requires Reach(ps, a, d) || (Reach(ps, p.child, d) && Reach(ps, a, p.parent))
    requires (Known(ps, a) || a == p.child || a == p.parent) && (Known(ps, d) || d == p.child || d == p.parent)
    ensures (a, d) in t || (d == p.child && (a == p.child || (a, p.parent) in t))
  {
    if Reach(ps, a, d) {
      KnownReach(ps, a, d);
    } else {
      KnownReach(ps, p.child, d);
      KnownReach(ps, a, p.parent);
      assert (p.parent, p.parent) in t || p.parent == p.child;
      assert Known(ps, p.parent) || p.parent == p.child;
    }
  }

  lemma MustExtend(t: Closure, ps: set<Pair>, p: Pair)
    requires Exact(t, ps) && Exact(Record(t, p), ps + {p})
    ensures Extendable(t, p)
  {
    RecordExact(t, p, p.parent, p.parent);
    KnownGrows(ps, p, p.parent);
    ReachSelf(ps + {p}, p.parent);
    assert InClosure(ps + {p}, p.parent, p.parent);
    forall a, x | (a, p.parent) in t && (p.child, x) in t && x != p.child
      ensures (a, x) in t
    {
      RecordExact(t, p, a, x);
      ReachGrows(ps, p, a, x);
      KnownGrows(ps, p, a);
      KnownGrows(ps, p, x);
      assert InClosure(ps, a, p.parent) && InClosure(ps, p.child, x);
    }
  }

  /** Recording a pair keeps the table the exact closure if and only if the pair is
      extendable, which a caller can check in the table before the call. */
  lemma RecordKeepsExact(t: Closure, ps: set<Pair>, p: Pair)
    requires Exact(t, ps)
    ensures Exact(Record(t, p), ps + {p}) <==> Extendable(t, p)
  {
    if Extendable(t, p) {
      forall a, d
        ensures (a, d) in Record(t, p) <==> InClosure(ps + {p}, a, d)
      {
        RowExact(t, ps, p, a, d);
      }
    }
    if Exact(Record(t, p), ps + {p}) {
      MustExtend(t, ps, p);
    }
  }

  // ------------------------------------------------------------ whole runs

  /** The table after the first i calls. */
  function After(ps: seq<Pair>, i: nat): Closure
    requires i <= |ps|
  {
    RecordAll(map[], ps[..i])
  }

  lemma AfterStep(ps: seq<Pair>, i: nat)
    requires i < |ps|
    ensures After(ps, i + 1) == Record(After(ps, i), ps[i])
    ensures Recorded(ps[..i+1]) == Recorded(ps[..i]) + {ps[i]}
  {
    assert ps[..i+1] == ps[..i] + [ps[i]];
    assert ps[..i+1][..i] == ps[..i];
  }

  ghost predicate ExactAt(ps: seq<Pair>, i: nat)
    requires i <= |ps|
  {
    Exact(After(ps, i), Recorded(ps[..i]))
  }

  ghost predicate ExtendableAt(ps: seq<Pair>, i: nat)
    requires i < |ps|
  {
    Extendable(After(ps, i), ps[i])
  }

  lemma NothingIsExact(ps: seq<Pair>)
    ensures ExactAt(ps, 0)
  {
    assert ps[..0] == [];
    assert forall p: Pair :: p !in Recorded([]);
  }

  lemma StepExact(ps: seq<Pair>, i: nat)
    requires i < |ps| && ExactAt(ps, i)
    ensures ExactAt(ps, i + 1) <==> ExtendableAt(ps, i)
  {
    hide Record, RecordAll, Exact, Extendable, Recorded;
    AfterStep(ps, i);
    RecordKeepsExact(After(ps, i), Recorded(ps[..i]), ps[i]);
  }

  /** The table is the exact closure after every call if and only if every call found
      its pair extendable. */
  lemma {:induction false} RunExact(ps: seq<Pair>, n: nat)
    requires n <= |ps|
    ensures (forall i | 0 <= i <= n :: ExactAt(ps, i)) <==> (forall i | 0 <= i < n :: ExtendableAt(ps, i))
  {
    hide ExactAt, ExtendableAt;
    if n == 0 {
      NothingIsExact(ps);
    } else {
      RunExact(ps, n - 1);
      if ExactAt(ps, n - 1) {
        StepExact(ps, n - 1);
      }
    }
  }

  /** The order scanners are asked to keep: the parent has its own row and the child
      nothing below it yet. */
  ghost predicate TopDown(t: Closure, p: Pair) {
    && (p.parent == p.child || (p.parent, p.parent) in t)
    && forall x :: (p.child, x) in t ==> x == p.child
  }

  ghost predicate TopDownOrAgain(ps: seq<Pair>, i: nat)
    requires i < |ps|
  {
    TopDown(After(ps, i), ps[i]) || ps[i] in ps[..i]
  }

  /** Recording a pair twice in a row is recording it once, in every table. */
  lemma RecordAgain(t: Closure, p: Pair)
    ensures Record(Record(t, p), p) == Record(t, p)
  {
    var u := Record(t, p);
    forall a, d
      ensures (a, d) in Record(u, p) <==> (a, d) in u
      ensures (a, d) in u ==> Record(u, p)[(a, d)] == u[(a, d)]
    {
      RecordExact(t, p, a, d);
      RecordExact(t, p, a, p.parent);
      RecordExact(u, p, a, d);
    }
    SameTable(Record(u, p), u);
  }

  /** In an exact table every pair recorded so far has left all it can leave. */
  lemma RecordExactAgain(t: Closure, ps: set<Pair>, p: Pair)
    requires Exact(t, ps) && p in ps
    ensures Record(t, p) == t
  {
    assert Known(ps, p.child);
    ReachSelf(ps, p.child);
    assert InClosure(ps, p.child, p.child);
    forall a, d
      ensures (a, d) in Record(t, p) <==> (a, d) in t
      ensures (a, d) in t ==> Record(t, p)[(a, d)] == t[(a, d)]
    {
      RecordExact(t, p, a, d);
      if (a, p.parent) in t {
        assert InClosure(ps, a, p.parent);
        ReachStep(ps, p, a);
        assert InClosure(ps, a, p.child);
      }
    }
    SameTable(Record(t, p), t);
  }

  lemma SameTable(t: Closure, u: Closure)
    requires forall a, d :: (a, d) in t <==> (a, d) in u
    requires forall a, d :: (a, d) in t ==> t[(a, d)] == u[(a, d)]
    ensures t == u
  {
    assert forall k :: k in t <==> k in u by {
      forall k: (string, string) ensures k in t <==> k in u {
        assert k == (k.0, k.1);
      }
    }
    assert forall k :: k in t ==> t[k] == u[k] by {
      forall k: (string, string) | k in t ensures t[k] == u[k] {
        assert k == (k.0, k.1);
      }
    }
  }

  lemma OrderlyExtends(ps: seq<Pair>, i: nat)
    requires i < |ps| && ExactAt(ps, i) && TopDownOrAgain(ps, i)
    ensures ExtendableAt(ps, i)
  {
    hide Record, RecordAll;
    var t, p, rs := After(ps, i), ps[i], Recorded(ps[..i]);
    if p in ps[..i] {
      hide Exact, Extendable;
      RecordExactAgain(t, rs, p);
      assert rs + {p} == rs;
      RecordKeepsExact(t, rs, p);
    }
  }

  /** Runs that record top-down, or record a pair again, keep the table exactly the
      reflexive-transitive closure. */
  lemma {:induction false} TopDownExact(ps: seq<Pair>, n: nat)
    requires n <= |ps| && forall i | 0 <= i < n :: TopDownOrAgain(ps, i)
    ensures ExactAt(ps, n)
  {
    hide ExactAt, ExtendableAt, TopDownOrAgain;
    if n == 0 {
      NothingIsExact(ps);
    } else {
      TopDownExact(ps, n - 1);
      OrderlyExtends(ps, n - 1);
      StepExact(ps, n - 1);
    }
  }

  /** An organisation, its folder and the folder's project, recorded top-down. */
  function ThreeLevels(org: string, folder: string, project: string): seq<Pair> {
    [Pair(org, org), Pair(folder, org), Pair(project, folder)]
  }

  function SixRows(org: string, folder: string, project: string): Closure {
    map[(org, org) := 0, (folder, folder) := 0, (project, project) := 0,
        (org, folder) := 1, (folder, project) := 1, (org, project) := 2]
  }

  /** The rows of a table with those of one more pair, given by their entries. */
  lemma RecordIs(t: Closure, p: Pair, u: Closure)
    requires forall a, d :: (a, d) in u <==> (a, d) in t || (d == p.child && (a == p.child || (a, p.parent) in t))
    requires forall a, d :: (a, d) in t ==> u[(a, d)] == t[(a, d)]
    requires forall a, d :: (a, d) in u && (a, d) !in t ==> u[(a, d)] == if a == p.child then 0 else t[(a, p.parent)] + 1
    ensures Record(t, p) == u
  {
    forall a, d
      ensures (a, d) in Record(t, p) <==> (a, d) in u
      ensures (a, d) in u ==> Record(t, p)[(a, d)] == u[(a, d)]
    {
      RecordExact(t, p, a, d);
    }
    hide Record;
    SameTable(Record(t, p), u);
  }

  lemma RecordedInTurn(t: Closure, p: Pair, q: Pair, r: Pair)
    ensures RecordAll(t, [p, q, r]) == Record(Record(Record(t, p), q), r)
  {
    hide Record;
    assert [p, q, r][..2] == [p, q] && [p, q][..1] == [p] && [p][..0] == [];
    assert RecordAll(t, [p]) == Record(RecordAll(t, []), p);
    assert RecordAll(t, [p, q]) == Record(RecordAll(t, [p]), q);
  }

  /** Three levels leave six rows: one for each node itself and one for each of the
      three ancestries, at their depths. */
  lemma ThreeLevelsWriteSixRows(org: string, folder: string, project: string)
    requires org != folder && folder != project && org != project
    ensures RecordAll(map[], ThreeLevels(org, folder, project)) == SixRows(org, folder, project)
    ensures |SixRows(org, folder, project)| == 6
  {
    hide Record, RecordAll;
    var one := map[(org, org) := 0];
    var two := map[(org, org) := 0, (folder, folder) := 0, (org, folder) := 1];
    RecordIs(map[], Pair(org, org), one);
    RecordIs(one, Pair(folder, org), two);
    RecordIs(two, Pair(project, folder), SixRows(org, folder, project));
    RecordedInTurn(map[], Pair(org, org), Pair(folder, org), Pair(project, folder));
    SixKeys(org, folder, project);
  }

  lemma SixKeys(org: string, folder: string, project: string)
    requires org != folder && folder != project && org != project
    ensures |SixRows(org, folder, project)| == 6
  {
    var keys := {(org, org), (folder, folder), (project, project), (org, folder), (folder, project), (org, project)};
    assert SixRows(org, folder, project).Keys == keys;
    assert |keys| == 6;
  }

  /** Runs that fail: every parent has its own row, but b gets its parent after c was
      recorded below it, and the row (a, c) is never written. */
  function LateParent(a: string, b: string, c: string): seq<Pair> {
    [Pair(b, b), Pair(c, b), Pair(a, a), Pair(b, a)]
  }

  lemma LateParentMissesRow(a: string, b: string, c: string)
    requires a != b && b != c && a != c
    ensures (a, c) !in RecordAll(map[], LateParent(a, b, c))
    ensures InClosure(Recorded(LateParent(a, b, c)), a, c)
  {
    hide *;
    LateParentTable(a, b, c);
    LateParentReach(a, b, c);
  }

  lemma LateParentTable(a: string, b: string, c: string)
    requires a != b && b != c && a != c
    ensures (a, c) !in RecordAll(map[], LateParent(a, b, c))
  {
    hide Record, RecordAll;
    var ps := LateParent(a, b, c);
    NothingYet(ps);
    RunStep(ps, 0, a, b);
    RunStep(ps, 0, a, c);
    RunStep(ps, 1, a, c);
    RunStep(ps, 2, a, c);
    RunStep(ps, 3, a, c);
    AllAfter(ps);
  }

  lemma NothingYet(ps: seq<Pair>)
    ensures After(ps, 0) == map[]
  {
  }

  lemma AllAfter(ps: seq<Pair>)
    ensures After(ps, |ps|) == RecordAll(map[], ps)
  {
    assert ps[..|ps|] == ps;
  }

  lemma LateParentReach(a: string, b: string, c: string)
    ensures InClosure(Recorded(LateParent(a, b, c)), a, c)
  {
    hide Reach;
    var ps := LateParent(a, b, c);
    var rs := Recorded(ps);
    assert ps[1] in rs && ps[3] in rs;
    ReachSelf(rs, a);
    ReachStep(rs, Pair(b, a), a);
    ReachStep(rs, Pair(c, b), a);
  }

  lemma RunStep(ps: seq<Pair>, i: nat, a: string, x: string)
    requires i < |ps|
    ensures (a, x) in After(ps, i + 1) <==>
      (a, x) in After(ps, i) || (x == ps[i].child && (a == ps[i].child || (a, ps[i].parent) in After(ps, i)))
  {
    AfterStep(ps, i);
    RecordExact(After(ps, i), ps[i], a, x);
  }

  // ----------------------------------------------------------------- forests

  ghost predicate Acyclic(ps: set<Pair>) {
    forall x, k :: HasChain(ps, x, x, k) ==> k == 0
  }

  predicate OneParent(ps: set<Pair>) {
    forall p, q :: p in ps && q in ps && p.child == q.child && p.child != p.parent && q.child != q.parent
      ==> p.parent == q.parent
  }

  lemma {:induction false} SameClimb(ps: set<Pair>, s: seq<string>, t: seq<string>, i: nat)
    requires OneParent(ps) && Climbs(ps, s) && Climbs(ps, t) && s[0] == t[0]
    requires i < |s| && i < |t|
    ensures s[i] == t[i]
  {
    if i > 0 {
      var j := i - 1;
      SameClimb(ps, s, t, j);
      assert Pair(s[j], s[j+1]) in ps && Pair(t[j], t[j+1]) in ps;
    }
  }

  lemma {:induction false} ClimbDrop(ps: set<Pair>, s: seq<string>, i: nat)
    requires Climbs(ps, s) && i < |s|
    ensures Climbs(ps, s[i..])
  {
    if i == 0 {
      assert s[0..] == s;
    } else {
      ClimbTail(ps, s);
      ClimbDrop(ps, s[1..], i - 1);
      assert s[1..][i-1..] == s[i..];
    }
  }

  lemma ChainRest(ps: set<Pair>, s: seq<string>, a: string, d: string, k: nat, i: nat)
    requires ChainOf(ps, s, a, d, k) && i <= k
    ensures HasChain(ps, a, s[i], k - i)
  {
    ClimbDrop(ps, s, i);
    assert ChainOf(ps, s[i..], a, s[i], k - i);
  }

  lemma NoLongerChain(ps: set<Pair>, s: seq<string>, t: seq<string>, a: string, d: string, k: nat, j: nat)
    requires OneParent(ps) && Acyclic(ps)
    requires ChainOf(ps, s, a, d, k) && ChainOf(ps, t, a, d, j)
    ensures j <= k
  {
    if k < j {
      SameClimb(ps, s, t, k);
      ChainRest(ps, t, a, d, j, k);
    }
  }

  lemma OneChain(ps: set<Pair>, a: string, d: string, k: nat, j: nat)
    requires OneParent(ps) && Acyclic(ps) && HasChain(ps, a, d, k) && HasChain(ps, a, d, j)
    ensures k == j
  {
    var s :| ChainOf(ps, s, a, d, k);
    var t :| ChainOf(ps, t, a, d, j);
    NoLongerChain(ps, s, t, a, d, k, j);
    NoLongerChain(ps, t, s, a, d, j, k);
  }

  /** In a forest the depth of a row is the length of the only chain between its ends,
      whatever order the pairs came in. */
  lemma ForestDepth(ps: seq<Pair>, a: string, d: string, k: nat)
    requires OneParent(Recorded(ps)) && Acyclic(Recorded(ps))
    requires (a, d) in RecordAll(map[], ps) && HasChain(Recorded(ps), a, d, k)
    ensures RecordAll(map[], ps)[(a, d)] == k
  {
    hide RecordAll, OneParent, Acyclic, HasChain;
    EveryRowJustified(ps);
    OneChain(Recorded(ps), a, d, k, RecordAll(map[], ps)[(a, d)]);
  }

  // --------------------------------------------------- reversed contains edges

  /** A `contains` row that points from a node to one of its ancestors. */
  predicate IsReversed(t: Closure, c: Contains) {
    (c.to, c.from) in t && t[(c.to, c.from)] >= 1
  }

  /** Every `contains` row was written for a recorded pair. */
  predicate FromPairs(cs: set<Contains>, ps: set<Pair>) {
    forall c :: c in cs ==> c.from != c.to && Pair(c.to, c.from) in ps
  }

  /** Every recorded pair of distinct nodes has its `contains` row. */
  predicate AllPairs(cs: set<Contains>, ps: set<Pair>) {
    forall p :: p in ps && p.child != p.parent ==> Contains(p.parent, p.child) in cs
  }

  lemma NoneReversed(t: Closure, ps: set<Pair>, cs: set<Contains>, c: Contains)
    requires Justified(t, ps) && FromPairs(cs, ps) && Acyclic(ps) && c in cs
    ensures !IsReversed(t, c)
  {
    if IsReversed(t, c) {
      var k := t[(c.to, c.from)];
      ChainBelow(ps, Pair(c.to, c.from), c.to, k);
    }
  }

  lemma CycleReverses(t: Closure, ps: set<Pair>, cs: set<Contains>, x: string, k: nat)
    requires Justified(t, ps) && Exact(t, ps) && AllPairs(cs, ps) && HasChain(ps, x, x, k) && k > 0
    ensures exists c :: c in cs && IsReversed(t, c)
  {
    var s :| ChainOf(ps, s, x, x, k);
    var y := s[0+1];
    var p := Pair(x, y);
    assert p in ps;
    ClimbTail(ps, s);
    assert ChainOf(ps, s[1..], x, y, k - 1);
    assert HasChain(ps, x, y, k - 1);
    assert InClosure(ps, x, y);
    assert HasChain(ps, x, y, t[(x, y)]);
    assert Contains(y, x) in cs && IsReversed(t, Contains(y, x));
  }

  /** Over the rows the hierarchy writes, none is reversed if the recorded pairs are
      acyclic; when the closure is exact and no endpoint was missing, only if. */
  lemma ReversedExact(t: Closure, ps: set<Pair>, cs: set<Contains>)
    requires Justified(t, ps) && FromPairs(cs, ps)
    ensures Acyclic(ps) ==> forall c :: c in cs ==> !IsReversed(t, c)
    ensures Exact(t, ps) && AllPairs(cs, ps) && !Acyclic(ps) ==> exists c :: c in cs && IsReversed(t, c)
  {
    if Acyclic(ps) {
      forall c | c in cs ensures !IsReversed(t, c) {
        NoneReversed(t, ps, cs, c);
      }
    } else if Exact(t, ps) && AllPairs(cs, ps) {
      var x, k :| HasChain(ps, x, x, k) && k != 0;
      CycleReverses(t, ps, cs, x, k);
    }
  }

  // ---------------------------------------------------------------- the store

  /** What a batch reports: how many pairs lacked an endpoint, and the first of them. */
  datatype Missing = Missing(count: nat, first: Option<Pair>)

  predicate LacksEndpoint(live: set<string>, p: Pair) {
    p.child != p.parent && (p.parent !in live || p.child !in live)
  }

  function MissingOf(live: set<string>, ps: seq<Pair>): Missing {
    if ps == [] then Missing(0, None)
    else
      var m, p := MissingOf(live, ps[..|ps|-1]), ps[|ps|-1];
      if !LacksEndpoint(live, p) then m
      else Missing(m.count + 1, if m.count == 0 then Some(p) else m.first)
  }

  function LackingAt(live: set<string>, ps: seq<Pair>): set<int> {
    set i | 0 <= i < |ps| && LacksEndpoint(live, ps[i])
  }

  lemma LackingGrows(live: set<string>, init: seq<Pair>, p: Pair)
    ensures LackingAt(live, init + [p]) == LackingAt(live, init) + if LacksEndpoint(live, p) then {|init|} else {}
  {
    var ps := init + [p];
    forall i
      ensures i in LackingAt(live, ps) <==> i in LackingAt(live, init) || (i == |init| && LacksEndpoint(live, p))
    {
      assert 0 <= i < |init| ==> ps[i] == init[i];
    }
  }

  /** The count is the number of lacking pairs, and the first one is kept. */
  lemma {:induction false} MissingExact(live: set<string>, ps: seq<Pair>)
    ensures var m := MissingOf(live, ps);
      && m.count == |LackingAt(live, ps)|
      && (m.first == None <==> m.count == 0)
      && (m.first.Some? ==> exists i :: FirstLacking(live, ps, i) && m.first == Some(ps[i]))
  {
    if ps == [] {
      assert LackingAt(live, ps) == {};
    } else {
      var init, p := ps[..|ps|-1], ps[|ps|-1];
      MissingExact(live, init);
      LackingGrows(live, init, p);
      assert ps == init + [p];
      FirstStays(live, init, p);
      if MissingOf(live, init).count == 0 && LacksEndpoint(live, p) {
        assert FirstLacking(live, ps, |init|);
      }
    }
  }

  predicate FirstLacking(live: set<string>, ps: seq<Pair>, i: int) {
    i in LackingAt(live, ps) && forall j :: j in LackingAt(live, ps) ==> i <= j
  }

  lemma FirstStays(live: set<string>, init: seq<Pair>, p: Pair)
    ensures forall i :: FirstLacking(live, init, i) ==> FirstLacking(live, init + [p], i) && (init + [p])[i] == init[i]
  {
    LackingGrows(live, init, p);
  }

  function ContainsOf(live: set<string>, ps: seq<Pair>): set<Contains> {
    set p | p in ps && p.child != p.parent && !LacksEndpoint(live, p) :: Contains(p.parent, p.child)
  }

  lemma ContainsJoin(live: set<string>, ps: seq<Pair>, qs: seq<Pair>)
    ensures ContainsOf(live, ps + qs) == ContainsOf(live, ps) + ContainsOf(live, qs)
  {
    assert forall p :: p in ps + qs <==> p in ps || p in qs;
  }

  lemma OneMoreRow(live: set<string>, cs: set<Contains>, ps: seq<Pair>, p: Pair)
    requires FromPairs(cs, Recorded(ps))
    ensures FromPairs(cs + ContainsOf(live, [p]), Recorded(ps + [p]))
  {
    var ds := cs + ContainsOf(live, [p]);
    forall c | c in ds ensures c.from != c.to && Pair(c.to, c.from) in Recorded(ps + [p]) {
      if c in cs {
        assert Pair(c.to, c.from) in Recorded(ps);
      } else {
        assert c == Contains(p.parent, p.child);
        assert p in ps + [p];
      }
    }
  }

  lemma OneRow(live: set<string>, p: Pair)
    ensures ContainsOf(live, [p]) ==
      if p.child == p.parent || LacksEndpoint(live, p) then {} else {Contains(p.parent, p.child)}
  {
    assert p in [p];
  }

  lemma RecordOne(t: Closure, ps: seq<Pair>, p: Pair)
    requires t == RecordAll(map[], ps)
    ensures AncestorEntries(SelfEntry(t, p.child), p.child, p.parent) == RecordAll(map[], ps + [p])
  {
    hide AncestorEntries, SelfEntry;
    assert (ps + [p])[..|ps|] == ps;
  }

  /** A pair of two nodes one of which is not stored. */
  predicate Unattached(live: set<string>, p: Pair) {
    p.child != p.parent && !(p.child in live && p.parent in live)
  }

  /** The row of some pair of two stored nodes. */
  ghost predicate Written(live: set<string>, ps: seq<Pair>, c: Contains) {
    c.from != c.to && c.from in live && c.to in live && Pair(c.to, c.from) in ps
  }

  lemma PairWritten(live: set<string>, p: Pair)
    ensures LacksEndpoint(live, p) <==> Unattached(live, p)
    ensures ContainsOf(live, [p]) == if p.child != p.parent && p.child in live && p.parent in live then {Contains(p.parent, p.child)} else {}
  {
    OneRow(live, p);
  }

  lemma AllWritten(live: set<string>, ps: seq<Pair>)
    ensures forall c :: c in ContainsOf(live, ps) <==> Written(live, ps, c)
    ensures MissingOf(live, ps).count == |set i | 0 <= i < |ps| && Unattached(live, ps[i])|
  {
    forall c ensures c in ContainsOf(live, ps) <==> Written(live, ps, c) {
      if Written(live, ps, c) {
        assert Contains(Pair(c.to, c.from).parent, Pair(c.to, c.from).child) == c;
      }
    }
    MissingExact(live, ps);
    assert (set i | 0 <= i < |ps| && Unattached(live, ps[i])) == LackingAt(live, ps);
  }

  class HierarchyStore {
    var closure: Closure
    var contains: set<Contains>
    var live: set<string>
    ghost var recorded: seq<Pair>

    /** The closure is the run of every committed call, and no containment row lacks
        its pair. */
    ghost predicate Valid()
      reads this
    {
      && closure == RecordAll(map[], recorded)
      && FromPairs(contains, Recorded(recorded))
    }

    constructor (live: set<string>)
      ensures Valid() && recorded == [] && contains == {} && this.live == live
    {
      closure := map[];
      contains := {};
      this.live := live;
      recorded := [];
    }

    method RecordHierarchyTx(p: Pair) returns (missing: bool)
      requires Valid()
      modifies `closure, `contains, `recorded
      ensures Valid() && recorded == old(recorded) + [p]
      ensures missing == LacksEndpoint(live, p)
      ensures contains == old(contains) + ContainsOf(live, [p])
      ensures missing <==> p.child != p.parent && !(p.child in live && p.parent in live)
      ensures contains == old(contains) +
        if p.child != p.parent && p.child in live && p.parent in live then {Contains(p.parent, p.child)} else {}
    {
      PairWritten(live, p);
      hide AncestorEntries, SelfEntry, RecordAll, ContainsOf, FromPairs, Recorded;
      RecordOne(closure, recorded, p);
      OneMoreRow(live, contains, recorded, p);
      OneRow(live, p);
      closure := SelfEntry(closure, p.child);
      closure := AncestorEntries(closure, p.child, p.parent);
      recorded := recorded + [p];
      if p.child == p.parent {
        assert contains + {} == contains;
        return false;
      }
      if p.parent !in live || p.child !in live {
        assert contains + {} == contains;
        return true;
      }
      contains := contains + {Contains(p.parent, p.child)};
      missing := false;
    }

    /** One transaction for a list of pairs. A database error, here at pair failAt,
        rolls the whole list back. */
    method RecordHierarchyBatch(ps: seq<Pair>, failAt: Option<nat>) returns (ok: bool, missing: Missing)
      requires Valid()
      modifies `closure, `contains, `recorded
      ensures Valid()
      ensures ok <==> failAt == None || failAt.value >= |ps|
      ensures ok ==> recorded == old(recorded) + ps
      ensures ok ==> contains == old(contains) + ContainsOf(live, ps)
      ensures ok ==> missing == MissingOf(live, ps)
      ensures ok ==> forall c :: c in contains <==> c in old(contains) || Written(live, ps, c)
      ensures ok ==> missing.count == |set i | 0 <= i < |ps| && Unattached(live, ps[i])|
      ensures !ok ==> unchanged(`closure) && unchanged(`contains) && unchanged(`recorded)
    {
      AllWritten(live, ps);
      hide ContainsOf, LacksEndpoint, RecordAll, FromPairs, Recorded, Written, Unattached;
      var closure0, contains0 := closure, contains;
      ghost var recorded0 := recorded;
      missing := Missing(0, None);
      assert contains + ContainsOf(live, ps[..0]) == contains by {
        NoRows(live);
      }
      for i := 0 to |ps|
        invariant Valid()
        invariant failAt.Some? ==> i <= failAt.value
        invariant recorded == recorded0 + ps[..i]
        invariant contains == contains0 + ContainsOf(live, ps[..i])
        invariant missing == MissingOf(live, ps[..i])
      {
        if failAt == Some(i) {
          closure, contains, recorded := closure0, contains0, recorded0;
          return false, Missing(0, None);
        }
        var lacks := RecordHierarchyTx(ps[i]);
        assert ps[..i+1] == ps[..i] + [ps[i]] && ps[..i+1][..i] == ps[..i];
        ContainsJoin(live, ps[..i], [ps[i]]);
        if lacks {
          missing := Missing(missing.count + 1, if missing.count == 0 then Some(ps[i]) else missing.first);
        }
      }
      assert ps[..|ps|] == ps;
      ok := true;
    }

    /** The drift guard: the `contains` rows that point at an ancestor. */
    method ReversedContainsEdges() returns (r: set<Contains>)
      requires Valid()
      ensures r == set c | c in contains && IsReversed(closure, c)
      ensures forall c :: c in r <==> c in contains && (c.to, c.from) in closure && closure[(c.to, c.from)] > 0
      ensures Acyclic(Recorded(recorded)) ==> r == {}
      ensures ExactAt(recorded, |recorded|) && AllPairs(contains, Recorded(recorded)) && r == {} ==> Acyclic(Recorded(recorded))
    {
      forall c ensures IsReversed(closure, c) <==> (c.to, c.from) in closure && closure[(c.to, c.from)] > 0 {
      }
      hide RecordAll, FromPairs, Recorded, Acyclic, AllPairs, IsReversed, Justified, Exact;
      r := set c | c in contains && IsReversed(closure, c);
      EveryRowJustified(recorded);
      ReversedExact(closure, Recorded(recorded), contains);
      assert recorded[..|recorded|] == recorded;
      assert forall c :: c in contains && IsReversed(closure, c) ==> c in r;
    }
  }

  lemma NoRows(live: set<string>)
    ensures ContainsOf(live, []) == {}
  {
  }
}
