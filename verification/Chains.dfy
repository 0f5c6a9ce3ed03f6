/** Version chains: a table in which every change appends a row that supersedes its
    predecessor. Shared by resources and quotas.

    Row ids are drawn from an increasing counter, as UUIDv7 values are (section 5.7
    of RFC 9562): a later row has a greater id. */
module Chains {
  import opened Wrappers

  datatype Version<K, R, P> = Version(
    key: K,                 // natural key
    root: R,                // root_id
    prev: Option<nat>,      // previous_version_id
    next: Option<nat>,      // superseded_by
    discoveredAt: string,
    discoveredBy: string,
    body: P)
  {
    predicate Current() { next.None? }
  }

  type Table<K, R, P> = map<nat, Version<K, R, P>>

  // ------------------------------------------------------------ invariants

  /** The partial unique index: one current row per natural key. */
  ghost predicate OneCurrent<K, R, P>(t: Table<K, R, P>) {
    forall i, j :: i in t && j in t && t[i].Current() && t[j].Current() && t[i].key == t[j].key ==> i == j
  }

  /** What a new version shares with its predecessor. */
  predicate SameChain<K(==), R(==), P>(a: Version<K, R, P>, b: Version<K, R, P>) {
    a.key == b.key && a.root == b.root && a.discoveredAt == b.discoveredAt && a.discoveredBy == b.discoveredBy
  }

  ghost predicate BackLinks<K, R, P>(t: Table<K, R, P>) {
    forall i :: i in t && t[i].prev.Some? ==>
      var p := t[i].prev.value;
      p < i && p in t && t[p].next == Some(i) && SameChain(t[p], t[i])
  }

  ghost predicate ForwardLinks<K, R, P>(t: Table<K, R, P>) {
    forall i :: i in t && t[i].next.Some? ==>
      var n := t[i].next.value;
      n in t && t[n].prev == Some(i)
  }

  ghost predicate OneRoot<K, R, P>(t: Table<K, R, P>) {
    forall i, j :: i in t && j in t && t[i].prev.None? && t[j].prev.None? && t[i].key == t[j].key ==> i == j
  }

  ghost predicate IdsBelow<K, R, P>(t: Table<K, R, P>, n: nat) {
    forall i :: i in t ==> i < n
  }

  /** What holds between operations. */
  ghost predicate Inv<K, R, P>(t: Table<K, R, P>, n: nat) {
    OneCurrent(t) && BackLinks(t) && ForwardLinks(t) && OneRoot(t) && IdsBelow(t, n)
  }

  // ------------------------------------------------------------ statements

  /** A row that the partial unique index would reject. */
  ghost predicate Conflicts<K, R, P>(t: Table<K, R, P>, v: Version<K, R, P>) {
    v.Current() && exists i :: i in t && t[i].Current() && t[i].key == v.key
  }

  ghost predicate IsCurrentOf<K, R, P>(t: Table<K, R, P>, key: K, i: nat) {
    i in t && t[i].Current() && t[i].key == key
  }

  ghost predicate HasCurrent<K, R, P>(t: Table<K, R, P>, key: K) {
    exists i :: IsCurrentOf(t, key, i)
  }

  ghost function CurrentOf<K, R, P>(t: Table<K, R, P>, key: K): (i: nat)
    requires HasCurrent(t, key)
    ensures IsCurrentOf(t, key, i)
  {
    var i :| IsCurrentOf(t, key, i); i
  }

  lemma CurrentIsUnique<K, R, P>(t: Table<K, R, P>, key: K, i: nat)
    requires OneCurrent(t) && IsCurrentOf(t, key, i)
    ensures HasCurrent(t, key) && CurrentOf(t, key) == i
  {
  }

  function Supersede<K, R, P>(t: Table<K, R, P>, i: nat, succ: nat): Table<K, R, P>
    requires i in t
  {
    t[i := t[i].(next := Some(succ))]
  }

  function Touch<K, R, P>(t: Table<K, R, P>, i: nat, body: P): Table<K, R, P>
    requires i in t
  {
    t[i := t[i].(body := body)]
  }

  function Successor<K, R, P>(v: Version<K, R, P>, i: nat, body: P): Version<K, R, P> {
    v.(prev := Some(i), next := None, body := body)
  }

  /** Both halves of a split. */
  function Split<K, R, P>(t: Table<K, R, P>, i: nat, id: nat, body: P): Table<K, R, P>
    requires i in t
  {
    Supersede(t, i, id)[id := Successor(t[i], i, body)]
  }

  /** Nothing but row i changed, and a row was added at most at id. */
  ghost predicate OnlyAt<K, R, P>(a: Table<K, R, P>, b: Table<K, R, P>, i: nat, id: nat) {
    b.Keys <= a.Keys + {id} && forall j :: j in a && j != i ==> j in b && b[j] == a[j]
  }

  /** A split changes the old row in superseded_by alone, and the new row is current, in
      the old one's place, with the new body. */
  lemma SplitExact<K, R, P>(t: Table<K, R, P>, i: nat, id: nat, body: P)
    requires i in t && id !in t
    ensures var u := Split(t, i, id, body);
      && u.Keys == t.Keys + {id} && OnlyAt(t, u, i, id)
      && u[i] == t[i].(next := Some(id))
      && u[id] == Version(t[i].key, t[i].root, Some(i), None, t[i].discoveredAt, t[i].discoveredBy, body)
  {
  }

  lemma TouchExact<K, R, P>(t: Table<K, R, P>, i: nat, body: P)
    requires i in t
    ensures var u := Touch(t, i, body); u.Keys == t.Keys && OnlyAt(t, u, i, i) && u[i] == t[i].(body := body)
  {
    assert Touch(t, i, body).Keys == t.Keys;
  }

  // ----------------------------------------------------------------- sizes

  lemma TouchSize<K, R, P>(t: Table<K, R, P>, i: nat, v: Version<K, R, P>)
    requires i in t
    ensures |t[i := v]| == |t|
  {
    assert t[i := v].Keys == t.Keys;
    assert |t| == |t.Keys| && |t[i := v]| == |t[i := v].Keys|;
  }

  lemma InsertSize<K, R, P>(t: Table<K, R, P>, id: nat, v: Version<K, R, P>)
    requires id !in t
    ensures |t[id := v]| == |t| + 1
  {
    assert t[id := v].Keys == t.Keys + {id};
    assert |t| == |t.Keys| && |t[id := v]| == |t[id := v].Keys|;
  }

  lemma SplitSize<K, R, P>(t: Table<K, R, P>, i: nat, id: nat, body: P)
    requires i in t && id !in t
    ensures |Split(t, i, id, body)| == |t| + 1
  {
    TouchSize(t, i, t[i].(next := Some(id)));
    InsertSize(Supersede(t, i, id), id, Successor(t[i], i, body));
  }

  /** The index holds between the two halves of a split, the second half does not
      conflict, and in the other order it would. */
  lemma SplitOrder<K, R, P>(t: Table<K, R, P>, i: nat, id: nat, body: P)
    requires OneCurrent(t) && i in t && t[i].Current() && id !in t
    ensures OneCurrent(Supersede(t, i, id))
    ensures !Conflicts(Supersede(t, i, id), Successor(t[i], i, body))
    ensures OneCurrent(Split(t, i, id, body))
    ensures Conflicts(t, Successor(t[i], i, body))
  {
    assert IsCurrentOf(t, t[i].key, i);
  }

  lemma SplitKeepsBackLinks<K, R, P>(t: Table<K, R, P>, i: nat, id: nat, body: P)
    requires BackLinks(t) && i in t && t[i].Current() && i < id && id !in t
    ensures BackLinks(Split(t, i, id, body))
  {
    var t' := Split(t, i, id, body);
    forall j | j in t' && t'[j].prev.Some?
      ensures var p := t'[j].prev.value; p < j && p in t' && t'[p].next == Some(j) && SameChain(t'[p], t'[j])
    {
      if j != id {
        assert t[j].prev == t'[j].prev;
      }
    }
  }

  lemma SplitKeepsForwardLinks<K, R, P>(t: Table<K, R, P>, i: nat, id: nat, body: P)
    requires ForwardLinks(t) && i in t && id !in t
    ensures ForwardLinks(Split(t, i, id, body))
  {
    var t' := Split(t, i, id, body);
    forall j | j in t' && t'[j].next.Some?
      ensures t'[j].next.value in t' && t'[t'[j].next.value].prev == Some(j)
    {
      if j != i {
        assert t[j].next == t'[j].next;
      }
    }
  }

  lemma SplitKeepsOneRoot<K, R, P>(t: Table<K, R, P>, i: nat, id: nat, body: P)
    requires OneRoot(t) && i in t && id !in t
    ensures OneRoot(Split(t, i, id, body))
  {
  }

  lemma SplitKeepsInv<K, R, P>(t: Table<K, R, P>, n: nat, i: nat, id: nat, body: P)
    requires Inv(t, n) && i in t && t[i].Current() && n <= id
    ensures Inv(Split(t, i, id, body), id + 1)
  {
    assert i < id && id !in t;
    SplitOrder(t, i, id, body);
    SplitKeepsBackLinks(t, i, id, body);
    SplitKeepsForwardLinks(t, i, id, body);
    SplitKeepsOneRoot(t, i, id, body);
    hide OneCurrent, BackLinks, ForwardLinks, OneRoot;
  }

  /** The same rows with other bodies. */
  ghost predicate OnlyBodiesDiffer<K, R, P>(t: Table<K, R, P>, t': Table<K, R, P>) {
    t'.Keys == t.Keys && forall i :: i in t ==> t'[i] == t[i].(body := t'[i].body)
  }

  lemma BodiesKeepLinks<K, R, P>(t: Table<K, R, P>, t': Table<K, R, P>)
    requires OnlyBodiesDiffer(t, t') && BackLinks(t) && ForwardLinks(t)
    ensures BackLinks(t') && ForwardLinks(t')
  {
  }

  lemma BodiesKeepUniqueness<K, R, P>(t: Table<K, R, P>, t': Table<K, R, P>)
    requires OnlyBodiesDiffer(t, t') && OneCurrent(t) && OneRoot(t)
    ensures OneCurrent(t') && OneRoot(t')
  {
  }

  lemma BodiesKeepInv<K, R, P>(t: Table<K, R, P>, t': Table<K, R, P>, n: nat)
    requires OnlyBodiesDiffer(t, t') && Inv(t, n)
    ensures Inv(t', n)
  {
    BodiesKeepLinks(t, t');
    BodiesKeepUniqueness(t, t');
    hide OneCurrent, OneRoot, BackLinks, ForwardLinks;
  }

  /** Following superseded_by from any row of a chain ends at a current row. */
  lemma {:induction false} ChainHasCurrent<K, R, P>(t: Table<K, R, P>, n: nat, i: nat)
    requires Inv(t, n) && i in t
    ensures HasCurrent(t, t[i].key)
    decreases n - i
  {
    if t[i].Current() {
      assert IsCurrentOf(t, t[i].key, i);
    } else {
      ChainHasCurrent(t, n, t[i].next.value);
    }
  }

  lemma FirstKeepsLinks<K, R, P>(t: Table<K, R, P>, id: nat, v: Version<K, R, P>)
    requires BackLinks(t) && ForwardLinks(t) && id !in t && v.prev.None? && v.Current()
    ensures BackLinks(t[id := v]) && ForwardLinks(t[id := v])
  {
    assert forall i :: i in t ==> t[id := v][i] == t[i];
  }

  lemma FirstKeepsInv<K, R, P>(t: Table<K, R, P>, n: nat, id: nat, v: Version<K, R, P>)
    requires Inv(t, n) && n <= id && v.prev.None? && v.Current() && !HasCurrent(t, v.key)
    ensures Inv(t[id := v], id + 1)
  {
    FirstKeepsLinks(t, id, v);
    forall i | i in t
      ensures t[i].key != v.key
    {
      ChainHasCurrent(t, n, i);
    }
    hide BackLinks, ForwardLinks, HasCurrent;
  }

  lemma InvWiden<K, R, P>(t: Table<K, R, P>, n: nat, m: nat)
    requires Inv(t, n) && n <= m
    ensures Inv(t, m)
  {
  }

  // ------------------------------------------------- the chain as one list

  predicate Increasing(s: seq<nat>) {
    forall a, b :: 0 <= a < b < |s| ==> s[a] < s[b]
  }

  ghost predicate RowsOf<K, R, P>(t: Table<K, R, P>, key: K, s: seq<nat>) {
    forall i :: i in s <==> i in t && t[i].key == key
  }

  /** s lists the chain of a key from its root to its current row: neighbours are
      linked both ways, and all rows share root_id and discovery. */
  ghost predicate IsChain<K, R, P>(t: Table<K, R, P>, key: K, s: seq<nat>) {
    && Increasing(s) && RowsOf(t, key, s)
    && (s != [] ==> t[s[0]].prev.None? && t[s[|s|-1]].Current())
    && (forall a :: 0 <= a < |s| - 1 ==> t[s[a]].next == Some(s[a+1]))
    && (forall a :: 1 <= a < |s| ==> t[s[a]].prev == Some(s[a-1]))
    && (forall a :: 0 <= a < |s| ==> SameChain(t[s[a]], t[s[0]]))
  }

  /** Following previous_version_id from any row ends at the root of its chain. */
  lemma {:induction false} ChainHasRoot<K, R, P>(t: Table<K, R, P>, n: nat, i: nat) returns (r: nat)
    requires Inv(t, n) && i in t
    ensures r in t && t[r].prev.None? && SameChain(t[r], t[i])
    decreases i
  {
    hide OneCurrent, ForwardLinks, OneRoot;
    if t[i].prev.None? {
      r := i;
    } else {
      r := ChainHasRoot(t, n, t[i].prev.value);
    }
  }

  /** Rows of one key share root_id, discovered_at and discovered_by. */
  lemma ChainShares<K, R, P>(t: Table<K, R, P>, n: nat, i: nat, j: nat)
    requires Inv(t, n) && i in t && j in t && t[i].key == t[j].key
    ensures SameChain(t[i], t[j])
  {
    var r := ChainHasRoot(t, n, i);
    var q := ChainHasRoot(t, n, j);
    hide OneCurrent, ForwardLinks, BackLinks;
    assert r == q;
  }

  lemma PredecessorBefore<K, R, P>(t: Table<K, R, P>, n: nat, key: K, s: seq<nat>, a: nat)
    requires Inv(t, n) && Increasing(s) && RowsOf(t, key, s) && a < |s|
    requires s[a] in t && t[s[a]].prev.Some?
    ensures exists b :: 0 <= b < a && t[s[a]].prev == Some(s[b]) && s[b] in t && t[s[b]].next == Some(s[a])
  {
    hide OneCurrent, OneRoot, ForwardLinks, IdsBelow;
    var p := t[s[a]].prev.value;
    assert s[a] in s;
    assert p in s;
    var b :| 0 <= b < |s| && s[b] == p;
  }

  lemma SuccessorAfter<K, R, P>(t: Table<K, R, P>, n: nat, key: K, s: seq<nat>, a: nat)
    requires Inv(t, n) && Increasing(s) && RowsOf(t, key, s) && a < |s|
    requires s[a] in t && t[s[a]].next.Some?
    ensures exists b :: a < b < |s| && t[s[a]].next == Some(s[b])
  {
    hide OneCurrent, OneRoot, IdsBelow;
    var m := t[s[a]].next.value;
    assert s[a] in s;
    assert t[m].prev == Some(s[a]);
    assert m in s;
    var b :| 0 <= b < |s| && s[b] == m;
    LaterInOrder(s, a, b);
  }

  lemma LaterInOrder(s: seq<nat>, a: nat, b: nat)
    requires Increasing(s) && a < |s| && b < |s|
    ensures s[a] < s[b] ==> a < b
  {
  }

  /** The predecessor of the a-th row in id order is the row just before it. */
  lemma {:induction false} PredecessorIsNeighbour<K, R, P>(t: Table<K, R, P>, n: nat, key: K, s: seq<nat>, a: nat)
    requires Inv(t, n) && Increasing(s) && RowsOf(t, key, s) && a < |s|
    ensures s[a] in t && s[0] in t
    ensures a == 0 ==> t[s[0]].prev.None?
    ensures a > 0 ==> t[s[a]].prev == Some(s[a-1])
    ensures SameChain(t[s[a]], t[s[0]])
    decreases a
  {
    hide Inv;
    assert s[a] in s && s[0] in s;
    if a == 0 {
      if t[s[0]].prev.Some? {
        PredecessorBefore(t, n, key, s, 0);
      }
    } else {
      PredecessorIsNeighbour(t, n, key, s, 0);
      PredecessorIsNeighbour(t, n, key, s, a - 1);
      OtherRowsHavePredecessors(t, n, s[0], s[a]);
      PredecessorBefore(t, n, key, s, a);
      var b :| 0 <= b < a && t[s[a]].prev == Some(s[b]) && s[b] in t && t[s[b]].next == Some(s[a]);
      if b < a - 1 {
        PredecessorIsNeighbour(t, n, key, s, b + 1);
        LinkedToPredecessor(t, n, s[b+1], s[b]);
      }
      LinkedToPredecessor(t, n, s[a], s[b]);
    }
  }

  lemma OtherRowsHavePredecessors<K, R, P>(t: Table<K, R, P>, n: nat, i: nat, j: nat)
    requires Inv(t, n) && i in t && j in t && i != j && t[i].key == t[j].key && t[i].prev.None?
    ensures t[j].prev.Some?
  {
  }

  lemma LinkedToPredecessor<K, R, P>(t: Table<K, R, P>, n: nat, i: nat, p: nat)
    requires Inv(t, n) && i in t && t[i].prev == Some(p)
    ensures p in t && t[p].next == Some(i) && SameChain(t[p], t[i])
  {
  }

  /** In id order the rows of a key are exactly its chain. */
  lemma IdOrderIsChain<K, R, P>(t: Table<K, R, P>, n: nat, key: K, s: seq<nat>)
    requires Inv(t, n) && Increasing(s) && RowsOf(t, key, s)
    ensures IsChain(t, key, s)
  {
    forall a | 0 <= a < |s|
      ensures s[a] in t && SameChain(t[s[a]], t[s[0]])
      ensures a == 0 ==> t[s[a]].prev.None?
      ensures a > 0 ==> t[s[a]].prev == Some(s[a-1]) && t[s[a-1]].next == Some(s[a])
    {
      PredecessorIsNeighbour(t, n, key, s, a);
    }
    forall a | 0 <= a < |s| - 1
      ensures t[s[a]].next == Some(s[a+1])
    {
      assert t[s[a+1]].prev == Some(s[a+1-1]);
    }
    if s != [] && !t[s[|s|-1]].Current() {
      SuccessorAfter(t, n, key, s, |s| - 1);
    }
  }
}
