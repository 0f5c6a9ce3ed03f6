/** store/relationships.go, store/graph.go: reading edges node by node, and reading a
    whole frontier in batches and replaying it.

    The database answers a query with the matching rows in any order its ORDER BY
    admits; nothing else is assumed about ties. */
module EdgeReads {
  import opened Wrappers
  import Lex
  import opened Sorting

  const REL_ID_BATCH_SIZE: nat := 500

  datatype Rel = Rel(from: string, to: string, kind: string, direction: string, attributes: Option<string>)

  /** The endpoint column a query matches on. */
  datatype Side = FromSide | ToSide

  datatype Direction = Out | In | Both

  function Anchor(side: Side, r: Rel): string {
    if side == FromSide then r.from else r.to
  }

  function Other(side: Side, r: Rel): string {
    if side == FromSide then r.to else r.from
  }

  /** The unique key of the relationships table. */
  ghost predicate UniqueKeys(rels: set<Rel>) {
    forall a, b :: a in rels && b in rels && a.from == b.from && a.to == b.to && a.kind == b.kind ==> a == b
  }

  predicate KindOk(kinds: seq<string>, r: Rel) {
    kinds == [] || r.kind in kinds
  }

  // ------------------------------------------------------------ ordering

  /** ORDER BY kind, other; with byAnchor, ORDER BY anchor, kind, other. */
  datatype Order = Order(side: Side, byAnchor: bool)

  predicate Less(o: Order, a: Rel, b: Rel) {
    var x, y := Anchor(o.side, a), Anchor(o.side, b);
    if o.byAnchor && x != y then Lex.Less(x, y)
    else if a.kind != b.kind then Lex.Less(a.kind, b.kind)
    else Lex.Less(Other(o.side, a), Other(o.side, b))
  }

  /** Rows between which the order decides. */
  predicate Comparable(o: Order, a: Rel, b: Rel) {
    o.byAnchor || Anchor(o.side, a) == Anchor(o.side, b)
  }

  lemma LessTotal(o: Order, a: Rel, b: Rel, rels: set<Rel>)
    requires UniqueKeys(rels) && a in rels && b in rels && Comparable(o, a, b)
    ensures a == b || Less(o, a, b) || Less(o, b, a)
    ensures !(Less(o, a, b) && Less(o, b, a))
  {
    var x, y := Anchor(o.side, a), Anchor(o.side, b);
    Lex.Total(x, y);
    Lex.Total(a.kind, b.kind);
    Lex.Total(Other(o.side, a), Other(o.side, b));
    Lex.Asymmetric(x, y);
    Lex.Asymmetric(a.kind, b.kind);
    Lex.Asymmetric(Other(o.side, a), Other(o.side, b));
  }

  lemma LessTransitive(o: Order, a: Rel, b: Rel, c: Rel)
    requires Less(o, a, b) && Less(o, b, c) && Comparable(o, a, b) && Comparable(o, b, c)
    ensures Less(o, a, c)
  {
    var x, y, z := Anchor(o.side, a), Anchor(o.side, b), Anchor(o.side, c);
    if o.byAnchor && Lex.Less(x, y) && Lex.Less(y, z) {
      Lex.Transitive(x, y, z);
      Lex.Irreflexive(x);
    } else if x == y == z || !o.byAnchor {
      if Lex.Less(a.kind, b.kind) && Lex.Less(b.kind, c.kind) {
        Lex.Transitive(a.kind, b.kind, c.kind);
        Lex.Irreflexive(a.kind);
      } else if a.kind == b.kind == c.kind {
        Lex.Transitive(Other(o.side, a), Other(o.side, b), Other(o.side, c));
      }
    }
    LessAntisymmetricParts(o, a, b, c);
  }

  lemma LessAntisymmetricParts(o: Order, a: Rel, b: Rel, c: Rel)
    ensures Lex.Less(a.kind, b.kind) ==> a.kind != b.kind
    ensures Lex.Less(b.kind, c.kind) ==> b.kind != c.kind
    ensures !(Lex.Less(a.kind, b.kind) && Lex.Less(b.kind, a.kind))
    ensures !(Lex.Less(Anchor(o.side, a), Anchor(o.side, b)) && Lex.Less(Anchor(o.side, b), Anchor(o.side, a)))
  {
    Lex.Irreflexive(a.kind);
    Lex.Irreflexive(b.kind);
    Lex.Asymmetric(a.kind, b.kind);
    Lex.Asymmetric(Anchor(o.side, a), Anchor(o.side, b));
  }

  // ------------------------------------------------------------- answers

  function By(o: Order): (Rel, Rel) -> bool {
    (a, b) => Less(o, a, b)
  }

  /** A result set: each of the rows once, in an order that ORDER BY admits. */
  ghost predicate Answer(o: Order, rows: set<Rel>, out: seq<Rel>) {
    && Distinct(out)
    && (forall r :: r in out <==> r in rows)
    && Ordered(By(o), out)
  }

  ghost predicate Decided(o: Order, rows: set<Rel>) {
    UniqueKeys(rows) && forall a, b :: a in rows && b in rows ==> Comparable(o, a, b)
  }

  lemma DecidedOrders(o: Order, rows: set<Rel>, all: seq<Rel>)
    requires Decided(o, rows) && forall r :: r in all ==> r in rows
    ensures OrderOn(By(o), all)
  {
    hide Less;
    forall a, b | a in all && b in all
      ensures a == b || Less(o, a, b) || Less(o, b, a)
      ensures !(Less(o, a, b) && Less(o, b, a))
    {
      LessTotal(o, a, b, rows);
    }
    forall a, b, c | a in all && b in all && c in all && Less(o, a, b) && Less(o, b, c) ensures Less(o, a, c) {
      LessTransitive(o, a, b, c);
    }
  }

  lemma AnswerStrict(o: Order, rows: set<Rel>, out: seq<Rel>)
    requires Decided(o, rows) && Answer(o, rows, out)
    ensures SortedBy(By(o), out)
  {
    forall i, j | 0 <= i < j < |out|
      ensures Less(o, out[i], out[j])
    {
      LessTotal(o, out[i], out[j], rows);
    }
  }

  lemma StrictAnswer(o: Order, rows: set<Rel>, out: seq<Rel>)
    requires Decided(o, rows) && SortedBy(By(o), out) && forall r :: r in out <==> r in rows
    ensures Answer(o, rows, out)
  {
    forall i, j | 0 <= i < j < |out|
      ensures out[i] != out[j] && !Less(o, out[j], out[i])
    {
      LessTotal(o, out[i], out[j], rows);
    }
  }

  /** When keys are unique the ORDER BY leaves the database no choice. */
  lemma AnswerUnique(o: Order, rows: set<Rel>, a: seq<Rel>, b: seq<Rel>)
    requires Decided(o, rows) && Answer(o, rows, a) && Answer(o, rows, b)
    ensures a == b
  {
    AnswerStrict(o, rows, a);
    AnswerStrict(o, rows, b);
    DecidedOrders(o, rows, a);
    SortedUnique(By(o), a, b);
  }

  // --------------------------------------------------------- the queries

  function Matching(rels: set<Rel>, side: Side, ids: seq<string>, kinds: seq<string>): set<Rel> {
    set r | r in rels && Anchor(side, r) in ids && KindOk(kinds, r)
  }

  lemma MatchingDecided(rels: set<Rel>, side: Side, ids: seq<string>, kinds: seq<string>)
    requires UniqueKeys(rels)
    ensures Decided(Order(side, true), Matching(rels, side, ids, kinds))
    ensures |ids| == 1 ==> Decided(Order(side, false), Matching(rels, side, ids, kinds))
  {
  }

  /** SELECT ... WHERE anchor IN ids AND kind IN kinds ORDER BY o. */
  method Select(rels: set<Rel>, side: Side, ids: seq<string>, kinds: seq<string>, o: Order) returns (out: seq<Rel>)
    requires UniqueKeys(rels) && Decided(o, Matching(rels, side, ids, kinds))
    ensures Answer(o, Matching(rels, side, ids, kinds), out)
  {
    out := Elements(Matching(rels, side, ids, kinds));
    DecidedOrders(o, Matching(rels, side, ids, kinds), out);
    out := Sort(By(o), out);
    StrictAnswer(o, Matching(rels, side, ids, kinds), out);
  }

  /** The WHERE clause, spelled out. */
  predicate Asked(rels: set<Rel>, side: Side, ids: seq<string>, kinds: seq<string>, r: Rel) {
    && r in rels && (side == FromSide ==> r.from in ids) && (side == ToSide ==> r.to in ids)
    && (|kinds| > 0 ==> r.kind in kinds)
  }

  /** The ORDER BY clause, spelled out: kind and the other end, and before them the
      matched end where several nodes are read. */
  predicate InReadOrder(side: Side, many: bool, a: Rel, b: Rel) {
    match side
    case FromSide =>
      if many && a.from != b.from then Lex.Less(a.from, b.from)
      else if a.kind != b.kind then Lex.Less(a.kind, b.kind) else Lex.Less(a.to, b.to)
    case ToSide =>
      if many && a.to != b.to then Lex.Less(a.to, b.to)
      else if a.kind != b.kind then Lex.Less(a.kind, b.kind) else Lex.Less(a.from, b.from)
  }

  lemma AnswerExact(rels: set<Rel>, side: Side, ids: seq<string>, kinds: seq<string>, many: bool, out: seq<Rel>)
    requires UniqueKeys(rels) && Decided(Order(side, many), Matching(rels, side, ids, kinds))
    requires Answer(Order(side, many), Matching(rels, side, ids, kinds), out)
    ensures forall r :: r in out <==> Asked(rels, side, ids, kinds, r)
    ensures forall i, j :: 0 <= i < j < |out| ==> InReadOrder(side, many, out[i], out[j])
  {
    AnswerStrict(Order(side, many), Matching(rels, side, ids, kinds), out);
    forall i, j | 0 <= i < j < |out| ensures InReadOrder(side, many, out[i], out[j]) {
      assert Less(Order(side, many), out[i], out[j]);
    }
  }

  /** RelationshipsFrom and RelationshipsTo: one node's edges. */
  method Relationships(rels: set<Rel>, side: Side, id: string, kinds: seq<string>) returns (out: seq<Rel>)
    requires UniqueKeys(rels)
    ensures Answer(Order(side, false), Matching(rels, side, [id], kinds), out)
    ensures out == EdgesOf(rels, side, id, kinds)
    ensures forall r :: r in out <==> Asked(rels, side, [id], kinds, r)
    ensures forall i, j :: 0 <= i < j < |out| ==> InReadOrder(side, false, out[i], out[j])
  {
    MatchingDecided(rels, side, [id], kinds);
    out := Select(rels, side, [id], kinds, Order(side, false));
    AnswerUnique(Order(side, false), Matching(rels, side, [id], kinds), out, EdgesOf(rels, side, id, kinds));
    AnswerExact(rels, side, [id], kinds, false, out);
  }

  lemma AnswerExists(o: Order, rows: set<Rel>)
    requires Decided(o, rows)
    ensures exists out :: Answer(o, rows, out)
  {
    var all := Listed(rows);
    DecidedOrders(o, rows, all);
    StrictlySorted(By(o), all);
    StrictAnswer(o, rows, StableSort(By(o), all));
  }

  lemma Listed(rows: set<Rel>) returns (all: seq<Rel>)
    ensures Distinct(all) && forall r :: r in all <==> r in rows
  {
    all := [];
    if rows != {} {
      var r :| r in rows;
      all := Listed(rows - {r});
      all := all + [r];
    }
  }

  /** The one list that answers the query for one node. */
  ghost function EdgesOf(rels: set<Rel>, side: Side, id: string, kinds: seq<string>): (out: seq<Rel>)
    requires UniqueKeys(rels)
    ensures Answer(Order(side, false), Matching(rels, side, [id], kinds), out)
  {
    MatchingDecided(rels, side, [id], kinds);
    AnswerExists(Order(side, false), Matching(rels, side, [id], kinds));
    var out :| Answer(Order(side, false), Matching(rels, side, [id], kinds), out);
    out
  }

  // ------------------------------------------------------ batched reading

  lemma ChunkAppends(rels: set<Rel>, side: Side, kinds: seq<string>, unique: seq<string>, start: nat, end: nat,
                     out: seq<Rel>, page: seq<Rel>)
    requires UniqueKeys(rels) && Lex.Increasing(unique) && start <= end <= |unique|
    requires SortedBy(By(Order(side, true)), out)
    requires forall r :: r in out <==> r in Matching(rels, side, unique[..start], kinds)
    requires SortedBy(By(Order(side, true)), page)
    requires forall r :: r in page <==> r in Matching(rels, side, unique[start..end], kinds)
    ensures SortedBy(By(Order(side, true)), out + page)
    ensures forall r :: r in out + page <==> r in Matching(rels, side, unique[..end], kinds)
  {
    assert unique[..end] == unique[..start] + unique[start..end];
    forall i, j | 0 <= i < |out| && 0 <= j < |page|
      ensures Less(Order(side, true), out[i], page[j])
    {
      assert out[i] in out && page[j] in page;
      var x, y := Anchor(side, out[i]), Anchor(side, page[j]);
      var a :| 0 <= a < start && unique[a] == x;
      var b :| start <= b < end && unique[b] == y;
      Lex.Irreflexive(x);
    }
  }

  /** relationshipsByEndpoint: the rows of all ids, read in chunks. Whatever the chunk
      size, the result is the one list the unchunked query would give. */
  method RelationshipsByEndpoint(rels: set<Rel>, side: Side, ids: seq<string>, kinds: seq<string>, batch: nat)
    returns (out: seq<Rel>)
    requires UniqueKeys(rels) && batch > 0
    ensures Answer(Order(side, true), Matching(rels, side, ids, kinds), out)
    ensures forall r :: r in out <==> Asked(rels, side, ids, kinds, r)
    ensures forall i, j :: 0 <= i < j < |out| ==> InReadOrder(side, true, out[i], out[j])
  {
    var unique := Lex.SortUnique(ids);
    out := [];
    var start := 0;
    while start < |unique|
      invariant 0 <= start <= |unique|
      invariant SortedBy(By(Order(side, true)), out)
      invariant forall r :: r in out <==> r in Matching(rels, side, unique[..start], kinds)
    {
      var end := if start + batch < |unique| then start + batch else |unique|;
      MatchingDecided(rels, side, unique[start..end], kinds);
      var page := Select(rels, side, unique[start..end], kinds, Order(side, true));
      AnswerStrict(Order(side, true), Matching(rels, side, unique[start..end], kinds), page);
      ChunkAppends(rels, side, kinds, unique, start, end, out, page);
      out, start := out + page, end;
    }
    assert unique[..start] == unique;
    assert Matching(rels, side, unique, kinds) == Matching(rels, side, ids, kinds);
    MatchingDecided(rels, side, ids, kinds);
    StrictAnswer(Order(side, true), Matching(rels, side, ids, kinds), out);
    AnswerExact(rels, side, ids, kinds, true, out);
  }

  function Bucket(side: Side, id: string, rows: seq<Rel>): seq<Rel> {
    if rows == [] then []
    else
      var init := Bucket(side, id, rows[..|rows|-1]);
      if Anchor(side, rows[|rows|-1]) == id then init + [rows[|rows|-1]] else init
  }

  lemma {:induction false} BucketStrict(side: Side, id: string, rows: seq<Rel>)
    requires SortedBy(By(Order(side, true)), rows)
    ensures SortedBy(By(Order(side, false)), Bucket(side, id, rows))
    ensures forall r :: r in Bucket(side, id, rows) <==> r in rows && Anchor(side, r) == id
  {
    if rows != [] {
      var init, last := rows[..|rows|-1], rows[|rows|-1];
      assert rows == init + [last];
      BucketStrict(side, id, init);
      var b := Bucket(side, id, init);
      if Anchor(side, last) == id {
        forall a | 0 <= a < |b| ensures Less(Order(side, false), b[a], last) {
          assert b[a] in b;
          var i :| 0 <= i < |init| && init[i] == b[a];
          assert Less(Order(side, true), rows[i], rows[|rows|-1]);
        }
      }
    }
  }

  /** The bucket of a node in a batched read is what reading that node alone gives. */
  lemma BucketIsPerNodeRead(rels: set<Rel>, side: Side, ids: seq<string>, kinds: seq<string>, out: seq<Rel>, id: string)
    requires UniqueKeys(rels) && id in ids
    requires Answer(Order(side, true), Matching(rels, side, ids, kinds), out)
    ensures Bucket(side, id, out) == EdgesOf(rels, side, id, kinds)
  {
    MatchingDecided(rels, side, ids, kinds);
    MatchingDecided(rels, side, [id], kinds);
    AnswerStrict(Order(side, true), Matching(rels, side, ids, kinds), out);
    BucketStrict(side, id, out);
    var rows := Matching(rels, side, [id], kinds);
    StrictAnswer(Order(side, false), rows, Bucket(side, id, out));
    AnswerUnique(Order(side, false), rows, Bucket(side, id, out), EdgesOf(rels, side, id, kinds));
  }

  function Get(m: map<string, seq<Rel>>, id: string): seq<Rel> {
    if id in m then m[id] else []
  }

  /** groupRelationships. */
  method Group(side: Side, rows: seq<Rel>) returns (m: map<string, seq<Rel>>)
    ensures forall id :: Get(m, id) == Bucket(side, id, rows)
  {
    m := map[];
    for i := 0 to |rows|
      invariant forall id :: Get(m, id) == Bucket(side, id, rows[..i])
    {
      assert rows[..i+1][..i] == rows[..i];
      var k := Anchor(side, rows[i]);
      m := m[k := Get(m, k) + [rows[i]]];
    }
    assert rows[..|rows|] == rows;
  }

  // ------------------------------------------------- replaying a frontier

  /** One edge seen from one frontier node. */
  datatype Hop = Hop(origin: string, rel: Rel, neighbour: string)

  function HopsAlong(id: string, side: Side, rows: seq<Rel>): seq<Hop> {
    seq(|rows|, i requires 0 <= i < |rows| => Hop(id, rows[i], Other(side, rows[i])))
  }

  ghost function NodeHops(rels: set<Rel>, id: string, dir: Direction, kinds: seq<string>): seq<Hop>
    requires UniqueKeys(rels)
  {
    (if dir == In then [] else HopsAlong(id, FromSide, EdgesOf(rels, FromSide, id, kinds)))
    + (if dir == Out then [] else HopsAlong(id, ToSide, EdgesOf(rels, ToSide, id, kinds)))
  }

  ghost function Hops(rels: set<Rel>, frontier: seq<string>, dir: Direction, kinds: seq<string>): seq<Hop>
    requires UniqueKeys(rels)
  {
    if frontier == [] then []
    else Hops(rels, frontier[..|frontier|-1], dir, kinds) + NodeHops(rels, frontier[|frontier|-1], dir, kinds)
  }

  /** The walk the batching replaced: two reads for every frontier node. */
  method PerNodeHops(rels: set<Rel>, frontier: seq<string>, dir: Direction, kinds: seq<string>) returns (hops: seq<Hop>)
    requires UniqueKeys(rels)
    ensures hops == Hops(rels, frontier, dir, kinds)
  {
    hops := [];
    for i := 0 to |frontier|
      invariant hops == Hops(rels, frontier[..i], dir, kinds)
    {
      var id, outs, ins := frontier[i], [], [];
      if dir != In {
        outs := Relationships(rels, FromSide, id, kinds);
      }
      if dir != Out {
        ins := Relationships(rels, ToSide, id, kinds);
      }
      assert frontier[..i+1][..i] == frontier[..i];
      hops := hops + (HopsAlong(id, FromSide, outs) + HopsAlong(id, ToSide, ins));
    }
    assert frontier[..|frontier|] == frontier;
  }

  /** One batched read per direction, bucketed and replayed in frontier order: the very
      same hops as reading node by node. */
  method FrontierHops(rels: set<Rel>, frontier: seq<string>, dir: Direction, kinds: seq<string>, batch: nat)
    returns (hops: seq<Hop>)
    requires UniqueKeys(rels) && batch > 0
    ensures hops == Hops(rels, frontier, dir, kinds)
  {
    var outByFrom, inByTo := map[], map[];
    ghost var outRows, inRows := [], [];
    if dir != In {
      var rows := RelationshipsByEndpoint(rels, FromSide, frontier, kinds, batch);
      outByFrom := Group(FromSide, rows);
      outRows := rows;
    }
    if dir != Out {
      var rows := RelationshipsByEndpoint(rels, ToSide, frontier, kinds, batch);
      inByTo := Group(ToSide, rows);
      inRows := rows;
    }
    hops := [];
    for i := 0 to |frontier|
      invariant hops == Hops(rels, frontier[..i], dir, kinds)
    {
      var id := frontier[i];
      if dir != In {
        BucketIsPerNodeRead(rels, FromSide, frontier, kinds, outRows, id);
      }
      if dir != Out {
        BucketIsPerNodeRead(rels, ToSide, frontier, kinds, inRows, id);
      }
      assert frontier[..i+1][..i] == frontier[..i];
      hops := hops + (HopsAlong(id, FromSide, Get(outByFrom, id)) + HopsAlong(id, ToSide, Get(inByTo, id)));
    }
    assert frontier[..|frontier|] == frontier;
  }

  // ------------------------------------------------------ what a hop means

  /** The edge can be followed from origin to neighbour under the options. */
  predicate Follows(rels: set<Rel>, dir: Direction, kinds: seq<string>, h: Hop) {
    && h.rel in rels && KindOk(kinds, h.rel)
    && ((dir != In && h.rel.from == h.origin && h.rel.to == h.neighbour)
        || (dir != Out && h.rel.to == h.origin && h.rel.from == h.neighbour))
  }

  lemma NodeHopsExact(rels: set<Rel>, id: string, dir: Direction, kinds: seq<string>, h: Hop)
    requires UniqueKeys(rels)
    ensures h in NodeHops(rels, id, dir, kinds) <==> h.origin == id && Follows(rels, dir, kinds, h)
  {
    var outs, ins := EdgesOf(rels, FromSide, id, kinds), EdgesOf(rels, ToSide, id, kinds);
    HopsAlongExact(id, FromSide, outs, h);
    HopsAlongExact(id, ToSide, ins, h);
  }

  lemma HopsAlongExact(id: string, side: Side, rows: seq<Rel>, h: Hop)
    ensures h in HopsAlong(id, side, rows) <==> h.origin == id && h.rel in rows && h.neighbour == Other(side, h.rel)
  {
    var hops := HopsAlong(id, side, rows);
    if h.origin == id && h.rel in rows && h.neighbour == Other(side, h.rel) {
      var i :| 0 <= i < |rows| && rows[i] == h.rel;
      assert hops[i] == h;
    }
  }

  /** The hops of a frontier are exactly the edges that can be followed from it. */
  lemma {:induction false} HopsExact(rels: set<Rel>, frontier: seq<string>, dir: Direction, kinds: seq<string>, h: Hop)
    requires UniqueKeys(rels)
    ensures h in Hops(rels, frontier, dir, kinds) <==> h.origin in frontier && Follows(rels, dir, kinds, h)
  {
    if frontier != [] {
      var init, last := frontier[..|frontier|-1], frontier[|frontier|-1];
      assert frontier == init + [last];
      HopsExact(rels, init, dir, kinds, h);
      NodeHopsExact(rels, last, dir, kinds, h);
    }
  }
}
