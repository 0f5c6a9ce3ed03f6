/** store/relationships.go and store/store.go: the keyed edge table, its UPDATE-then-INSERT
    upsert, the write buffer, and several writers at once. */
module Relationships {
  import opened Wrappers

  datatype Key = Key(from: string, to: string, kind: string)

  datatype RelEdge = RelEdge(key: Key, direction: string, attrs: Option<string>)

  /** A stored row; at is discovered_at. */
  datatype Row = Row(key: Key, direction: string, attrs: Option<string>, at: int)

  function Direction(d: string): string {
    if d == "" then "directed" else d
  }

  // --------------------------------------------------------- the statements

  /** The first row at a key. */
  function Lookup(rows: seq<Row>, k: Key): (r: Option<Row>)
    ensures r.Some? ==> r.value in rows && r.value.key == k
    ensures r == None ==> forall row :: row in rows ==> row.key != k
  {
    if rows == [] then None
    else if Lookup(rows[..|rows|-1], k).Some? then Lookup(rows[..|rows|-1], k)
    else if rows[|rows|-1].key == k then Some(rows[|rows|-1])
    else None
  }

  predicate HasKey(rows: seq<Row>, k: Key) {
    Lookup(rows, k).Some?
  }

  /** The unique index on (from_id, to_id, kind). */
  predicate OnePerKey(rows: seq<Row>) {
    forall i, j :: 0 <= i < j < |rows| ==> rows[i].key != rows[j].key
  }

  /** UPDATE ... SET attributes, discovered_at WHERE the key matches. */
  function Updated(rows: seq<Row>, k: Key, attrs: Option<string>, at: int): (r: seq<Row>)
    ensures |r| == |rows|
    ensures forall i :: 0 <= i < |rows| ==>
      r[i] == if rows[i].key == k then rows[i].(attrs := attrs, at := at) else rows[i]
  {
    if rows == [] then []
    else
      var last := rows[|rows|-1];
      Updated(rows[..|rows|-1], k, attrs, at) + [if last.key == k then last.(attrs := attrs, at := at) else last]
  }

  /** INSERT ... ON CONFLICT DO NOTHING. */
  function Inserted(rows: seq<Row>, row: Row): seq<Row> {
    if HasKey(rows, row.key) then rows else rows + [row]
  }

  function NewRow(e: RelEdge, at: int): Row {
    Row(e.key, Direction(e.direction), e.attrs, at)
  }

  /** The upsert of one edge with nobody else writing. */
  function Upsert(rows: seq<Row>, e: RelEdge, at: int): seq<Row> {
    if HasKey(rows, e.key) then Updated(rows, e.key, e.attrs, at)
    else Inserted(Updated(rows, e.key, e.attrs, at), NewRow(e, at))
  }

  // --------------------------------------------------------- statement laws

  lemma {:induction false} LookupUpdated(rows: seq<Row>, k: Key, attrs: Option<string>, at: int, k': Key)
    ensures Lookup(Updated(rows, k, attrs, at), k') ==
      var was := Lookup(rows, k'); if was.Some? && k' == k then Some(was.value.(attrs := attrs, at := at)) else was
  {
    if rows != [] {
      LookupUpdated(rows[..|rows|-1], k, attrs, at, k');
      var now := Updated(rows, k, attrs, at);
      assert now[..|now|-1] == Updated(rows[..|rows|-1], k, attrs, at);
    }
  }

  lemma LookupAppended(rows: seq<Row>, row: Row, k: Key)
    ensures Lookup(rows + [row], k) ==
      if HasKey(rows, k) then Lookup(rows, k) else if row.key == k then Some(row) else None
  {
    assert (rows + [row])[..|rows|] == rows;
  }

  lemma UpdatedNothing(rows: seq<Row>, k: Key, attrs: Option<string>, at: int)
    requires !HasKey(rows, k)
    ensures Updated(rows, k, attrs, at) == rows
  {
    assert forall i :: 0 <= i < |rows| ==> rows[i] in rows;
  }

  /** What one upsert leaves at each key. */
  lemma LookupUpsert(rows: seq<Row>, e: RelEdge, at: int, k: Key)
    ensures Lookup(Upsert(rows, e, at), k) ==
      if k != e.key then Lookup(rows, k)
      else Some(Row(k, if HasKey(rows, k) then Lookup(rows, k).value.direction else Direction(e.direction), e.attrs, at))
    ensures k == e.key && !HasKey(rows, k) ==>
      Lookup(Upsert(rows, e, at), k).value.direction == if e.direction != "" then e.direction else "directed"
  {
    LookupUpdated(rows, e.key, e.attrs, at, k);
    if !HasKey(rows, e.key) {
      UpdatedNothing(rows, e.key, e.attrs, at);
      LookupAppended(rows, NewRow(e, at), k);
    }
  }

  lemma UpsertKeepsKeys(rows: seq<Row>, e: RelEdge, at: int)
    requires OnePerKey(rows)
    ensures OnePerKey(Upsert(rows, e, at))
  {
    if !HasKey(rows, e.key) {
      UpdatedNothing(rows, e.key, e.attrs, at);
    }
  }

  // ------------------------------------------------------------ sequences

  datatype Call = Call(e: RelEdge, at: int)

  function UpsertAll(rows: seq<Row>, cs: seq<Call>): seq<Row> {
    if cs == [] then rows
    else Upsert(UpsertAll(rows, cs[..|cs|-1]), cs[|cs|-1].e, cs[|cs|-1].at)
  }

  /** The first and the last call for a key. */
  function FirstFor(cs: seq<Call>, k: Key): (r: Option<Call>)
    ensures r == None ==> forall c :: c in cs ==> c.e.key != k
  {
    if cs == [] then None
    else if cs[0].e.key == k then Some(cs[0])
    else FirstFor(cs[1..], k)
  }

  function LastFor(cs: seq<Call>, k: Key): (r: Option<Call>)
    ensures r == None ==> forall c :: c in cs ==> c.e.key != k
  {
    if cs == [] then None
    else if cs[|cs|-1].e.key == k then Some(cs[|cs|-1])
    else LastFor(cs[..|cs|-1], k)
  }

  lemma {:induction false} FirstForSnoc(cs: seq<Call>, c: Call, k: Key)
    ensures FirstFor(cs + [c], k) ==
      if FirstFor(cs, k).Some? then FirstFor(cs, k) else if c.e.key == k then Some(c) else None
  {
    if cs != [] {
      FirstForSnoc(cs[1..], c, k);
      assert (cs + [c])[1..] == cs[1..] + [c];
    }
  }

  lemma {:induction false} FirstHasLast(cs: seq<Call>, k: Key)
    ensures FirstFor(cs, k).Some? <==> LastFor(cs, k).Some?
  {
    if cs != [] {
      FirstHasLast(cs[..|cs|-1], k);
      FirstForSnoc(cs[..|cs|-1], cs[|cs|-1], k);
      assert cs == cs[..|cs|-1] + [cs[|cs|-1]];
    }
  }

  /** The row the calls leave at k, from the row that was there. */
  function Merged(was: Option<Row>, k: Key, first: Option<Call>, last: Option<Call>): Option<Row>
    requires first.Some? <==> last.Some?
  {
    if last == None then was
    else
      var direction := if was.Some? then was.value.direction else Direction(first.value.e.direction);
      Some(Row(k, direction, last.value.e.attrs, last.value.at))
  }

  /** Any sequence of upserts keeps one row per key; at each key the attributes are the
      last writer's and the direction is the first writer's. */
  lemma {:induction false} RunExact(rows: seq<Row>, cs: seq<Call>, k: Key)
    requires OnePerKey(rows)
    ensures OnePerKey(UpsertAll(rows, cs))
    ensures FirstFor(cs, k).Some? <==> LastFor(cs, k).Some?
    ensures Lookup(UpsertAll(rows, cs), k) == Merged(Lookup(rows, k), k, FirstFor(cs, k), LastFor(cs, k))
  {
    hide Lookup, Upsert, OnePerKey, Updated;
    FirstHasLast(cs, k);
    if cs != [] {
      var init, c := cs[..|cs|-1], cs[|cs|-1];
      RunExact(rows, init, k);
      UpsertKeepsKeys(UpsertAll(rows, init), c.e, c.at);
      LookupUpsert(UpsertAll(rows, init), c.e, c.at, k);
      FirstForSnoc(init, c, k);
      assert cs == init + [c];
    }
  }

  // --------------------------------------------------- buffering is invisible

  /** The same rows in the same order, apart from discovered_at. */
  predicate SameEdges(a: seq<Row>, b: seq<Row>) {
    && |a| == |b|
    && forall i :: 0 <= i < |a| ==> a[i].(at := 0) == b[i].(at := 0)
  }

  lemma {:induction false} SameLookup(a: seq<Row>, b: seq<Row>, k: Key)
    requires SameEdges(a, b)
    ensures HasKey(a, k) <==> HasKey(b, k)
  {
    if a != [] {
      var i := |a| - 1;
      assert a[i].(at := 0) == b[i].(at := 0);
      SameLookup(a[..i], b[..i], k);
    }
  }

  lemma SameUpsert(a: seq<Row>, b: seq<Row>, e: RelEdge, f: RelEdge, at: int, at': int)
    requires SameEdges(a, b) && e.key == f.key && e.attrs == f.attrs && Direction(e.direction) == Direction(f.direction)
    ensures SameEdges(Upsert(a, e, at), Upsert(b, f, at'))
  {
    SameLookup(a, b, e.key);
    var u, v := Updated(a, e.key, e.attrs, at), Updated(b, f.key, f.attrs, at');
    assert SameEdges(u, v) by {
      forall i | 0 <= i < |u| ensures u[i].(at := 0) == v[i].(at := 0) {
        assert a[i].(at := 0) == b[i].(at := 0);
      }
    }
    SameLookup(u, v, e.key);
  }

  /** What a buffered call keeps. */
  function Normal(e: RelEdge): RelEdge {
    e.(direction := Direction(e.direction))
  }

  function Buffered(cs: seq<Call>): seq<RelEdge> {
    if cs == [] then [] else Buffered(cs[..|cs|-1]) + [Normal(cs[|cs|-1].e)]
  }

  /** One transaction's calls all carry its timestamp. */
  function Stamped(es: seq<RelEdge>, at: int): seq<Call> {
    if es == [] then [] else Stamped(es[..|es|-1], at) + [Call(es[|es|-1], at)]
  }

  /** Buffering any calls and flushing them leaves the edge table that running them
      directly leaves. */
  lemma {:induction false} FlushIsDirect(rows: seq<Row>, cs: seq<Call>, at: int)
    ensures SameEdges(UpsertAll(rows, Stamped(Buffered(cs), at)), UpsertAll(rows, cs))
  {
    if cs != [] {
      var init, c := cs[..|cs|-1], cs[|cs|-1];
      var flushed := Stamped(Buffered(init), at);
      FlushIsDirect(rows, init, at);
      assert Buffered(cs)[..|Buffered(cs)|-1] == Buffered(init);
      assert Stamped(Buffered(cs), at) == flushed + [Call(Normal(c.e), at)];
      assert (flushed + [Call(Normal(c.e), at)])[..|flushed|] == flushed;
      SameUpsert(UpsertAll(rows, flushed), UpsertAll(rows, init), Normal(c.e), c.e, at, c.at);
    }
  }

  // -------------------------------------------------- writing a batch again

  /** The same keys in the same order. */
  predicate SameKeys(a: seq<Row>, b: seq<Row>) {
    |a| == |b| && forall i :: 0 <= i < |a| ==> a[i].key == b[i].key
  }

  lemma UpsertKeepsFound(rows: seq<Row>, e: RelEdge, at: int, k: Key)
    requires HasKey(rows, k)
    ensures HasKey(Upsert(rows, e, at), k)
  {
    LookupUpsert(rows, e, at, k);
  }

  /** Edges whose keys are all there move no row. */
  lemma {:induction false} FoundMovesNothing(rows: seq<Row>, cs: seq<Call>)
    requires forall c :: c in cs ==> HasKey(rows, c.e.key)
    ensures SameKeys(UpsertAll(rows, cs), rows)
    ensures forall k :: HasKey(rows, k) ==> HasKey(UpsertAll(rows, cs), k)
  {
    hide HasKey;
    if cs != [] {
      var init, c := cs[..|cs|-1], cs[|cs|-1];
      FoundMovesNothing(rows, init);
      var t := UpsertAll(rows, init);
      assert c in cs;
      forall k | HasKey(rows, k) ensures HasKey(Upsert(t, c.e, c.at), k) {
        UpsertKeepsFound(t, c.e, c.at, k);
      }
    }
  }

  lemma {:induction false} LookupOwn(rows: seq<Row>, i: nat)
    requires OnePerKey(rows) && i < |rows|
    ensures Lookup(rows, rows[i].key) == Some(rows[i])
  {
    var row := rows[i];
    assert HasKey(rows, row.key);
  }

  lemma SameRows(a: seq<Row>, b: seq<Row>)
    requires OnePerKey(a) && OnePerKey(b) && SameKeys(a, b)
    requires forall k :: Lookup(a, k) == Lookup(b, k)
    ensures a == b
  {
    forall i | 0 <= i < |a| ensures a[i] == b[i] {
      LookupOwn(a, i);
      LookupOwn(b, i);
    }
  }

  /** Two attempts at one batch carry the same edges under two timestamps. */
  lemma {:induction false} StampedEnds(es: seq<RelEdge>, a: int, b: int, k: Key)
    ensures FirstFor(Stamped(es, a), k).Some? <==> FirstFor(Stamped(es, b), k).Some?
    ensures FirstFor(Stamped(es, a), k).Some? ==> FirstFor(Stamped(es, a), k).value.e == FirstFor(Stamped(es, b), k).value.e
  {
    if es != [] {
      var init, e := es[..|es|-1], es[|es|-1];
      StampedEnds(init, a, b, k);
      FirstForSnoc(Stamped(init, a), Call(e, a), k);
      FirstForSnoc(Stamped(init, b), Call(e, b), k);
    }
  }

  /** Two attempts at one batch, from the same rows, leave the same edges. */
  lemma {:induction false} AttemptsAgree(rows: seq<Row>, es: seq<RelEdge>, a: int, b: int)
    ensures SameEdges(UpsertAll(rows, Stamped(es, a)), UpsertAll(rows, Stamped(es, b)))
  {
    hide Upsert;
    if es != [] {
      var init, e := es[..|es|-1], es[|es|-1];
      AttemptsAgree(rows, init, a, b);
      var s, t := Stamped(init, a), Stamped(init, b);
      assert (s + [Call(e, a)])[..|s|] == s && (t + [Call(e, b)])[..|t|] == t;
      SameUpsert(UpsertAll(rows, s), UpsertAll(rows, t), e, e, a, b);
    }
  }

  lemma AllFound(rows: seq<Row>, es: seq<RelEdge>, a: int, b: int)
    requires OnePerKey(rows)
    ensures forall c :: c in Stamped(es, b) ==> HasKey(UpsertAll(rows, Stamped(es, a)), c.e.key)
  {
    hide UpsertAll, OnePerKey;
    forall c | c in Stamped(es, b) ensures HasKey(UpsertAll(rows, Stamped(es, a)), c.e.key) {
      RunExact(rows, Stamped(es, a), c.e.key);
      StampedEnds(es, a, b, c.e.key);
    }
  }

  /** Writing a batch that has already been written leaves what writing it once, the
      second time, would have left. */
  lemma WrittenTwiceIsOnce(rows: seq<Row>, es: seq<RelEdge>, a: int, b: int)
    requires OnePerKey(rows)
    ensures UpsertAll(UpsertAll(rows, Stamped(es, a)), Stamped(es, b)) == UpsertAll(rows, Stamped(es, b))
  {
    hide UpsertAll, OnePerKey, HasKey, Stamped, FirstFor, LastFor;
    var once, twice := UpsertAll(rows, Stamped(es, b)), UpsertAll(UpsertAll(rows, Stamped(es, a)), Stamped(es, b));
    AllFound(rows, es, a, b);
    FoundMovesNothing(UpsertAll(rows, Stamped(es, a)), Stamped(es, b));
    AttemptsAgree(rows, es, a, b);
    assert SameKeys(twice, once) by { TwoSteps(twice, UpsertAll(rows, Stamped(es, a)), once); }
    forall k ensures Lookup(twice, k) == Lookup(once, k) {
      RunExact(rows, Stamped(es, a), k);
      RunExact(UpsertAll(rows, Stamped(es, a)), Stamped(es, b), k);
      RunExact(rows, Stamped(es, b), k);
      StampedEnds(es, a, b, k);
    }
    RunExact(rows, Stamped(es, a), Key("", "", ""));
    RunExact(UpsertAll(rows, Stamped(es, a)), Stamped(es, b), Key("", "", ""));
    RunExact(rows, Stamped(es, b), Key("", "", ""));
    SameRows(twice, once);
  }

  lemma TwoSteps(a: seq<Row>, b: seq<Row>, c: seq<Row>)
    requires SameKeys(a, b) && SameEdges(b, c)
    ensures SameKeys(a, c)
  {
    forall i | 0 <= i < |b| ensures b[i].key == c[i].key {
      assert b[i].(at := 0) == c[i].(at := 0);
    }
  }
}
