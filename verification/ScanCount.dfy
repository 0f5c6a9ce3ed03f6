/** store/scans.go: the resource_count a scan records when it ends. */
module ScanCount {
  import opened Wrappers
  import opened Chains
  import opened JsonText
  import opened Resources
  import opened ResourceLaws

  predicate Seen(row: Row, scan: string) {
    row.Current() && row.body.verifiedBy == Some(scan)
  }

  /** scanResourceCountExpr: current rows the scan was the last to verify. */
  ghost function ResourceCount(rows: Rows, scan: string): nat {
    |SeenRows(rows, scan)|
  }

  ghost function SeenRows(rows: Rows, scan: string): set<nat> {
    set i | i in rows && Seen(rows[i], scan)
  }

  ghost function SeenKeys(rows: Rows, scan: string): set<NaturalKey> {
    set i | i in rows && Seen(rows[i], scan) :: rows[i].key
  }

  lemma {:induction false} ImageSize(rows: Rows, ids: set<nat>)
    requires OneCurrent(rows) && forall i :: i in ids ==> i in rows && rows[i].Current()
    ensures |ids| == |set i | i in ids :: rows[i].key|
    decreases |ids|
  {
    var keys := set i | i in ids :: rows[i].key;
    if ids != {} {
      var x :| x in ids;
      ImageSize(rows, ids - {x});
      var fewer := set i | i in ids - {x} :: rows[i].key;
      assert keys == fewer + {rows[x].key} by {
        assert forall k :: k in keys ==> k in fewer || k == rows[x].key;
      }
      assert rows[x].key !in fewer;
    }
  }

  /** One row per natural key is counted. */
  lemma CountIsKeys(rows: Rows, scan: string)
    requires OneCurrent(rows)
    ensures ResourceCount(rows, scan) == |SeenKeys(rows, scan)|
  {
    var ids := SeenRows(rows, scan);
    ImageSize(rows, ids);
    var keys := set i | i in ids :: rows[i].key;
    assert forall k :: k in SeenKeys(rows, scan) ==> k in keys;
    assert SeenKeys(rows, scan) == keys;
  }

  // ------------------------------------------ how operations move the set

  lemma InsertSeen(rows: Rows, i: nat, row: Row, scan: string)
    requires i !in rows && Seen(row, scan)
    ensures SeenKeys(rows[i := row], scan) == SeenKeys(rows, scan) + {row.key}
  {
    var rows' := rows[i := row];
    assert forall k :: k in rows ==> rows'[k] == rows[k];
    forall key
      ensures key in SeenKeys(rows', scan) <==> key in SeenKeys(rows, scan) || key == row.key
    {
      if key in SeenKeys(rows, scan) {
        var k :| k in rows && Seen(rows[k], scan) && rows[k].key == key;
        assert rows'[k].key == key && Seen(rows'[k], scan);
      }
      assert rows'[i].key == row.key && Seen(rows'[i], scan);
    }
  }

  lemma TouchSeen(rows: Rows, i: nat, b: Body, scan: string)
    requires OneCurrent(rows) && i in rows && rows[i].Current()
    requires b.verifiedBy == Some(scan)
    ensures SeenKeys(Touch(rows, i, b), scan) == SeenKeys(rows, scan) + {rows[i].key}
  {
    var rows' := Touch(rows, i, b);
    assert forall k :: k in rows && k != i ==> rows'[k] == rows[k];
    forall key
      ensures key in SeenKeys(rows', scan) <==> key in SeenKeys(rows, scan) || key == rows[i].key
    {
      if key in SeenKeys(rows, scan) {
        var k :| k in rows && Seen(rows[k], scan) && rows[k].key == key;
        assert rows'[k].key == key && Seen(rows'[k], scan);
      }
      assert rows'[i].key == rows[i].key && Seen(rows'[i], scan);
    }
  }

  /** A split replaces the current row of a key: afterwards the key is seen exactly when
      the new row carries the scan. */
  lemma SplitSeen(rows: Rows, i: nat, id: nat, b: Body, scan: string)
    requires OneCurrent(rows) && i in rows && rows[i].Current() && id !in rows
    requires Seen(rows[i], scan) ==> b.verifiedBy == Some(scan)
    ensures SeenKeys(Split(rows, i, id, b), scan) ==
      SeenKeys(rows, scan) + if b.verifiedBy == Some(scan) then {rows[i].key} else {}
  {
    var rows' := Split(rows, i, id, b);
    assert forall k :: k in rows && k != i ==> rows'[k] == rows[k];
    forall key
      ensures key in SeenKeys(rows', scan) <==>
        key in SeenKeys(rows, scan) || (b.verifiedBy == Some(scan) && key == rows[i].key)
    {
      if key in SeenKeys(rows, scan) {
        var k :| k in rows && Seen(rows[k], scan) && rows[k].key == key;
        assert k != i ==> rows'[k].key == key && Seen(rows'[k], scan);
        assert k == i ==> rows'[id].key == key && Seen(rows'[id], scan);
      }
      assert b.verifiedBy == Some(scan) ==> rows'[id].key == rows[i].key && Seen(rows'[id], scan);
    }
  }

  lemma RestoreSeen(rows: Rows, root: RootId, scan: string)
    ensures SeenKeys(RestoreRows(rows, root), scan) == SeenKeys(rows, scan)
    ensures Keys(RestoreRows(rows, root)) == Keys(rows)
  {
    var rows' := RestoreRows(rows, root);
    assert rows'.Keys == rows.Keys;
    assert forall k :: k in rows ==> rows'[k].key == rows[k].key && Seen(rows'[k], scan) == Seen(rows[k], scan);
    SameSeen(rows, rows', scan);
  }

  lemma SameSeen(rows: Rows, rows': Rows, scan: string)
    requires rows'.Keys == rows.Keys
    requires forall k :: k in rows ==> rows'[k].key == rows[k].key && Seen(rows'[k], scan) == Seen(rows[k], scan)
    ensures SeenKeys(rows', scan) == SeenKeys(rows, scan) && Keys(rows') == Keys(rows)
  {
    hide Seen;
    forall key ensures key in Keys(rows') <==> key in Keys(rows) {
      if key in Keys(rows) {
        var k :| k in rows && rows[k].key == key;
        assert rows'[k].key == key;
      }
    }
    forall key ensures key in SeenKeys(rows', scan) <==> key in SeenKeys(rows, scan) {
      if key in SeenKeys(rows, scan) {
        var k :| k in rows && Seen(rows[k], scan) && rows[k].key == key;
        assert rows'[k].key == key && Seen(rows'[k], scan);
      }
    }
  }

  lemma UpsertRowSeen(c: Codec, s: State, r: Resource, now: string, scan: string)
    requires c.Valid() && Good(s) && r.discoveredBy == scan
    ensures SeenKeys(UpsertRow(c, s, r, now).rows, scan) == SeenKeys(s.rows, scan) + {r.key}
  {
    assert s.next !in s.rows;
    hide Codec.Valid, Unchanged, HasCurrent, SeenKeys, BackLinks, ForwardLinks, OneRoot, IdsBelow, Split, Touch;
    if !HasCurrent(s.rows, r.key) {
      InsertSeen(s.rows, s.next, FirstRow(r, now, false), scan);
    } else {
      var i := CurrentOf(s.rows, r.key);
      TouchSeen(s.rows, i, VerifiedBody(s.rows[i].body, r, now), scan);
      SplitSeen(s.rows, i, s.next, NewBody(r, now, false), scan);
    }
  }

  lemma PlaceRowSeen(s: State, r: Resource, now: string, scan: string)
    requires Good(s) && r.discoveredBy == scan
    ensures SeenKeys(PlaceRow(s, r, now).rows, scan) ==
      SeenKeys(s.rows, scan) + if r.key in Keys(s.rows) then {} else {r.key}
  {
    KeyHasCurrent(s, r.key);
    assert s.next !in s.rows;
    if r.key !in Keys(s.rows) {
      InsertSeen(s.rows, s.next, FirstRow(r, now, true), scan);
    }
  }

  // -------------------------------------------------------- the whole scan

  function KeysIn(rs: seq<Resource>): set<NaturalKey> {
    set r | r in rs :: r.key
  }

  /** Natural keys the run upserted. */
  function Upserted(ops: seq<Op>): set<NaturalKey> {
    set op, r | op in ops && op.Upsert? && r in op.rs :: r.key
  }

  /** Natural keys the run offered as placeholders. */
  function Offered(ops: seq<Op>): set<NaturalKey> {
    set op, r | op in ops && op.InsertIfAbsent? && r in op.rs :: r.key
  }

  function UpsertKeys(op: Op): set<NaturalKey> {
    if op.Upsert? then KeysIn(op.rs) else {}
  }

  function PlaceKeys(op: Op): set<NaturalKey> {
    if op.InsertIfAbsent? then KeysIn(op.rs) else {}
  }

  lemma {:induction false} UpsertRowsSeen(c: Codec, s: State, rs: seq<Resource>, now: string, scan: string)
    requires c.Valid() && Good(s) && forall r :: r in rs ==> r.discoveredBy == scan
    ensures SeenKeys(UpsertRows(c, s, rs, now).rows, scan) == SeenKeys(s.rows, scan) + KeysIn(rs)
    ensures Keys(UpsertRows(c, s, rs, now).rows) == Keys(s.rows) + KeysIn(rs)
  {
    hide Good, Codec.Valid, UpsertRow, SeenKeys, Keys;
    if rs != [] {
      var init, r := rs[..|rs|-1], rs[|rs|-1];
      assert r in rs && forall q :: q in rs <==> q in init || q == r;
      UpsertRowsSeen(c, s, init, now, scan);
      UpsertRowsKeep(c, s, init, now);
      UpsertRowSeen(c, UpsertRows(c, s, init, now), r, now, scan);
      UpsertRowAdds(c, UpsertRows(c, s, init, now), r, now);
    }
  }

  lemma {:induction false} PlaceRowsSeen(s: State, rs: seq<Resource>, now: string, scan: string)
    requires Good(s) && forall r :: r in rs ==> r.discoveredBy == scan
    ensures SeenKeys(PlaceRows(s, rs, now).rows, scan) == SeenKeys(s.rows, scan) + (KeysIn(rs) - Keys(s.rows))
    ensures Keys(PlaceRows(s, rs, now).rows) == Keys(s.rows) + KeysIn(rs)
  {
    hide Good, PlaceRow, SeenKeys, Keys;
    if rs != [] {
      var init, r := rs[..|rs|-1], rs[|rs|-1];
      assert r in rs && forall q :: q in rs <==> q in init || q == r;
      PlaceRowsSeen(s, init, now, scan);
      PlaceRowsKeep(s, init, now);
      PlaceRowSeen(PlaceRows(s, init, now), r, now, scan);
      PlaceRowAdds(PlaceRows(s, init, now), r, now);
    }
  }

  ghost predicate StampedBy(ops: seq<Op>, scan: string) {
    forall op, r :: op in ops && r in Incoming(op) ==> r.discoveredBy == scan
  }

  lemma UpsertedSnoc(ops: seq<Op>, op: Op)
    ensures Upserted(ops + [op]) == Upserted(ops) + UpsertKeys(op)
    ensures Offered(ops + [op]) == Offered(ops) + PlaceKeys(op)
  {
    var all := ops + [op];
    assert op in all && forall o :: o in all <==> o in ops || o == op;
  }

  lemma SetAlgebra<K>(seen: set<K>, keys: set<K>, u: set<K>, o: set<K>, du: set<K>, dp: set<K>)
    ensures seen + u + (o - keys) + du + (dp - (keys + u + o)) == seen + (u + du) + ((o + dp) - keys)
    ensures keys + u + o + (du + dp) == keys + (u + du) + (o + dp)
  {
  }

  lemma StampedParts(init: seq<Op>, op: Op, scan: string)
    requires StampedBy(init + [op], scan)
    ensures StampedBy(init, scan) && forall r :: r in Incoming(op) ==> r.discoveredBy == scan
  {
    assert op in init + [op];
    assert forall o :: o in init ==> o in init + [op];
  }

  lemma NothingBroughtIn()
    ensures Upserted([]) == {} && Offered([]) == {}
  {
  }

  lemma {:induction false} RunSeen(c: Codec, s: State, ops: seq<Op>, scan: string)
    requires c.Valid() && LegalRun(c, s, ops) && Good(s) && StampedBy(ops, scan)
    ensures SeenKeys(Run(c, s, ops).rows, scan) ==
      SeenKeys(s.rows, scan) + Upserted(ops) + (Offered(ops) - Keys(s.rows))
    ensures Keys(Run(c, s, ops).rows) == Keys(s.rows) + Upserted(ops) + Offered(ops)
  {
    if ops == [] {
      NothingBroughtIn();
    }
    if ops != [] {
      var init, op := ops[..|ops|-1], ops[|ops|-1];
      assert ops == init + [op] && op in ops;
      StampedParts(init, op, scan);
      assert LegalRun(c, s, init) && Legal(Run(c, s, init), op) && Run(c, s, ops) == Step(c, Run(c, s, init), op);
      hide *;
      var t := Run(c, s, init);
      RunSeen(c, s, init, scan);
      assert Good(t) by {
        RunKeeps(c, s, init);
      }
      UpsertedSnoc(init, op);
      StepSeen(c, t, op, scan);
      SetAlgebra(SeenKeys(s.rows, scan), Keys(s.rows), Upserted(init), Offered(init),
                 UpsertKeys(op), PlaceKeys(op));
    }
  }

  lemma ArchiveSeen(c: Codec, t: State, op: Op, scan: string)
    requires c.Valid() && op.Archive? && Legal(t, op) && Good(t)
    ensures SeenKeys(Step(c, t, op).rows, scan) == SeenKeys(t.rows, scan)
    ensures Keys(Step(c, t, op).rows) == Keys(t.rows)
  {
    var i, row := op.row, t.rows[op.row];
    assert t.next !in t.rows;
    var b := TombstoneBody(row.body, op.now, op.deletedBy);
    SplitSeen(t.rows, i, t.next, b, scan);
    KeysOfSplit(t.rows, i, t.next, b);
    if row.body.verifiedBy == Some(scan) {
      assert row.key in SeenKeys(t.rows, scan);
    }
  }

  lemma StepSeen(c: Codec, t: State, op: Op, scan: string)
    requires c.Valid() && Legal(t, op) && Good(t)
    requires forall r :: r in Incoming(op) ==> r.discoveredBy == scan
    ensures SeenKeys(Step(c, t, op).rows, scan) ==
      SeenKeys(t.rows, scan) + UpsertKeys(op) + (PlaceKeys(op) - Keys(t.rows))
    ensures Keys(Step(c, t, op).rows) == Keys(t.rows) + (UpsertKeys(op) + PlaceKeys(op))
  {
    hide Keys, SeenKeys, KeysIn, Codec.Valid, Good;
    var t' := Step(c, t, op);
    match op
    case Upsert(rs, now) =>
      UpsertRowsSeen(c, t, rs, now, scan);
    case InsertIfAbsent(rs, now) =>
      PlaceRowsSeen(t, rs, now, scan);
    case Archive(i, now, deletedBy) =>
      ArchiveSeen(c, t, op, scan);
    case Restore(root) =>
      RestoreSeen(t.rows, root, scan);
    case Discard(ids) =>
  }

  lemma NothingSeenYet(rows: Rows, scan: string)
    requires forall i :: i in rows ==> rows[i].body.verifiedBy != Some(scan)
    ensures SeenKeys(rows, scan) == {}
  {
  }

  lemma GoodIndex(s: State)
    requires Good(s)
    ensures OneCurrent(s.rows)
  {
  }

  /** For a scan id no row carries yet, whatever the batching, repeats and splits of the
      scan's own run, the recorded count is the number of distinct natural keys it
      upserted or, where absent before, placed. */
  lemma ScanCountsDistinctKeys(c: Codec, s: State, ops: seq<Op>, scan: string)
    requires c.Valid() && LegalRun(c, s, ops) && Good(s) && StampedBy(ops, scan)
    requires forall i :: i in s.rows ==> s.rows[i].body.verifiedBy != Some(scan)
    ensures ResourceCount(Run(c, s, ops).rows, scan) == |Upserted(ops) + (Offered(ops) - Keys(s.rows))|
  {
    NothingSeenYet(s.rows, scan);
    hide *;
    var t := Run(c, s, ops);
    assert SeenKeys(t.rows, scan) == Upserted(ops) + (Offered(ops) - Keys(s.rows)) by {
      RunSeen(c, s, ops, scan);
    }
    assert ResourceCount(t.rows, scan) == |SeenKeys(t.rows, scan)| by {
      RunKeeps(c, s, ops);
      GoodIndex(t);
      CountIsKeys(t.rows, scan);
    }
  }
}
