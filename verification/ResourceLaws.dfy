/** Laws about the resources table: identity and history, counts, and the stability of
    re-scanning. */
module ResourceLaws {
  import opened Wrappers
  import opened Chains
  import opened JsonText
  import opened Resources
  import Bars
  import Lex
  import opened Sorting

  // ------------------------------------------------------ identity, history

  /** A property of keys and the ids their resources came with. */
  type Naming = (NaturalKey, RootId) -> bool

  /** Every row's key and root_id have the property. */
  ghost predicate Rooted(rows: Rows, named: Naming) {
    forall i :: i in rows ==> named(rows[i].key, rows[i].root)
  }

  /** The resources an operation brings in. */
  function Incoming(op: Op): seq<Resource> {
    if op.Upsert? || op.InsertIfAbsent? then op.rs else []
  }

  ghost predicate AllNamed(ops: seq<Op>, named: Naming) {
    forall op, r :: op in ops && r in Incoming(op) ==> named(r.key, r.id)
  }

  /** The id ResourceID computes. */
  predicate HasOwnHash(key: NaturalKey, id: RootId) {
    id == HashOf(key)
  }

  lemma {:induction false} UpsertRowsRooted(c: Codec, s: State, rs: seq<Resource>, now: string, named: Naming)
    requires c.Valid() && Good(s) && Rooted(s.rows, named) && forall r :: r in rs ==> named(r.key, r.id)
    ensures Rooted(UpsertRows(c, s, rs, now).rows, named)
  {
    if rs != [] {
      UpsertRowsRooted(c, s, rs[..|rs|-1], now, named);
      hide Unchanged, Codec.Valid;
      assert rs[|rs|-1] in rs;
    }
  }

  lemma {:induction false} PlaceRowsRooted(s: State, rs: seq<Resource>, now: string, named: Naming)
    requires Rooted(s.rows, named) && forall r :: r in rs ==> named(r.key, r.id)
    ensures Rooted(PlaceRows(s, rs, now).rows, named)
  {
    if rs != [] {
      PlaceRowsRooted(s, rs[..|rs|-1], now, named);
      assert rs[|rs|-1] in rs;
    }
  }

  /** Whatever holds of every incoming key and id holds of every row: no operation makes
      up a root_id or moves one to another key. */
  lemma {:induction false} RunRooted(c: Codec, s: State, ops: seq<Op>, named: Naming)
    requires c.Valid() && LegalRun(c, s, ops) && Good(s) && Rooted(s.rows, named) && AllNamed(ops, named)
    ensures Rooted(Run(c, s, ops).rows, named)
  {
    if ops != [] {
      var init, op := ops[..|ops|-1], ops[|ops|-1];
      assert op in ops;
      RunRooted(c, s, init, named);
      RunKeeps(c, s, init);
      hide Good, Codec.Valid, Rooted, Step, Legal;
      StepRooted(c, Run(c, s, init), op, named);
    }
  }

  lemma StepRooted(c: Codec, s: State, op: Op, named: Naming)
    requires c.Valid() && Legal(s, op) && Good(s) && Rooted(s.rows, named)
    requires forall r :: r in Incoming(op) ==> named(r.key, r.id)
    ensures Rooted(Step(c, s, op).rows, named)
  {
    hide Good, Codec.Valid;
    match op
    case Upsert(rs, now) => UpsertRowsRooted(c, s, rs, now, named);
    case InsertIfAbsent(rs, now) => PlaceRowsRooted(s, rs, now, named);
    case Archive(i, now, deletedBy) =>
    case Restore(root) =>
    case Discard(ids) =>
  }

  /** ORDER BY discovered_at, id. */
  predicate Before(rows: Rows, a: nat, b: nat)
    requires a in rows && b in rows
  {
    Lex.Less(rows[a].discoveredAt, rows[b].discoveredAt) || (rows[a].discoveredAt == rows[b].discoveredAt && a < b)
  }

  ghost predicate InOrder(rows: Rows, s: seq<nat>) {
    (forall i :: i in s ==> i in rows) && forall a, b :: 0 <= a < b < |s| ==> Before(rows, s[a], s[b])
  }

  ghost predicate RowsUnder(rows: Rows, root: RootId, s: seq<nat>) {
    forall i :: i in s <==> i in rows && rows[i].root == root
  }

  lemma BeforeTotal(rows: Rows, a: nat, b: nat)
    requires a in rows && b in rows
    ensures a == b || Before(rows, a, b) || Before(rows, b, a)
    ensures !(Before(rows, a, b) && Before(rows, b, a))
  {
    Lex.Total(rows[a].discoveredAt, rows[b].discoveredAt);
    Lex.Asymmetric(rows[a].discoveredAt, rows[b].discoveredAt);
    Lex.Irreflexive(rows[a].discoveredAt);
  }

  lemma BeforeTransitive(rows: Rows, a: nat, b: nat, d: nat)
    requires a in rows && b in rows && d in rows && Before(rows, a, b) && Before(rows, b, d)
    ensures Before(rows, a, d)
  {
    if Lex.Less(rows[a].discoveredAt, rows[b].discoveredAt) && Lex.Less(rows[b].discoveredAt, rows[d].discoveredAt) {
      Lex.Transitive(rows[a].discoveredAt, rows[b].discoveredAt, rows[d].discoveredAt);
    }
  }

  predicate Precedes(rows: Rows, a: nat, b: nat) {
    a in rows && b in rows && Before(rows, a, b)
  }

  lemma PrecedesOrders(rows: Rows, all: seq<nat>)
    requires forall i :: i in all ==> i in rows
    ensures OrderOn((a, b) => Precedes(rows, a, b), all)
  {
    hide Before;
    forall a, b | a in all && b in all
      ensures a == b || Precedes(rows, a, b) || Precedes(rows, b, a)
      ensures Precedes(rows, a, b) ==> !Precedes(rows, b, a)
    {
      BeforeTotal(rows, a, b);
    }
    forall a, b, d | Precedes(rows, a, b) && Precedes(rows, b, d) ensures Precedes(rows, a, d) {
      BeforeTransitive(rows, a, b, d);
    }
  }

  /** The rows of a root in whatever order the table is read. */
  method SelectRoot(rows: Rows, root: RootId) returns (s: seq<nat>)
    ensures RowsUnder(rows, root, s) && forall i, j :: 0 <= i < j < |s| ==> s[i] != s[j]
  {
    s := [];
    var todo := rows.Keys;
    while todo != {}
      invariant todo <= rows.Keys
      invariant forall i, j :: 0 <= i < j < |s| ==> s[i] != s[j]
      invariant forall i :: i in s <==> i in rows && i !in todo && rows[i].root == root
    {
      var i :| i in todo;
      if rows[i].root == root {
        s := s + [i];
      }
      todo := todo - {i};
    }
  }

  /** GetResourceVersions: the rows of a root in (discovered_at, id) order. */
  method GetResourceVersions(rows: Rows, root: RootId) returns (s: seq<nat>)
    ensures InOrder(rows, s) && RowsUnder(rows, root, s)
  {
    hide Before;
    s := SelectRoot(rows, root);
    PrecedesOrders(rows, s);
    s := Sort((a, b) => Precedes(rows, a, b), s);
  }

  /** No other key has rows under the root. */
  ghost predicate OnlyKeyUnder(rows: Rows, root: RootId, key: NaturalKey) {
    forall i :: i in rows && rows[i].root == root ==> rows[i].key == key
  }

  /** The history under the root of a row is the chain of its key, from root to current
      row, if and only if no other key came in under the same root_id. */
  lemma HistoryIsChain(s: State, i: nat, ids: seq<nat>)
    requires Good(s) && i in s.rows
    requires InOrder(s.rows, ids) && RowsUnder(s.rows, s.rows[i].root, ids)
    ensures IsChain(s.rows, s.rows[i].key, ids) <==> OnlyKeyUnder(s.rows, s.rows[i].root, s.rows[i].key)
  {
    var key, root := s.rows[i].key, s.rows[i].root;
    if OnlyKeyUnder(s.rows, root, key) {
      forall j | j in s.rows && s.rows[j].key == key ensures s.rows[j].root == root {
        ChainShares(s.rows, s.next, i, j);
      }
      OneKeyIncreasing(s, key, ids);
      IdOrderIsChain(s.rows, s.next, key, ids);
    }
  }

  lemma OneKeyIncreasing(s: State, key: NaturalKey, ids: seq<nat>)
    requires Good(s) && InOrder(s.rows, ids) && forall i :: i in ids ==> s.rows[i].key == key
    ensures Increasing(ids)
  {
    forall a, b | 0 <= a < b < |ids| ensures ids[a] < ids[b] {
      assert ids[a] in ids && ids[b] in ids;
      ChainShares(s.rows, s.next, ids[a], ids[b]);
      Lex.Irreflexive(s.rows[ids[a]].discoveredAt);
      assert Before(s.rows, ids[a], ids[b]);
    }
  }

  predicate BarFree(key: NaturalKey) {
    '|' !in key.provider && '|' !in key.account
  }

  /** Resources that carry their own hash keep apart when no provider or account id has a
      bar in it. */
  lemma BarFreeHistoryIsChain(s: State, i: nat, ids: seq<nat>)
    requires Good(s) && i in s.rows && Rooted(s.rows, HasOwnHash) && forall j :: j in s.rows ==> BarFree(s.rows[j].key)
    requires InOrder(s.rows, ids) && RowsUnder(s.rows, s.rows[i].root, ids)
    ensures IsChain(s.rows, s.rows[i].key, ids)
  {
    hide Good, IsChain;
    forall j | j in s.rows && s.rows[j].root == s.rows[i].root ensures s.rows[j].key == s.rows[i].key {
      var k, l := s.rows[j].key, s.rows[i].key;
      Bars.JoinedUnique(k.provider, k.account, k.native, l.provider, l.account, l.native);
    }
    HistoryIsChain(s, i, ids);
  }

  /** A bar in the account id lets two resources share an id: then their histories are
      one, and it is the chain of neither. */
  lemma BarredKeysShareHistory(s: State, i: nat, j: nat, provider: string, account: string, m: string, native: string, ids: seq<nat>)
    requires Good(s) && i in s.rows && j in s.rows && Rooted(s.rows, HasOwnHash)
    requires s.rows[i].key == NaturalKey(provider, account + "|" + m, native)
    requires s.rows[j].key == NaturalKey(provider, account, m + "|" + native)
    requires InOrder(s.rows, ids) && RowsUnder(s.rows, s.rows[i].root, ids)
    ensures s.rows[i].root == s.rows[j].root
    ensures !IsChain(s.rows, s.rows[i].key, ids) && !IsChain(s.rows, s.rows[j].key, ids)
  {
    hide Good, IsChain;
    Bars.JoinedClash(provider, account, m, native);
    HistoryIsChain(s, i, ids);
    HistoryIsChain(s, j, ids);
  }

  // ---------------------------------------------------------------- counts

  /** Distinct natural keys in the table. */
  ghost function Keys(rows: Rows): set<NaturalKey> {
    set i | i in rows :: rows[i].key
  }

  lemma KeyHasCurrent(s: State, key: NaturalKey)
    requires Good(s)
    ensures HasCurrent(s.rows, key) <==> key in Keys(s.rows)
  {
    if key in Keys(s.rows) {
      var i :| i in s.rows && s.rows[i].key == key;
      ChainHasCurrent(s.rows, s.next, i);
    }
  }

  lemma KeysOfInsert(rows: Rows, i: nat, row: Row)
    requires i !in rows
    ensures Keys(rows[i := row]) == Keys(rows) + {row.key} && |rows[i := row]| == |rows| + 1
  {
    var rows' := rows[i := row];
    InsertSize(rows, i, row);
    assert forall k :: k in rows ==> rows'[k] == rows[k];
    forall key | key in Keys(rows) ensures key in Keys(rows') {
      var k :| k in rows && rows[k].key == key;
      assert rows'[k].key == key;
    }
    assert rows'[i].key == row.key;
  }

  lemma KeysOfUpdate(rows: Rows, i: nat, row: Row)
    requires i in rows && rows[i].key == row.key
    ensures Keys(rows[i := row]) == Keys(rows) && |rows[i := row]| == |rows|
  {
    var rows' := rows[i := row];
    TouchSize(rows, i, row);
    assert forall k :: k in rows ==> rows'[k].key == rows[k].key;
    forall key | key in Keys(rows) ensures key in Keys(rows') {
      var k :| k in rows && rows[k].key == key;
      assert rows'[k].key == key;
    }
  }

  lemma KeysOfSplit(rows: Rows, i: nat, id: nat, b: Body)
    requires i in rows && id !in rows
    ensures Keys(Split(rows, i, id, b)) == Keys(rows) && |Split(rows, i, id, b)| == |rows| + 1
  {
    SplitSize(rows, i, id, b);
    KeysOfUpdate(rows, i, rows[i].(next := Some(id)));
    KeysOfInsert(Supersede(rows, i, id), id, Successor(rows[i], i, b));
    assert rows[i].key in Keys(rows);
  }

  /** What one upserted row adds: a new key, a new version of a known key, or nothing. */
  lemma UpsertRowAdds(c: Codec, s: State, r: Resource, now: string)
    requires c.Valid() && Good(s)
    ensures var s' := UpsertRow(c, s, r, now);
      && Keys(s'.rows) == Keys(s.rows) + {r.key}
      && (HasCurrent(s.rows, r.key) <==> r.key in Keys(s.rows))
      && (if !HasCurrent(s.rows, r.key) then |s'.rows| == |s.rows| + 1
          else if Unchanged(c, s.rows[CurrentOf(s.rows, r.key)].body, r) then |s'.rows| == |s.rows|
          else |s'.rows| == |s.rows| + 1)
  {
    KeyHasCurrent(s, r.key);
    assert s.next !in s.rows;
    hide Good, Codec.Valid, Unchanged, HasCurrent, Keys;
    if r.key !in Keys(s.rows) {
      KeysOfInsert(s.rows, s.next, FirstRow(r, now, false));
    } else {
      var i := CurrentOf(s.rows, r.key);
      var b := s.rows[i].body;
      KeysOfUpdate(s.rows, i, s.rows[i].(body := VerifiedBody(b, r, now)));
      KeysOfSplit(s.rows, i, s.next, NewBody(r, now, false));
    }
  }

  lemma PlaceRowAdds(s: State, r: Resource, now: string)
    requires Good(s)
    ensures var s' := PlaceRow(s, r, now);
      && Keys(s'.rows) == Keys(s.rows) + {r.key}
      && |s'.rows| == |s.rows| + if r.key in Keys(s.rows) then 0 else 1
  {
    KeyHasCurrent(s, r.key);
    assert s.next !in s.rows;
    if r.key !in Keys(s.rows) {
      KeysOfInsert(s.rows, s.next, FirstRow(r, now, true));
    }
  }

  // ------------------------------------------------- archive and restore

  ghost predicate LiveUnder(rows: Rows, root: RootId, j: nat) {
    j in rows && rows[j].root == root && Live(rows[j])
  }

  /** Archiving takes one live row away from under its root: the others, which only keys
      sharing the root_id can have, stay. */
  lemma ArchiveTakesOne(s: State, i: nat, now: string, deletedBy: string, j: nat)
    requires Good(s) && i in s.rows && Live(s.rows[i])
    ensures LiveUnder(ArchiveRow(s, i, now, deletedBy).rows, s.rows[i].root, j) <==>
      j != i && LiveUnder(s.rows, s.rows[i].root, j)
    ensures j != i && LiveUnder(s.rows, s.rows[i].root, j) ==> s.rows[j].key != s.rows[i].key
  {
    assert s.next !in s.rows;
    hide BackLinks, ForwardLinks, OneRoot;
    assert LiveUnder(s.rows, s.rows[i].root, i);
  }

  /** A second call archives nothing, if and only if no other key is live under the same
      root_id. */
  lemma ArchiveLeavesNothingLive(s: State, i: nat, now: string, deletedBy: string)
    requires Good(s) && i in s.rows && Live(s.rows[i])
    ensures (forall j :: !LiveUnder(ArchiveRow(s, i, now, deletedBy).rows, s.rows[i].root, j)) <==>
      (forall j :: LiveUnder(s.rows, s.rows[i].root, j) ==> s.rows[j].key == s.rows[i].key)
  {
    hide Good, ArchiveRow;
    forall j
      ensures LiveUnder(ArchiveRow(s, i, now, deletedBy).rows, s.rows[i].root, j) <==>
        j != i && LiveUnder(s.rows, s.rows[i].root, j)
      ensures j != i && LiveUnder(s.rows, s.rows[i].root, j) ==> s.rows[j].key != s.rows[i].key
    {
      ArchiveTakesOne(s, i, now, deletedBy, j);
    }
  }

  lemma RestoreSize(rows: Rows, root: RootId)
    ensures |RestoreRows(rows, root)| == |rows|
  {
    assert RestoreRows(rows, root).Keys == rows.Keys;
    assert |RestoreRows(rows, root).Keys| == |RestoreRows(rows, root)| && |rows| == |rows.Keys|;
  }

  lemma RestoreLifts(rows: Rows, root: RootId, i: nat)
    requires i in rows && rows[i].root == root && rows[i].Current() && rows[i].body.deletedAt.Some?
    ensures |RestoreRows(rows, root)| == |rows| && i in RestoreRows(rows, root)
    ensures RestoreRows(rows, root)[i] == rows[i].(body := rows[i].body.(deletedAt := None, deletedBy := None))
  {
    RestoreSize(rows, root);
  }

  /** Restoring undoes archiving, at the price of one more row: the resource is live
      again with the payload and verification it had. */
  lemma ArchiveThenRestore(s: State, i: nat, now: string, deletedBy: string)
    requires Good(s) && i in s.rows && Live(s.rows[i])
    ensures var rows := RestoreRows(ArchiveRow(s, i, now, deletedBy).rows, s.rows[i].root);
      && IsCurrentOf(rows, s.rows[i].key, s.next)
      && rows[s.next].body == s.rows[i].body.(deletedBy := None, referenceOnly := false)
      && rows[s.next].prev == Some(i)
      && |rows| == |s.rows| + 1
  {
    ArchiveAdds(s, i, now, deletedBy);
    hide Good, ArchiveRow, RestoreRows, Keys;
    RestoreLifts(ArchiveRow(s, i, now, deletedBy).rows, s.rows[i].root, s.next);
  }

  lemma ArchiveAdds(s: State, i: nat, now: string, deletedBy: string)
    requires Good(s) && i in s.rows && Live(s.rows[i])
    ensures var rows := ArchiveRow(s, i, now, deletedBy).rows;
      && |rows| == |s.rows| + 1 && s.next in rows
      && rows[s.next] == Successor(s.rows[i], i, TombstoneBody(s.rows[i].body, now, deletedBy))
  {
    hide Keys;
    assert s.next !in s.rows;
    KeysOfSplit(s.rows, i, s.next, TombstoneBody(s.rows[i].body, now, deletedBy));
  }
}
