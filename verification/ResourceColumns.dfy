/** What each operation on the resources table leaves in every column, in terms of the
    incoming resource and the row that was there. */
module ResourceColumns {
  import opened Wrappers
  import opened Chains
  import opened JsonText
  import opened Redact
  import opened Volatile
  import opened Resources
  import opened ResourceLaws
  import opened Rescan

  // ------------------------------------------------------- preprocessing

  /** What a resource is before it is stored: everything else is as it came. */
  lemma PrepareExact(p: Policy, r: Resource)
    requires p.codec.Valid()
    ensures var q := p.Prepare(r);
      && q.id == (if r.id == Given("") then Hash(r.key.provider + "|" + r.key.account + "|" + r.key.native) else r.id)
      && q.key == r.key && q.typ == r.typ && q.tags == r.tags && q.display == r.display && q.createdAt == r.createdAt
      && q.discoveredAt == r.discoveredAt && q.discoveredBy == r.discoveredBy
      && (q.managed <==> r.managed || r.typ in p.managed)
    ensures p.codec.parse(r.attributes).None? ==> p.Prepare(r).attributes == r.attributes
    ensures r.typ !in p.rules && r.typ !in p.paths ==> p.Prepare(r).attributes == r.attributes
    ensures p.codec.parse(r.attributes).Some? ==>
      var rules := if r.typ in p.rules then p.rules[r.typ] else [];
      var paths := if r.typ in p.paths then p.paths[r.typ] else [];
      p.codec.parse(p.Prepare(r).attributes) == Some(DropAll(ApplyRules(p.codec.parse(r.attributes).value, rules), paths))
  {
    NormaliseTextParses(p.codec, p.RulesOf(r.typ), p.PathsOf(r.typ), r.attributes);
  }

  /** The empty and the NULL text are the same tags. */
  function TagText(tags: Option<string>): string {
    match tags
    case None => ""
    case Some(t) => t
  }

  /** Type, attributes and tags compare equal. */
  predicate SamePayloadAs(c: Codec, b: Body, r: Resource)
    requires c.Valid()
  {
    b.typ == r.typ && JsonEqual(c, b.attributes, r.attributes) && JsonEqual(c, TagText(b.tags), TagText(r.tags))
  }

  lemma UnchangedExact(c: Codec, b: Body, r: Resource)
    requires c.Valid()
    ensures Unchanged(c, b, r) <==> SamePayloadAs(c, b, r)
  {
    hide JsonEqual, Codec.Valid;
  }

  // ------------------------------------------------------------ one upsert

  /** The columns every upsert refreshes: display, management and verification are the
      scan's, and neither tombstone nor placeholder marks are left. */
  predicate Refreshes(b: Body, r: Resource, now: string) {
    && b.display == r.display && b.managed == r.managed
    && b.verifiedAt == Some(now) && b.verifiedBy == Some(r.discoveredBy)
    && b.deletedAt == None && b.deletedBy == None && !b.referenceOnly
  }

  /** The payload as it came. */
  predicate Carries(b: Body, r: Resource) {
    b.typ == r.typ && b.attributes == r.attributes && b.tags == r.tags && b.createdAt == r.createdAt
  }

  /** The first row of a key. */
  predicate FirstOf(row: Row, r: Resource, now: string) {
    && row.key == r.key && row.root == r.id && row.prev == None && row.next == None
    && row.discoveredAt == (if r.discoveredAt == "" then now else r.discoveredAt) && row.discoveredBy == r.discoveredBy
  }

  /** A resource not known before gets one row of its own. */
  lemma UpsertNew(c: Codec, s: State, r: Resource, now: string)
    requires c.Valid() && Good(s) && r.key !in Keys(s.rows)
    ensures var t, id := UpsertRow(c, s, r, now).rows, s.next;
      && t.Keys == s.rows.Keys + {id} && OnlyAt(s.rows, t, id, id)
      && FirstOf(t[id], r, now) && Carries(t[id].body, r) && Refreshes(t[id].body, r, now)
  {
    KeyHasCurrent(s, r.key);
    hide Codec.Valid, Unchanged;
    assert s.next !in s.rows;
  }

  /** A known resource whose payload compares equal has its row refreshed in place. */
  lemma UpsertSame(c: Codec, s: State, r: Resource, now: string, i: nat)
    requires c.Valid() && Good(s) && IsCurrentOf(s.rows, r.key, i) && SamePayloadAs(c, s.rows[i].body, r)
    ensures var t := UpsertRow(c, s, r, now).rows;
      && t.Keys == s.rows.Keys && OnlyAt(s.rows, t, i, i)
      && SameChain(t[i], s.rows[i]) && t[i].prev == s.rows[i].prev && t[i].next == None
      && t[i].body.typ == s.rows[i].body.typ && t[i].body.attributes == s.rows[i].body.attributes
      && t[i].body.tags == s.rows[i].body.tags && t[i].body.createdAt == s.rows[i].body.createdAt
      && Refreshes(t[i].body, r, now)
  {
    CurrentIsUnique(s.rows, r.key, i);
    UnchangedExact(c, s.rows[i].body, r);
    TouchExact(s.rows, i, VerifiedBody(s.rows[i].body, r, now));
    hide Codec.Valid, Unchanged, SamePayloadAs, BackLinks, ForwardLinks, OneRoot, Touch, OnlyAt, HasCurrent, OneCurrent;
  }

  /** One whose payload differs gets a new version: its old row changes in superseded_by
      alone, and the new row carries the new payload in the old one's place. */
  lemma UpsertChanged(c: Codec, s: State, r: Resource, now: string, i: nat)
    requires c.Valid() && Good(s) && IsCurrentOf(s.rows, r.key, i) && !SamePayloadAs(c, s.rows[i].body, r)
    ensures var t, id := UpsertRow(c, s, r, now).rows, s.next;
      && id !in s.rows && t.Keys == s.rows.Keys + {id} && OnlyAt(s.rows, t, i, id)
      && SameChain(t[i], s.rows[i]) && t[i].prev == s.rows[i].prev && t[i].next == Some(id) && t[i].body == s.rows[i].body
      && SameChain(t[id], s.rows[i]) && t[id].prev == Some(i) && t[id].next == None
      && Carries(t[id].body, r) && Refreshes(t[id].body, r, now)
  {
    CurrentIsUnique(s.rows, r.key, i);
    UnchangedExact(c, s.rows[i].body, r);
    assert s.next !in s.rows;
    SplitExact(s.rows, i, s.next, NewBody(r, now, false));
    hide Codec.Valid, Unchanged, SamePayloadAs, Good, Split, OnlyAt, HasCurrent, OneCurrent;
  }

  // -------------------------------------------------------------- batches

  /** The current row of the resource's key is what this scan says it is. */
  ghost predicate Scanned(c: Codec, rows: Rows, r: Resource, now: string)
    requires c.Valid()
  {
    exists i :: IsCurrentOf(rows, r.key, i) && SamePayloadAs(c, rows[i].body, r) && Refreshes(rows[i].body, r, now)
  }

  lemma UpsertScans(c: Codec, s: State, r: Resource, now: string)
    requires c.Valid() && Good(s)
    ensures Scanned(c, UpsertRow(c, s, r, now).rows, r, now)
  {
    var t := UpsertRow(c, s, r, now).rows;
    KeyHasCurrent(s, r.key);
    ResourceSameAsItself(c, r);
    hide Codec.Valid, Good, SamePayloadAs, UpsertRow, Refreshes, Keys, JsonEqual;
    if r.key !in Keys(s.rows) {
      UpsertNew(c, s, r, now);
      CarriedPayload(c, t[s.next].body, r);
      assert IsCurrentOf(t, r.key, s.next);
    } else {
      var i := CurrentOf(s.rows, r.key);
      if SamePayloadAs(c, s.rows[i].body, r) {
        UpsertSame(c, s, r, now, i);
        PayloadStays(c, s.rows[i].body, t[i].body, r);
        assert IsCurrentOf(t, r.key, i);
      } else {
        UpsertChanged(c, s, r, now, i);
        CarriedPayload(c, t[s.next].body, r);
        assert IsCurrentOf(t, r.key, s.next);
      }
    }
  }

  lemma ResourceSameAsItself(c: Codec, r: Resource)
    requires c.Valid()
    ensures JsonEqual(c, r.attributes, r.attributes) && JsonEqual(c, TagText(r.tags), TagText(r.tags))
  {
  }

  lemma CarriedPayload(c: Codec, b: Body, r: Resource)
    requires c.Valid() && Carries(b, r)
    ensures SamePayloadAs(c, b, r)
  {
    ResourceSameAsItself(c, r);
  }

  lemma PayloadStays(c: Codec, a: Body, b: Body, r: Resource)
    requires c.Valid() && SamePayloadAs(c, a, r) && b.typ == a.typ && b.attributes == a.attributes && b.tags == a.tags
    ensures SamePayloadAs(c, b, r)
  {
  }

  lemma OtherScanned(c: Codec, s: State, r: Resource, now: string, q: Resource)
    requires c.Valid() && Good(s) && q.key != r.key && Scanned(c, s.rows, q, now)
    ensures Scanned(c, UpsertRow(c, s, r, now).rows, q, now)
  {
    hide Codec.Valid, SamePayloadAs, Refreshes, UpsertRow, BackLinks, ForwardLinks, OneRoot;
    var i :| IsCurrentOf(s.rows, q.key, i) && SamePayloadAs(c, s.rows[i].body, q) && Refreshes(s.rows[i].body, q, now);
    OtherRowsUntouched(c, s, r, now, i);
    assert IsCurrentOf(UpsertRow(c, s, r, now).rows, q.key, i);
  }

  /** After a batch the current row of every key is what the last resource with that key
      says: payload, display, management, verification; it is neither a tombstone, even
      if it was one, nor a placeholder. */
  lemma {:induction false} BatchScanned(c: Codec, s: State, rs: seq<Resource>, now: string, j: nat)
    requires c.Valid() && Good(s) && j < |rs| && LastOfItsKey(rs, j)
    ensures Scanned(c, UpsertRows(c, s, rs, now).rows, rs[j], now)
    decreases |rs|
  {
    hide Good, Codec.Valid, Scanned, UpsertRow, UpsertRows, Extends, LastOfItsKey;
    var init, r := rs[..|rs|-1], rs[|rs|-1];
    var t := UpsertRows(c, s, init, now);
    UpsertRowsKeep(c, s, init, now);
    UpsertRowsLast(c, s, rs, now);
    if j == |rs| - 1 {
      UpsertScans(c, t, r, now);
    } else {
      LastOfInit(rs, j);
      BatchScanned(c, s, init, now, j);
      OtherScanned(c, t, r, now, init[j]);
    }
  }

  lemma LastOfInit(rs: seq<Resource>, j: nat)
    requires j < |rs| - 1 && LastOfItsKey(rs, j)
    ensures LastOfItsKey(rs[..|rs|-1], j) && rs[|rs|-1].key != rs[j].key
  {
  }

  // ------------------------------------------ placeholders, archive, restore

  /** A placeholder's row: nothing is marked deleted, and it is marked as a reference. */
  lemma PlaceExact(s: State, r: Resource, now: string)
    requires Good(s)
    ensures var t, id := PlaceRow(s, r, now).rows, s.next;
      if r.key in Keys(s.rows) then t == s.rows
      else
        && t.Keys == s.rows.Keys + {id} && OnlyAt(s.rows, t, id, id) && FirstOf(t[id], r, now) && Carries(t[id].body, r)
        && t[id].body.referenceOnly && Refreshes(t[id].body.(referenceOnly := false), r, now)
  {
    KeyHasCurrent(s, r.key);
    assert s.next !in s.rows;
  }

  /** The tombstone repeats the row it supersedes, apart from its marks. */
  lemma ArchiveExact(s: State, i: nat, now: string, deletedBy: string)
    requires Good(s) && i in s.rows && Live(s.rows[i])
    ensures s.rows[i].next == None && s.rows[i].body.deletedAt == None
    ensures var t, id := ArchiveRow(s, i, now, deletedBy).rows, s.next;
      && id !in s.rows && t.Keys == s.rows.Keys + {id} && OnlyAt(s.rows, t, i, id)
      && t[i] == s.rows[i].(next := Some(id))
      && SameChain(t[id], s.rows[i]) && t[id].prev == Some(i) && t[id].next == None
      && t[id].body.deletedAt == Some(now) && t[id].body.deletedBy == Some(deletedBy) && !t[id].body.referenceOnly
      && var a, b := s.rows[i].body, t[id].body;
        && b.typ == a.typ && b.attributes == a.attributes && b.tags == a.tags && b.display == a.display
        && b.managed == a.managed && b.createdAt == a.createdAt && b.verifiedAt == a.verifiedAt && b.verifiedBy == a.verifiedBy
  {
    assert s.next !in s.rows;
    SplitExact(s.rows, i, s.next, TombstoneBody(s.rows[i].body, now, deletedBy));
    hide Good, Split, OnlyAt;
  }

  /** Restoring lifts the marks from the archived current rows of the root and touches no
      other row, of whatever root. */
  lemma RestoreExact(rows: Rows, root: RootId, i: nat)
    requires i in rows
    ensures RestoreRows(rows, root).Keys == rows.Keys
    ensures var t := RestoreRows(rows, root);
      if rows[i].root == root && rows[i].next == None && rows[i].body.deletedAt != None
      then
        && t[i].key == rows[i].key && t[i].root == rows[i].root && t[i].prev == rows[i].prev && t[i].next == None
        && t[i].discoveredAt == rows[i].discoveredAt && t[i].discoveredBy == rows[i].discoveredBy
        && t[i].body.deletedAt == None && t[i].body.deletedBy == None
        && var a, b := rows[i].body, t[i].body;
          && b.typ == a.typ && b.attributes == a.attributes && b.tags == a.tags && b.display == a.display && b.managed == a.managed
          && b.createdAt == a.createdAt && b.verifiedAt == a.verifiedAt && b.verifiedBy == a.verifiedBy
          && b.referenceOnly == a.referenceOnly
      else t[i] == rows[i]
  {
    assert RestoreRows(rows, root).Keys == rows.Keys;
  }
}
