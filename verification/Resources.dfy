/** store/resources_upsert.go and store/resources_archive.go: what each operation makes
    of the resources table, and what every run of operations keeps. */
module Resources {
  import opened Wrappers
  import opened Chains
  import opened JsonText
  import opened Redact
  import opened Volatile
  import Bars

  datatype NaturalKey = NaturalKey(provider: string, account: string, native: string)

  /** root_id: the hash of a text, or whatever a caller supplied. Two texts have the
      same hash only when they are the same text. */
  datatype RootId = Hash(text: string) | Given(given: string)

  /** The text that stands for a natural key, and the hash of it. */
  function Identity(key: NaturalKey): string {
    Bars.Joined(key.provider, key.account, key.native)
  }

  function HashOf(key: NaturalKey): RootId {
    Hash(Identity(key))
  }

  /** The columns an unchanged rescan refreshes in place. */
  datatype Display = Display(
    accountName: Option<string>, name: Option<string>, region: Option<string>,
    zone: Option<string>, status: Option<string>)

  datatype Resource = Resource(
    id: RootId, key: NaturalKey, typ: string, attributes: string, tags: Option<string>,
    display: Display, managed: bool, createdAt: Option<string>,
    discoveredAt: string, discoveredBy: string)

  datatype Body = Body(
    typ: string, attributes: string, tags: Option<string>,
    display: Display, managed: bool, createdAt: Option<string>,
    verifiedAt: Option<string>, verifiedBy: Option<string>,
    deletedAt: Option<string>, deletedBy: Option<string>, referenceOnly: bool)

  type Row = Version<NaturalKey, RootId, Body>
  type Rows = Table<NaturalKey, RootId, Body>

  datatype State = State(rows: Rows, next: nat)

  const EMPTY := State(map[], 0)

  // ------------------------------------------------------- preprocessing

  /** The per-type registries consulted at the store boundary. */
  datatype Policy = Policy(
    codec: Codec, rules: map<string, seq<Rule>>, paths: map<string, seq<KeyPath>>, managed: set<string>)
  {
    function RulesOf(typ: string): seq<Rule> { if typ in rules then rules[typ] else [] }
    function PathsOf(typ: string): seq<KeyPath> { if typ in paths then paths[typ] else [] }

    function Prepare(r: Resource): Resource {
      r.(id := if r.id == Given("") then HashOf(r.key) else r.id,
         attributes := NormaliseText(codec, RulesOf(r.typ), PathsOf(r.typ), r.attributes),
         managed := r.managed || r.typ in managed)
    }
  }

  /** The comparison that decides between verifying in place and splitting. */
  predicate SamePayload(
    c: Codec, typ: string, attributes: string, tags: Option<string>, typ': string, attributes': string, tags': Option<string>)
    requires c.Valid()
  {
    typ == typ' && JsonEqual(c, attributes, attributes') && JsonEqual(c, Deref(tags), Deref(tags'))
  }

  predicate Unchanged(c: Codec, b: Body, r: Resource)
    requires c.Valid()
  {
    SamePayload(c, b.typ, b.attributes, b.tags, r.typ, r.attributes, r.tags)
  }

  // --------------------------------------------------- rows written

  function NewBody(r: Resource, now: string, placeholder: bool): Body {
    Body(r.typ, r.attributes, r.tags, r.display, r.managed, r.createdAt,
         Some(now), Some(r.discoveredBy), None, None, placeholder)
  }

  function FirstRow(r: Resource, now: string, placeholder: bool): Row {
    Version(r.key, r.id, None, None, if r.discoveredAt == "" then now else r.discoveredAt, r.discoveredBy,
            NewBody(r, now, placeholder))
  }

  function VerifiedBody(b: Body, r: Resource, now: string): Body {
    b.(verifiedAt := Some(now), verifiedBy := Some(r.discoveredBy), display := r.display, managed := r.managed,
       deletedAt := None, deletedBy := None, referenceOnly := false)
  }

  function TombstoneBody(b: Body, now: string, deletedBy: string): Body {
    b.(deletedAt := Some(now), deletedBy := Some(deletedBy), referenceOnly := false)
  }

  // ------------------------------------------------- operations on the table

  ghost function UpsertRow(c: Codec, s: State, r: Resource, now: string): State
    requires c.Valid()
  {
    if !HasCurrent(s.rows, r.key) then State(s.rows[s.next := FirstRow(r, now, false)], s.next + 1)
    else
      var i := CurrentOf(s.rows, r.key);
      if Unchanged(c, s.rows[i].body, r) then State(Touch(s.rows, i, VerifiedBody(s.rows[i].body, r, now)), s.next)
      else State(Split(s.rows, i, s.next, NewBody(r, now, false)), s.next + 1)
  }

  /** A row id is drawn whether or not the insert takes place. */
  ghost function PlaceRow(s: State, r: Resource, now: string): State {
    if HasCurrent(s.rows, r.key) then State(s.rows, s.next + 1)
    else State(s.rows[s.next := FirstRow(r, now, true)], s.next + 1)
  }

  ghost function UpsertRows(c: Codec, s: State, rs: seq<Resource>, now: string): State
    requires c.Valid()
  {
    if rs == [] then s else UpsertRow(c, UpsertRows(c, s, rs[..|rs|-1], now), rs[|rs|-1], now)
  }

  ghost function PlaceRows(s: State, rs: seq<Resource>, now: string): State {
    if rs == [] then s else PlaceRow(PlaceRows(s, rs[..|rs|-1], now), rs[|rs|-1], now)
  }

  predicate Live(row: Row) {
    row.Current() && row.body.deletedAt.None?
  }

  /** RestoreResource's UPDATE: every archived current row of the root. */
  function RestoreRows(rows: Rows, root: RootId): Rows {
    map i | i in rows ::
      if rows[i].root == root && rows[i].Current() && rows[i].body.deletedAt.Some?
      then rows[i].(body := rows[i].body.(deletedAt := None, deletedBy := None))
      else rows[i]
  }

  /** ArchiveResource's split of the row its lookup returned into a tombstone. */
  ghost function ArchiveRow(s: State, i: nat, now: string, deletedBy: string): State
    requires i in s.rows
  {
    State(Split(s.rows, i, s.next, TombstoneBody(s.rows[i].body, now, deletedBy)), s.next + 1)
  }

  /** One committed operation. Discard stands for row ids drawn by attempts that were
      rolled back. Archive names the row its lookup returned. */
  datatype Op =
    | Upsert(rs: seq<Resource>, now: string)
    | InsertIfAbsent(rs: seq<Resource>, now: string)
    | Archive(row: nat, now: string, deletedBy: string)
    | Restore(root: RootId)
    | Discard(ids: nat)

  ghost predicate Legal(s: State, op: Op) {
    op.Archive? ==> op.row in s.rows && Live(s.rows[op.row])
  }

  ghost function Step(c: Codec, s: State, op: Op): State
    requires c.Valid() && Legal(s, op)
  {
    match op
    case Upsert(rs, now) => UpsertRows(c, s, rs, now)
    case InsertIfAbsent(rs, now) => PlaceRows(s, rs, now)
    case Archive(i, now, deletedBy) => ArchiveRow(s, i, now, deletedBy)
    case Restore(root) => State(RestoreRows(s.rows, root), s.next)
    case Discard(ids) => State(s.rows, s.next + ids)
  }

  ghost predicate LegalRun(c: Codec, s: State, ops: seq<Op>)
    requires c.Valid()
    decreases |ops|, 0
  {
    ops == [] || (LegalRun(c, s, ops[..|ops|-1]) && Legal(Run(c, s, ops[..|ops|-1]), ops[|ops|-1]))
  }

  ghost function Run(c: Codec, s: State, ops: seq<Op>): State
    requires c.Valid() && LegalRun(c, s, ops)
    decreases |ops|, 1
  {
    if ops == [] then s else Step(c, Run(c, s, ops[..|ops|-1]), ops[|ops|-1])
  }

  // -------------------------------------------------- what one step keeps

  ghost predicate Good(s: State) {
    Inv(s.rows, s.next)
  }

  /** What never changes about a row once written: its place in the chain, its origin
      and its payload; and a superseded row does not change at all. */
  ghost predicate Preserves(a: Rows, b: Rows) {
    forall i :: i in a ==>
      && i in b
      && b[i].key == a[i].key && b[i].root == a[i].root && b[i].prev == a[i].prev
      && b[i].discoveredAt == a[i].discoveredAt && b[i].discoveredBy == a[i].discoveredBy
      && b[i].body.typ == a[i].body.typ && b[i].body.attributes == a[i].body.attributes
      && b[i].body.tags == a[i].body.tags && b[i].body.createdAt == a[i].body.createdAt
      && (!a[i].Current() ==> b[i] == a[i])
  }

  /** New rows only ever get new ids. */
  ghost predicate Extends(a: State, b: State) {
    a.next <= b.next && Preserves(a.rows, b.rows) && forall i :: i in b.rows && i < a.next ==> i in a.rows
  }

  lemma ExtendsTransitive(a: State, b: State, d: State)
    requires Extends(a, b) && Extends(b, d)
    ensures Extends(a, d)
  {
  }

  lemma FirstExtends(s: State, row: Row)
    requires IdsBelow(s.rows, s.next)
    ensures Extends(s, State(s.rows[s.next := row], s.next + 1))
  {
  }

  lemma FirstStep(s: State, row: Row)
    requires Good(s) && !HasCurrent(s.rows, row.key) && row.prev.None? && row.Current()
    ensures var s' := State(s.rows[s.next := row], s.next + 1); Good(s') && Extends(s, s')
  {
    hide OneCurrent, OneRoot, BackLinks, ForwardLinks, IdsBelow, HasCurrent, Extends;
    FirstKeepsInv(s.rows, s.next, s.next, row);
    FirstExtends(s, row);
  }

  /** Only bodies differ, and in them only display, verification and tombstone columns,
      and only on current rows. */
  ghost predicate Refreshed(t: Rows, t': Rows) {
    && OnlyBodiesDiffer(t, t')
    && forall i :: i in t ==>
      var a, b := t[i].body, t'[i].body;
      && b.typ == a.typ && b.attributes == a.attributes && b.tags == a.tags && b.createdAt == a.createdAt
      && (!t[i].Current() ==> b == a)
  }

  lemma RefreshExtends(s: State, t': Rows)
    requires Refreshed(s.rows, t')
    ensures Extends(s, State(t', s.next))
  {
  }

  lemma RefreshStep(s: State, t': Rows)
    requires Good(s) && Refreshed(s.rows, t')
    ensures var s' := State(t', s.next); Good(s') && Extends(s, s')
  {
    RefreshExtends(s, t');
    hide OneCurrent, OneRoot, BackLinks, ForwardLinks, IdsBelow, Extends, OnlyBodiesDiffer;
    BodiesKeepInv(s.rows, t', s.next);
  }

  lemma SplitExtends(s: State, i: nat, b: Body)
    requires IdsBelow(s.rows, s.next) && i in s.rows && s.rows[i].Current()
    ensures Extends(s, State(Split(s.rows, i, s.next, b), s.next + 1))
  {
    assert s.next !in s.rows;
  }

  lemma SplitStep(s: State, i: nat, b: Body)
    requires Good(s) && i in s.rows && s.rows[i].Current()
    ensures var s' := State(Split(s.rows, i, s.next, b), s.next + 1); Good(s') && Extends(s, s')
  {
    hide OneCurrent, OneRoot, BackLinks, ForwardLinks, IdsBelow, Extends, Split;
    SplitKeepsInv(s.rows, s.next, i, s.next, b);
    SplitExtends(s, i, b);
  }

  lemma TouchRefreshes(t: Rows, i: nat, b: Body)
    requires i in t && t[i].Current()
    requires var a := t[i].body;
      b.typ == a.typ && b.attributes == a.attributes && b.tags == a.tags && b.createdAt == a.createdAt
    ensures Refreshed(t, Touch(t, i, b))
  {
    assert Touch(t, i, b).Keys == t.Keys;
  }

  lemma UpsertRowKeeps(c: Codec, s: State, r: Resource, now: string)
    requires c.Valid() && Good(s)
    ensures Good(UpsertRow(c, s, r, now)) && Extends(s, UpsertRow(c, s, r, now))
  {
    hide Good, Extends, Codec.Valid, Unchanged, HasCurrent, Refreshed, Split, Touch;
    if !HasCurrent(s.rows, r.key) {
      FirstStep(s, FirstRow(r, now, false));
    } else {
      var i := CurrentOf(s.rows, r.key);
      TouchRefreshes(s.rows, i, VerifiedBody(s.rows[i].body, r, now));
      RefreshStep(s, Touch(s.rows, i, VerifiedBody(s.rows[i].body, r, now)));
      SplitStep(s, i, NewBody(r, now, false));
    }
  }

  lemma PlaceRowKeeps(s: State, r: Resource, now: string)
    requires Good(s)
    ensures Good(PlaceRow(s, r, now)) && Extends(s, PlaceRow(s, r, now))
  {
    if HasCurrent(s.rows, r.key) {
      InvWiden(s.rows, s.next, s.next + 1);
    } else {
      FirstStep(s, FirstRow(r, now, true));
    }
  }

  lemma {:induction false} UpsertRowsKeep(c: Codec, s: State, rs: seq<Resource>, now: string)
    requires c.Valid() && Good(s)
    ensures Good(UpsertRows(c, s, rs, now)) && Extends(s, UpsertRows(c, s, rs, now))
  {
    hide Good, UpsertRow, Codec.Valid;
    if rs != [] {
      var init := rs[..|rs|-1];
      UpsertRowsKeep(c, s, init, now);
      UpsertRowKeeps(c, UpsertRows(c, s, init, now), rs[|rs|-1], now);
      hide Extends;
      ExtendsTransitive(s, UpsertRows(c, s, init, now), UpsertRows(c, s, rs, now));
    }
  }

  lemma {:induction false} PlaceRowsKeep(s: State, rs: seq<Resource>, now: string)
    requires Good(s)
    ensures Good(PlaceRows(s, rs, now)) && Extends(s, PlaceRows(s, rs, now))
  {
    hide Good, PlaceRow;
    if rs != [] {
      var init := rs[..|rs|-1];
      PlaceRowsKeep(s, init, now);
      PlaceRowKeeps(PlaceRows(s, init, now), rs[|rs|-1], now);
      hide Extends;
      ExtendsTransitive(s, PlaceRows(s, init, now), PlaceRows(s, rs, now));
    }
  }

  lemma RestoreKeeps(s: State, root: RootId)
    requires Good(s)
    ensures var s' := State(RestoreRows(s.rows, root), s.next); Good(s') && Extends(s, s')
  {
    RestoreRefreshes(s.rows, root);
    hide Good, Extends, Refreshed;
    RefreshStep(s, RestoreRows(s.rows, root));
  }

  lemma RestoreRefreshes(t: Rows, root: RootId)
    ensures Refreshed(t, RestoreRows(t, root))
  {
    assert RestoreRows(t, root).Keys == t.Keys;
  }

  lemma StepKeeps(c: Codec, s: State, op: Op)
    requires c.Valid() && Legal(s, op) && Good(s)
    ensures Good(Step(c, s, op)) && Extends(s, Step(c, s, op))
  {
    match op
    case Upsert(rs, now) => UpsertRowsKeep(c, s, rs, now);
    case InsertIfAbsent(rs, now) => PlaceRowsKeep(s, rs, now);
    case Archive(i, now, deletedBy) => SplitStep(s, i, TombstoneBody(s.rows[i].body, now, deletedBy));
    case Restore(root) => RestoreKeeps(s, root);
    case Discard(ids) => InvWiden(s.rows, s.next, s.next + ids);
  }

  /** Every run of operations keeps the chain invariants and only ever extends what was
      there: superseded rows are frozen, payloads and origins never change. */
  lemma {:induction false} RunKeeps(c: Codec, s: State, ops: seq<Op>)
    requires c.Valid() && LegalRun(c, s, ops) && Good(s)
    ensures Good(Run(c, s, ops)) && Extends(s, Run(c, s, ops))
  {
    hide Good, Legal, Step, Codec.Valid;
    if ops != [] {
      var init := ops[..|ops|-1];
      RunKeeps(c, s, init);
      StepKeeps(c, Run(c, s, init), ops[|ops|-1]);
      hide Extends;
      ExtendsTransitive(s, Run(c, s, init), Run(c, s, ops));
    }
  }

  lemma EmptyIsGood()
    ensures Good(EMPTY)
  {
  }
}
