/** store/quotas.go: service limits under the version-chain model. */
module Quotas {
  import opened Wrappers
  import opened Chains

  datatype QuotaKey = QuotaKey(
    provider: string, account: string, region: string, serviceCode: string, quotaCode: string, dimensionKey: string)

  /** The typed columns that decide whether a limit changed. */
  datatype Limit = Limit(
    value: Option<real>, defaultValue: Option<real>, adjustable: bool, unit: Option<string>,
    periodUnit: Option<string>, periodValue: Option<int>, resourceType: Option<string>, availabilityZone: Option<string>)

  /** Columns an unchanged rescan refreshes in place. */
  datatype Labels = Labels(
    name: string, description: Option<string>, serviceName: Option<string>, accountName: Option<string>, attributes: string)

  datatype Quota = Quota(
    id: string, key: QuotaKey, limit: Limit, labels: Labels, subAccountType: Option<string>,
    discoveredAt: string, discoveredBy: string)

  datatype Body = Body(
    limit: Limit, labels: Labels, subAccountType: Option<string>, verifiedAt: string, verifiedBy: string)

  type Row = Version<QuotaKey, string, Body>
  type Rows = Table<QuotaKey, string, Body>

  datatype State = State(rows: Rows, next: nat)

  /** unchanged: numbers compare with NULL apart from every value, text with NULL as the
      empty string; labels, the raw attributes and the container kind are not compared. */
  predicate SameLimit(a: Limit, b: Limit) {
    && a.value == b.value && a.defaultValue == b.defaultValue && a.adjustable == b.adjustable
    && Deref(a.unit) == Deref(b.unit) && Deref(a.periodUnit) == Deref(b.periodUnit) && a.periodValue == b.periodValue
    && Deref(a.resourceType) == Deref(b.resourceType) && Deref(a.availabilityZone) == Deref(b.availabilityZone)
  }

  function NewBody(q: Quota, now: string): Body {
    Body(q.limit, q.labels, q.subAccountType, now, q.discoveredBy)
  }

  function FirstRow(q: Quota, now: string): Row {
    Version(q.key, q.id, None, None, if q.discoveredAt == "" then now else q.discoveredAt, q.discoveredBy, NewBody(q, now))
  }

  function VerifiedBody(b: Body, q: Quota, now: string): Body {
    b.(verifiedAt := now, verifiedBy := q.discoveredBy, labels := q.labels)
  }

  // ------------------------------------------------------- the operation

  ghost function UpsertOne(s: State, q: Quota, now: string): State {
    if !HasCurrent(s.rows, q.key) then State(s.rows[s.next := FirstRow(q, now)], s.next + 1)
    else
      var i := CurrentOf(s.rows, q.key);
      if SameLimit(s.rows[i].body.limit, q.limit) then State(Touch(s.rows, i, VerifiedBody(s.rows[i].body, q, now)), s.next)
      else State(Split(s.rows, i, s.next, NewBody(q, now)), s.next + 1)
  }

  ghost function UpsertAll(s: State, qs: seq<Quota>, now: string): State {
    if qs == [] then s else UpsertOne(UpsertAll(s, qs[..|qs|-1], now), qs[|qs|-1], now)
  }

  /** A committed batch; drawn counts row ids lost in attempts rolled back before it. */
  datatype Batch = Batch(drawn: nat, qs: seq<Quota>, now: string)

  ghost function Run(s: State, batches: seq<Batch>): State {
    if batches == [] then s
    else
      var t, b := Run(s, batches[..|batches|-1]), batches[|batches|-1];
      UpsertAll(State(t.rows, t.next + b.drawn), b.qs, b.now)
  }

  // ---------------------------------------------------------- invariants

  /** Each version carries a limit its predecessor does not. */
  ghost predicate Distinct(rows: Rows) {
    forall i :: i in rows && rows[i].prev.Some? && rows[i].prev.value in rows ==>
      !SameLimit(rows[rows[i].prev.value].body.limit, rows[i].body.limit)
  }

  ghost predicate Good(s: State) {
    Inv(s.rows, s.next) && Distinct(s.rows)
  }

  /** No operation changes a compared column of a row that is already there. */
  ghost predicate LimitsFrozen(a: Rows, b: Rows) {
    forall i :: i in a ==> i in b && b[i].body.limit == a[i].body.limit && b[i].prev == a[i].prev && b[i].key == a[i].key
  }

  lemma TouchKeepsDistinct(rows: Rows, i: nat, b: Body)
    requires Distinct(rows) && i in rows && b.limit == rows[i].body.limit
    ensures Distinct(Touch(rows, i, b)) && LimitsFrozen(rows, Touch(rows, i, b))
    ensures OnlyBodiesDiffer(rows, Touch(rows, i, b))
  {
    hide SameLimit;
    var rows' := Touch(rows, i, b);
    assert rows'.Keys == rows.Keys;
    assert forall j :: j in rows ==> rows'[j].body.limit == rows[j].body.limit && rows'[j].prev == rows[j].prev;
  }

  lemma SplitFacts(rows: Rows, i: nat, id: nat, b: Body)
    requires i in rows && id !in rows
    ensures var rows' := Split(rows, i, id, b);
      && rows'.Keys == rows.Keys + {id} && rows'[id].prev == Some(i) && rows'[id].body.limit == b.limit
      && forall j :: j in rows ==> rows'[j].body == rows[j].body && rows'[j].prev == rows[j].prev && rows'[j].key == rows[j].key
  {
  }

  lemma PredecessorsThere(rows: Rows)
    requires BackLinks(rows)
    ensures forall j :: j in rows && rows[j].prev.Some? ==> rows[j].prev.value in rows
  {
  }

  lemma SplitKeepsDistinct(rows: Rows, i: nat, id: nat, b: Body)
    requires Distinct(rows) && BackLinks(rows) && i in rows && id !in rows && !SameLimit(rows[i].body.limit, b.limit)
    ensures Distinct(Split(rows, i, id, b)) && LimitsFrozen(rows, Split(rows, i, id, b))
  {
    var rows' := Split(rows, i, id, b);
    SplitFacts(rows, i, id, b);
    PredecessorsThere(rows);
    hide SameLimit, Split, BackLinks;
    forall j | j in rows' && rows'[j].prev.Some? && rows'[j].prev.value in rows'
      ensures !SameLimit(rows'[rows'[j].prev.value].body.limit, rows'[j].body.limit)
    {
      if j != id {
        assert j in rows && rows[j].prev.value in rows;
      }
    }
  }

  lemma FirstKeepsDistinct(rows: Rows, id: nat, row: Row)
    requires Distinct(rows) && BackLinks(rows) && id !in rows && row.prev.None?
    ensures Distinct(rows[id := row]) && LimitsFrozen(rows, rows[id := row])
  {
    hide SameLimit;
    assert forall j :: j in rows ==> rows[id := row][j] == rows[j];
  }

  lemma UpsertOneKeeps(s: State, q: Quota, now: string)
    requires Good(s)
    ensures Good(UpsertOne(s, q, now)) && LimitsFrozen(s.rows, UpsertOne(s, q, now).rows)
    ensures s.next <= UpsertOne(s, q, now).next
  {
    GoodFacts(s);
    hide Inv, Distinct, LimitsFrozen, SameLimit, BackLinks, OneCurrent, HasCurrent, Touch, Split, OnlyBodiesDiffer;
    if !HasCurrent(s.rows, q.key) {
      FirstKeepsInv(s.rows, s.next, s.next, FirstRow(q, now));
      FirstKeepsDistinct(s.rows, s.next, FirstRow(q, now));
    } else {
      var i := CurrentOf(s.rows, q.key);
      CurrentFacts(s.rows, q.key, i);
      var b := s.rows[i].body;
      if SameLimit(b.limit, q.limit) {
        TouchKeepsDistinct(s.rows, i, VerifiedBody(b, q, now));
        BodiesKeepInv(s.rows, Touch(s.rows, i, VerifiedBody(b, q, now)), s.next);
      } else {
        SplitKeepsInv(s.rows, s.next, i, s.next, NewBody(q, now));
        SplitKeepsDistinct(s.rows, i, s.next, NewBody(q, now));
      }
    }
  }

  lemma CurrentFacts(rows: Rows, key: QuotaKey, i: nat)
    requires IsCurrentOf(rows, key, i)
    ensures i in rows && rows[i].Current() && rows[i].key == key
  {
  }

  lemma GoodFacts(s: State)
    requires Good(s)
    ensures Inv(s.rows, s.next) && OneCurrent(s.rows) && BackLinks(s.rows) && Distinct(s.rows) && s.next !in s.rows
  {
  }

  lemma FrozenTransitive(a: Rows, b: Rows, c: Rows)
    requires LimitsFrozen(a, b) && LimitsFrozen(b, c)
    ensures LimitsFrozen(a, c)
  {
  }

  lemma {:induction false} UpsertAllKeeps(s: State, qs: seq<Quota>, now: string)
    requires Good(s)
    ensures Good(UpsertAll(s, qs, now)) && LimitsFrozen(s.rows, UpsertAll(s, qs, now).rows)
  {
    hide Good, UpsertOne;
    if qs != [] {
      var t := UpsertAll(s, qs[..|qs|-1], now);
      UpsertAllKeeps(s, qs[..|qs|-1], now);
      UpsertOneKeeps(t, qs[|qs|-1], now);
      hide LimitsFrozen;
      FrozenTransitive(s.rows, t.rows, UpsertAll(s, qs, now).rows);
    }
  }

  lemma DrawKeeps(s: State, drawn: nat)
    requires Good(s)
    ensures Good(State(s.rows, s.next + drawn))
  {
    hide Distinct;
    InvWiden(s.rows, s.next, s.next + drawn);
  }

  lemma FrozenReflexive(rows: Rows)
    ensures LimitsFrozen(rows, rows)
  {
  }

  /** In every reachable table chains are well linked, neighbouring versions carry
      different limits, and no limit ever changes in place. */
  lemma {:induction false} RunKeeps(s: State, batches: seq<Batch>)
    requires Good(s)
    ensures Good(Run(s, batches)) && LimitsFrozen(s.rows, Run(s, batches).rows)
  {
    hide Good, LimitsFrozen, UpsertAll;
    if batches == [] {
      FrozenReflexive(s.rows);
    } else {
      var t, b := Run(s, batches[..|batches|-1]), batches[|batches|-1];
      RunKeeps(s, batches[..|batches|-1]);
      DrawKeeps(t, b.drawn);
      UpsertAllKeeps(State(t.rows, t.next + b.drawn), b.qs, b.now);
      FrozenTransitive(s.rows, t.rows, Run(s, batches).rows);
    }
  }

  // -------------------------------------------------------- ChangedOnly

  /** The filter's predicate on a current row. */
  predicate ChangedOnly(row: Row) {
    row.prev.Some?
  }

  /** The chain holds two versions with different limits. */
  ghost predicate HeldTwoLimits(rows: Rows, key: QuotaKey) {
    exists i, j :: i in rows && j in rows && rows[i].key == key && rows[j].key == key &&
      !SameLimit(rows[i].body.limit, rows[j].body.limit)
  }

  /** A current row passes ChangedOnly exactly when its chain has held two limits. */
  lemma ChangedOnlyExact(s: State, i: nat)
    requires Good(s) && i in s.rows && s.rows[i].Current()
    ensures ChangedOnly(s.rows[i]) <==> HeldTwoLimits(s.rows, s.rows[i].key)
  {
    var key := s.rows[i].key;
    if s.rows[i].prev.Some? {
      var p := s.rows[i].prev.value;
      assert p in s.rows && s.rows[p].key == key;
      assert !SameLimit(s.rows[p].body.limit, s.rows[i].body.limit);
    } else {
      forall j | j in s.rows && s.rows[j].key == key
        ensures j == i
      {
        OnlyRootOnlyRow(s, i, j);
      }
    }
  }

  /** A chain whose current row is its root has no other row. */
  lemma OnlyRootOnlyRow(s: State, i: nat, j: nat)
    requires Good(s) && i in s.rows && s.rows[i].Current() && s.rows[i].prev.None?
    requires j in s.rows && s.rows[j].key == s.rows[i].key
    ensures j == i
    decreases s.next - j
  {
    hide SameLimit, Distinct;
    if s.rows[j].Current() {
      assert j == i;
    } else {
      var n := s.rows[j].next.value;
      assert s.rows[n].prev == Some(j);
      assert j < n;
      OnlyRootOnlyRow(s, i, n);
    }
  }

  // --------------------------------------------------- column by column

  /** A limit as the comparison reads it: numbers with NULL apart, texts with NULL as the
      empty text. */
  datatype Columns = Columns(
    value: Option<real>, defaultValue: Option<real>, adjustable: bool, periodValue: Option<int>,
    unit: string, periodUnit: string, resourceType: string, availabilityZone: string)

  function Text(s: Option<string>): string {
    match s
    case None => ""
    case Some(t) => t
  }

  function ColumnsOf(l: Limit): Columns {
    Columns(l.value, l.defaultValue, l.adjustable, l.periodValue,
            Text(l.unit), Text(l.periodUnit), Text(l.resourceType), Text(l.availabilityZone))
  }

  lemma SameLimitExact(a: Limit, b: Limit)
    ensures SameLimit(a, b) <==> ColumnsOf(a) == ColumnsOf(b)
  {
  }

  /** The columns every rescan refreshes. */
  predicate Refreshes(b: Body, q: Quota, now: string) {
    b.labels == q.labels && b.verifiedAt == now && b.verifiedBy == q.discoveredBy
  }

  /** The first row of a quota. */
  lemma UpsertNew(s: State, q: Quota, now: string)
    requires Good(s) && !HasCurrent(s.rows, q.key)
    ensures var t, id := UpsertOne(s, q, now).rows, s.next;
      && t.Keys == s.rows.Keys + {id} && OnlyAt(s.rows, t, id, id)
      && t[id].key == q.key && t[id].root == q.id && t[id].prev == None && t[id].next == None
      && t[id].discoveredAt == (if q.discoveredAt == "" then now else q.discoveredAt) && t[id].discoveredBy == q.discoveredBy
      && t[id].body.limit == q.limit && t[id].body.subAccountType == q.subAccountType && Refreshes(t[id].body, q, now)
  {
    GoodFacts(s);
    hide SameLimit, Inv, Distinct;
  }

  /** An unchanged limit: one row refreshed in place, its limit and container kind kept. */
  lemma UpsertSame(s: State, q: Quota, now: string, i: nat)
    requires Good(s) && IsCurrentOf(s.rows, q.key, i) && ColumnsOf(s.rows[i].body.limit) == ColumnsOf(q.limit)
    ensures var t := UpsertOne(s, q, now).rows;
      && t.Keys == s.rows.Keys && OnlyAt(s.rows, t, i, i)
      && SameChain(t[i], s.rows[i]) && t[i].prev == s.rows[i].prev && t[i].next == None
      && t[i].body.limit == s.rows[i].body.limit && t[i].body.subAccountType == s.rows[i].body.subAccountType
      && Refreshes(t[i].body, q, now)
  {
    GoodFacts(s);
    CurrentIsUnique(s.rows, q.key, i);
    SameLimitExact(s.rows[i].body.limit, q.limit);
    TouchExact(s.rows, i, VerifiedBody(s.rows[i].body, q, now));
    hide SameLimit, ColumnsOf, Good, Inv, Distinct, OneCurrent, BackLinks, HasCurrent, IdsBelow, Touch, OnlyAt;
  }

  /** A changed limit: a new version in the old one's place. */
  lemma UpsertChanged(s: State, q: Quota, now: string, i: nat)
    requires Good(s) && IsCurrentOf(s.rows, q.key, i) && ColumnsOf(s.rows[i].body.limit) != ColumnsOf(q.limit)
    ensures var t, id := UpsertOne(s, q, now).rows, s.next;
      && id !in s.rows && t.Keys == s.rows.Keys + {id} && OnlyAt(s.rows, t, i, id)
      && t[i] == s.rows[i].(next := Some(id))
      && SameChain(t[id], s.rows[i]) && t[id].prev == Some(i) && t[id].next == None
      && t[id].body.limit == q.limit && t[id].body.subAccountType == q.subAccountType && Refreshes(t[id].body, q, now)
  {
    GoodFacts(s);
    CurrentIsUnique(s.rows, q.key, i);
    SameLimitExact(s.rows[i].body.limit, q.limit);
    SplitExact(s.rows, i, s.next, NewBody(q, now));
    hide SameLimit, ColumnsOf, Good, Inv, Distinct, OneCurrent, BackLinks, HasCurrent, IdsBelow, Split, OnlyAt;
  }

  /** The current row of the quota's key says what the quota says. */
  ghost predicate Stored(rows: Rows, q: Quota, now: string) {
    exists i :: IsCurrentOf(rows, q.key, i) && ColumnsOf(rows[i].body.limit) == ColumnsOf(q.limit) && Refreshes(rows[i].body, q, now)
  }

  /** The quota's key has a current row with these very columns. */
  ghost predicate Holds(rows: Rows, q: Quota) {
    exists i :: IsCurrentOf(rows, q.key, i) && ColumnsOf(rows[i].body.limit) == ColumnsOf(q.limit)
  }

  lemma UpsertStores(s: State, q: Quota, now: string)
    requires Good(s)
    ensures Stored(UpsertOne(s, q, now).rows, q, now)
    ensures |UpsertOne(s, q, now).rows| == |s.rows| + if Holds(s.rows, q) then 0 else 1
  {
    OneRowMore(s, q, now);
    var t := UpsertOne(s, q, now).rows;
    GoodFacts(s);
    hide Good, UpsertOne, ColumnsOf, SameLimit, Refreshes, Inv, Distinct, OneCurrent, BackLinks;
    if HasCurrent(s.rows, q.key) {
      var i := CurrentOf(s.rows, q.key);
      SameLimitExact(s.rows[i].body.limit, q.limit);
      OnlyHolder(s.rows, q, i);
      if ColumnsOf(s.rows[i].body.limit) == ColumnsOf(q.limit) {
        UpsertSame(s, q, now, i);
        assert IsCurrentOf(t, q.key, i);
      } else {
        UpsertChanged(s, q, now, i);
        assert IsCurrentOf(t, q.key, s.next);
      }
    } else {
      UpsertNew(s, q, now);
      assert IsCurrentOf(t, q.key, s.next);
    }
  }

  lemma OnlyHolder(rows: Rows, q: Quota, i: nat)
    requires OneCurrent(rows) && IsCurrentOf(rows, q.key, i)
    ensures Holds(rows, q) <==> ColumnsOf(rows[i].body.limit) == ColumnsOf(q.limit)
  {
    hide ColumnsOf;
  }

  /** Upserting another key touches neither what is stored nor what is held of this one. */
  lemma OthersStay(s: State, q: Quota, now: string, p: Quota, at: string)
    requires Good(s) && p.key != q.key
    ensures Stored(s.rows, p, at) ==> Stored(UpsertOne(s, q, now).rows, p, at)
    ensures Holds(UpsertOne(s, q, now).rows, p) <==> Holds(s.rows, p)
  {
    var t := UpsertOne(s, q, now).rows;
    forall i: nat
      ensures i in s.rows && s.rows[i].key != q.key ==> i in t && t[i] == s.rows[i]
      ensures i in t && t[i].key != q.key ==> i in s.rows && t[i] == s.rows[i]
    {
      OtherRows(s, q, now, i);
    }
    hide UpsertOne, ColumnsOf, Refreshes, Good;
    if Stored(s.rows, p, at) {
      var i :| IsCurrentOf(s.rows, p.key, i) && ColumnsOf(s.rows[i].body.limit) == ColumnsOf(p.limit) && Refreshes(s.rows[i].body, p, at);
      assert IsCurrentOf(t, p.key, i);
    }
    if Holds(s.rows, p) {
      var i :| IsCurrentOf(s.rows, p.key, i) && ColumnsOf(s.rows[i].body.limit) == ColumnsOf(p.limit);
      assert IsCurrentOf(t, p.key, i);
    }
    if Holds(t, p) {
      var i :| IsCurrentOf(t, p.key, i) && ColumnsOf(t[i].body.limit) == ColumnsOf(p.limit);
      assert IsCurrentOf(s.rows, p.key, i);
    }
  }

  lemma OtherRows(s: State, q: Quota, now: string, i: nat)
    requires Good(s)
    ensures var t := UpsertOne(s, q, now).rows;
      && (i in s.rows && s.rows[i].key != q.key ==> i in t && t[i] == s.rows[i])
      && (i in t && t[i].key != q.key ==> i in s.rows && t[i] == s.rows[i])
  {
    GoodFacts(s);
    hide SameLimit, Good, Inv, Distinct, OneCurrent, BackLinks, UpsertOne, Refreshes, ColumnsOf;
    if HasCurrent(s.rows, q.key) {
      var c := CurrentOf(s.rows, q.key);
      if ColumnsOf(s.rows[c].body.limit) == ColumnsOf(q.limit) {
        UpsertSame(s, q, now, c);
      } else {
        UpsertChanged(s, q, now, c);
      }
    } else {
      UpsertNew(s, q, now);
    }
  }

  predicate LastOfItsKey(qs: seq<Quota>, j: nat)
    requires j < |qs|
  {
    forall m :: j < m < |qs| ==> qs[m].key != qs[j].key
  }

  /** After a batch the current row of every key carries the limit, in all compared
      columns, and the labels of the last quota with that key. */
  lemma {:induction false} BatchStored(s: State, qs: seq<Quota>, now: string, j: nat)
    requires Good(s) && j < |qs| && LastOfItsKey(qs, j)
    ensures Stored(UpsertAll(s, qs, now).rows, qs[j], now)
    decreases |qs|
  {
    var init, q := qs[..|qs|-1], qs[|qs|-1];
    var t := UpsertAll(s, init, now);
    UpsertAllKeeps(s, init, now);
    hide Good, Stored, UpsertOne, LimitsFrozen;
    if j == |qs| - 1 {
      UpsertStores(t, q, now);
    } else {
      assert LastOfItsKey(init, j);
      BatchStored(s, init, now, j);
      OthersStay(t, q, now, init[j], now);
    }
  }

  /** The positions whose quota the table did not hold. */
  ghost function News(rows: Rows, qs: seq<Quota>): set<int> {
    set j | 0 <= j < |qs| && !Holds(rows, qs[j])
  }

  lemma {:induction false} OthersHeld(s: State, qs: seq<Quota>, now: string, p: Quota)
    requires Good(s) && forall q :: q in qs ==> q.key != p.key
    ensures Holds(UpsertAll(s, qs, now).rows, p) <==> Holds(s.rows, p)
  {
    hide Good, Holds, UpsertOne, LimitsFrozen;
    if qs != [] {
      var init, q := qs[..|qs|-1], qs[|qs|-1];
      assert q in qs && forall r :: r in init ==> r in qs;
      OthersHeld(s, init, now, p);
      UpsertAllKeeps(s, init, now);
      OthersStay(UpsertAll(s, init, now), q, now, p, now);
    }
  }

  lemma NewsSnoc(rows: Rows, qs: seq<Quota>)
    requires qs != []
    ensures var n := |qs| - 1; News(rows, qs) == News(rows, qs[..n]) + (if Holds(rows, qs[n]) then {} else {n}) && n !in News(rows, qs[..n])
  {
    hide Holds;
    var n := |qs| - 1;
    assert forall j :: 0 <= j < n ==> qs[..n][j] == qs[j];
  }

  predicate DistinctKeys(qs: seq<Quota>) {
    forall j, k :: 0 <= j < k < |qs| ==> qs[j].key != qs[k].key
  }

  /** A batch of distinct keys adds one row for every quota that is new or differs in a
      compared column from the current row of its key. */
  lemma {:induction false} BatchAdds(s: State, qs: seq<Quota>, now: string)
    requires Good(s) && DistinctKeys(qs)
    ensures |UpsertAll(s, qs, now).rows| == |s.rows| + |News(s.rows, qs)|
  {
    hide Good, Holds, UpsertOne, LimitsFrozen, Stored, News;
    if qs == [] {
      NoNews(s.rows);
    } else {
      var n := |qs| - 1;
      var init, q := qs[..n], qs[n];
      forall r | r in init ensures r.key != q.key {
        var j :| 0 <= j < |init| && init[j] == r;
        assert qs[j] == r;
      }
      assert DistinctKeys(init);
      hide DistinctKeys;
      BatchAdds(s, init, now);
      UpsertAllKeeps(s, init, now);
      UpsertStores(UpsertAll(s, init, now), q, now);
      OthersHeld(s, init, now, q);
      NewsSnoc(s.rows, qs);
    }
  }

  lemma NoNews(rows: Rows)
    ensures News(rows, []) == {}
  {
  }

  // ------------------------------------------------------- the store

  lemma OneRowMore(s: State, q: Quota, now: string)
    requires Good(s)
    ensures |UpsertOne(s, q, now).rows| ==
      |s.rows| + if HasCurrent(s.rows, q.key) && SameLimit(s.rows[CurrentOf(s.rows, q.key)].body.limit, q.limit) then 0 else 1
  {
    GoodFacts(s);
    hide Inv, Distinct, OneCurrent, BackLinks, SameLimit, HasCurrent, Touch, Split, VerifiedBody, NewBody, FirstRow;
    if HasCurrent(s.rows, q.key) {
      var i := CurrentOf(s.rows, q.key);
      CurrentFacts(s.rows, q.key, i);
      TouchSize(s.rows, i, s.rows[i].(body := VerifiedBody(s.rows[i].body, q, now)));
      SplitSize(s.rows, i, s.next, NewBody(q, now));
    } else {
      InsertSize(s.rows, s.next, FirstRow(q, now));
    }
  }

  lemma AllStored(s: State, qs: seq<Quota>, now: string)
    requires Good(s)
    ensures forall j :: 0 <= j < |qs| && LastOfItsKey(qs, j) ==> Stored(UpsertAll(s, qs, now).rows, qs[j], now)
  {
    hide Good, Stored, UpsertAll;
    forall j: nat | j < |qs| && LastOfItsKey(qs, j) ensures Stored(UpsertAll(s, qs, now).rows, qs[j], now) {
      BatchStored(s, qs, now, j);
    }
  }

  class QuotaStore {
    var rows: Rows
    var nextId: nat

    ghost function Now(): State
      reads this
    {
      State(rows, nextId)
    }

    method CurrentQuota(key: QuotaKey) returns (found: Option<nat>)
      ensures found.None? ==> !HasCurrent(rows, key)
      ensures found.Some? ==> IsCurrentOf(rows, key, found.value)
    {
      if i: nat :| i in rows && rows[i].Current() && rows[i].key == key {
        found := Some(i);
      } else {
        found := None;
      }
    }

    method InsertFirstQuota(q: Quota, now: string) returns (n: nat)
      requires Good(Now())
      modifies this
      ensures nextId == old(nextId) + 1
      ensures if HasCurrent(old(rows), q.key) then n == 0 && rows == old(rows)
              else n == 1 && rows == old(rows)[old(nextId) := FirstRow(q, now)]
    {
      var id := nextId;
      nextId := nextId + 1;
      var holder := CurrentQuota(q.key);
      n := 0;
      if holder.None? {
        rows := rows[id := FirstRow(q, now)];
        n := 1;
      }
    }

    /** The predecessor is superseded before the successor is inserted, so the index
        holds at both statements. */
    method SplitQuota(q: Quota, i: nat, now: string)
      requires Good(Now()) && i in rows && rows[i].Current() && rows[i].key == q.key
      modifies this
      ensures nextId == old(nextId) + 1 && rows == Split(old(rows), i, old(nextId), NewBody(q, now))
    {
      SplitOrder(rows, i, nextId, NewBody(q, now));
      var id, existing := nextId, rows[i];
      nextId := nextId + 1;
      rows := Supersede(rows, i, id);
      assert OneCurrent(rows) && !Conflicts(rows, Successor(existing, i, NewBody(q, now)));
      rows := rows[id := Successor(existing, i, NewBody(q, now))];
      assert OneCurrent(rows);
    }

    /** upsertQuotasOn: the table becomes what the batch makes of it; the result counts
        the rows added, first discoveries and splits together. */
    method UpsertQuotasOn(qs: seq<Quota>, now: string) returns (inserted: nat)
      requires Good(Now())
      modifies this
      ensures Good(Now()) && Now() == UpsertAll(old(Now()), qs, now)
      ensures |rows| == |old(rows)| + inserted
      ensures LimitsFrozen(old(rows), rows)
      ensures forall j :: 0 <= j < |qs| && LastOfItsKey(qs, j) ==> Stored(rows, qs[j], now)
    {
      AllStored(Now(), qs, now);
      hide Stored, Good, Distinct, SameLimit, LimitsFrozen, UpsertOne, Split, Touch, HasCurrent;
      inserted := 0;
      var k := 0;
      ghost var s := Now();
      UpsertAllKeeps(s, qs, now);
      while k < |qs|
        invariant 0 <= k <= |qs|
        invariant Good(Now()) && Now() == UpsertAll(s, qs[..k], now)
        invariant |rows| == |s.rows| + inserted
      {
        ghost var t := Now();
        assert qs[..k+1][..k] == qs[..k];
        UpsertOneKeeps(t, qs[k], now);
        OneRowMore(t, qs[k], now);
        var n := UpsertQuota(qs[k], now);
        inserted, k := inserted + n, k + 1;
      }
      assert qs[..|qs|] == qs;
    }

    /** The loop body. */
    method UpsertQuota(q: Quota, now: string) returns (n: nat)
      requires Good(Now())
      modifies this
      ensures Now() == UpsertOne(old(Now()), q, now)
      ensures n == if HasCurrent(old(rows), q.key) &&
        SameLimit(old(rows)[CurrentOf(old(rows), q.key)].body.limit, q.limit) then 0 else 1
      ensures Stored(rows, q, now) && n == if Holds(old(rows), q) then 0 else 1
    {
      UpsertStores(Now(), q, now);
      OneRowMore(Now(), q, now);
      hide Stored, Holds, SameLimit, Distinct, Split, Touch;
      GoodFacts(Now());
      var existing := CurrentQuota(q.key);
      if existing.None? {
        n := InsertFirstQuota(q, now);
      } else {
        var i := existing.value;
        CurrentIsUnique(rows, q.key, i);
        if SameLimit(rows[i].body.limit, q.limit) {
          rows := Touch(rows, i, VerifiedBody(rows[i].body, q, now));
          n := 0;
        } else {
          SplitQuota(q, i, now);
          n := 1;
        }
      }
    }
  }
}
