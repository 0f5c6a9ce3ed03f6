/** The resource writers of the store: statements against one table inside
    transactions that commit or roll back, behind the write retry. */
module ResourceStore {
  import opened Wrappers
  import opened Chains
  import opened JsonText
  import opened Resources
  import opened ResourceLaws
  import opened ResourceColumns
  import Rescan
  import opened ResourceRetry
  import opened Retry

  datatype Counts = Counts(inserted: nat, newC: nat, changedC: nat)

  datatype ArchiveResult = Archived | NothingLive | ArchiveFailed(error: DbError)

  datatype RestoreResult = Lifted | NothingArchived | RestoreFailed(error: DbError)

  /** The counts of an attempt: new are the natural keys it brought in, changed the
      other rows it added. */
  ghost predicate CountsMatch(n: Counts, before: Rows, after: Rows) {
    && n.inserted == n.newC + n.changedC
    && |after| == |before| + n.inserted
    && |Keys(after)| == |Keys(before)| + n.newC
  }

  lemma CountUpserted(c: Codec, t: State, r: Resource, now: string, n: Counts, before: Rows, m: Counts)
    requires c.Valid() && Good(t) && CountsMatch(n, before, t.rows)
    requires m == if !HasCurrent(t.rows, r.key) then Counts(n.inserted + 1, n.newC + 1, n.changedC)
                  else if Unchanged(c, t.rows[CurrentOf(t.rows, r.key)].body, r) then n
                  else Counts(n.inserted + 1, n.newC, n.changedC + 1)
    ensures CountsMatch(m, before, UpsertRow(c, t, r, now).rows)
  {
    hide Codec.Valid, Good, UpsertRow, Keys, Unchanged, HasCurrent;
    UpsertRowAdds(c, t, r, now);
    AddKeySize(Keys(t.rows), r.key);
  }

  lemma CountPlaced(t: State, r: Resource, now: string, n: Counts, before: Rows, m: Counts)
    requires Good(t) && CountsMatch(n, before, t.rows)
    requires m == if HasCurrent(t.rows, r.key) then n else Counts(n.inserted + 1, n.newC + 1, n.changedC)
    ensures CountsMatch(m, before, PlaceRow(t, r, now).rows)
  {
    KeyHasCurrent(t, r.key);
    hide Good, PlaceRow, Keys, HasCurrent;
    PlaceRowAdds(t, r, now);
    AddKeySize(Keys(t.rows), r.key);
  }

  lemma AddKeySize<K>(s: set<K>, k: K)
    ensures |s + {k}| == |s| + if k in s then 0 else 1
    ensures k in s ==> s + {k} == s
  {
    if k in s {
      assert s + {k} == s;
    }
  }

  lemma CountsStart(before: Rows)
    ensures CountsMatch(Counts(0, 0, 0), before, before)
  {
  }

  lemma GoodFacts(s: State)
    requires Good(s)
    ensures OneCurrent(s.rows) && IdsBelow(s.rows, s.next) && s.next !in s.rows
  {
  }

  class ResourceStore {
    const policy: Policy
    const counting: bool   // whether the shared counters are bound
    var rows: Rows
    var nextId: nat
    var streak: Streak
    var upsertNew: nat
    var upsertChanged: nat

    ghost var history: seq<Op>
    ghost var added: nat        // rows published by upserts and placeholders
    ghost var hidden: nat       // rows added by attempts whose commit was hidden
    ghost var tombstones: nat   // rows added by archiving

    ghost function Now(): State
      reads this
    {
      State(rows, nextId)
    }

    /** The table is the outcome of a run of committed operations, and the shared
        counters account for every row except tombstones and rows added behind an error. */
    ghost predicate Valid()
      reads this
    {
      && policy.codec.Valid()
      && LegalRun(policy.codec, EMPTY, history) && Run(policy.codec, EMPTY, history) == Now()
      && |rows| == added + hidden + tombstones
      && (counting ==> upsertNew + upsertChanged == added)
    }

    constructor (policy: Policy, counting: bool, hasCircuit: bool)
      requires policy.codec.Valid()
      ensures Valid() && rows == map[] && this.policy == policy && this.counting == counting
      ensures streak == if hasCircuit then Some(0) else None
    {
      this.policy, this.counting := policy, counting;
      rows, nextId, upsertNew, upsertChanged := map[], 0, 0, 0;
      streak := if hasCircuit then Some(0) else None;
      history, added, hidden, tombstones := [], 0, 0, 0;
    }

    lemma ValidIsGood()
      requires Valid()
      ensures Good(Now())
    {
      EmptyIsGood();
      RunKeeps(policy.codec, EMPTY, history);
    }

    // ------------------------------------------------------- statements

    /** SELECT of the current row of a natural key. */
    method Lookup(key: NaturalKey) returns (found: Option<nat>)
      ensures found.None? ==> !HasCurrent(rows, key)
      ensures found.Some? ==> IsCurrentOf(rows, key, found.value)
    {
      if i: nat :| i in rows && rows[i].Current() && rows[i].key == key {
        found := Some(i);
      } else {
        found := None;
      }
    }

    method NewRowId() returns (id: nat)
      modifies `nextId
      ensures id == old(nextId) && nextId == id + 1
    {
      id := nextId;
      nextId := nextId + 1;
    }

    /** INSERT ... ON CONFLICT DO NOTHING. */
    method InsertOrSkip(id: nat, row: Row) returns (affected: nat)
      requires OneCurrent(rows) && id !in rows && row.Current()
      modifies `rows
      ensures OneCurrent(rows)
      ensures affected == if HasCurrent(old(rows), row.key) then 0 else 1
      ensures rows == if affected == 0 then old(rows) else old(rows)[id := row]
    {
      var holder := Lookup(row.key);
      if holder.Some? {
        affected := 0;
      } else {
        affected := 1;
        assert forall i :: i in rows && rows[i].Current() && rows[i].key == row.key ==> IsCurrentOf(rows, row.key, i);
        rows := rows[id := row];
      }
    }

    /** INSERT without a conflict clause: refused when the index is violated. */
    method InsertStrictly(id: nat, row: Row) returns (violated: bool)
      requires OneCurrent(rows) && id !in rows && row.Current()
      modifies `rows
      ensures OneCurrent(rows)
      ensures violated <==> Conflicts(old(rows), row)
      ensures rows == if violated then old(rows) else old(rows)[id := row]
    {
      var holder := Lookup(row.key);
      violated := holder.Some?;
      if violated {
        assert IsCurrentOf(rows, row.key, holder.value);
      } else {
        assert forall i :: i in rows && rows[i].Current() && rows[i].key == row.key ==> IsCurrentOf(rows, row.key, i);
        rows := rows[id := row];
      }
    }

    /** UPDATE ... SET superseded_by. */
    method MarkSuperseded(i: nat, id: nat)
      requires OneCurrent(rows) && i in rows
      modifies `rows
      ensures OneCurrent(rows) && rows == Supersede(old(rows), i, id)
    {
      rows := Supersede(rows, i, id);
    }

    /** UPDATE of one row's columns outside the chain. */
    method UpdateBody(i: nat, body: Body)
      requires OneCurrent(rows) && i in rows
      modifies `rows
      ensures OneCurrent(rows) && rows == Touch(old(rows), i, body)
    {
      rows := Touch(rows, i, body);
    }

    /** Both halves of a split; the second never runs into the index. */
    method SplitRow(i: nat, body: Body, fault: Fault, calls: nat) returns (err: Option<DbError>)
      requires Good(Now()) && i in rows && rows[i].Current()
      modifies `rows, `nextId
      ensures nextId == old(nextId) + 1
      ensures err.None? ==> rows == Split(old(rows), i, old(nextId), body)
      ensures err == fault.Met(calls, calls + 2)
    {
      var before := rows[i];
      assert nextId !in rows;
      SplitOrder(rows, i, nextId, body);
      var id := NewRowId();
      if fault.Trips(calls) {
        return Some(fault.error);
      }
      MarkSuperseded(i, id);
      if fault.Trips(calls + 1) {
        return Some(fault.error);
      }
      var violated := InsertStrictly(id, Successor(before, i, body));
      assert !violated;
      err := None;
    }

    // ------------------------------------------------- one row of a batch

    /** One iteration of upsertResourcesTx. */
    method UpsertOne(r: Resource, now: string, fault: Fault, calls: nat, n: Counts, ghost before: Rows)
      returns (err: Option<DbError>, calls': nat, n': Counts)
      requires policy.codec.Valid() && Good(Now()) && CountsMatch(n, before, rows)
      modifies `rows, `nextId
      ensures nextId >= old(nextId)
      ensures var made := UpsertCalls(policy.codec, old(Now()), r);
        err == fault.Met(calls, calls + made) && (err.None? ==> calls' == calls + made)
      ensures err.None? ==> Now() == UpsertRow(policy.codec, old(Now()), r, now) && CountsMatch(n', before, rows)
    {
      hide Inv, CountsMatch, Keys, Codec.Valid, Unchanged;
      ghost var s := Now();
      calls', n', err := calls, n, None;
      if fault.Trips(calls) {
        return Some(fault.error), calls, n;
      }
      var current := Lookup(r.key);
      calls' := calls + 1;
      if current.None? {
        if fault.Trips(calls') {
          return Some(fault.error), calls', n;
        }
        GoodFacts(s);
        var id := NewRowId();
        var affected := InsertOrSkip(id, FirstRow(r, now, false));
        calls' := calls' + 1;
        if affected > 0 {
          n' := Counts(n.inserted + 1, n.newC + 1, n.changedC);
        }
      } else {
        var i := current.value;
        GoodFacts(s);
        CurrentIsUnique(rows, r.key, i);
        if Unchanged(policy.codec, rows[i].body, r) {
          if fault.Trips(calls') {
            return Some(fault.error), calls', n;
          }
          UpdateBody(i, VerifiedBody(rows[i].body, r, now));
          calls' := calls' + 1;
        } else {
          err := SplitRow(i, NewBody(r, now, false), fault, calls');
          if err.Some? {
            return;
          }
          calls' := calls' + 2;
          n' := Counts(n.inserted + 1, n.newC, n.changedC + 1);
        }
      }
      CountUpserted(policy.codec, s, r, now, n, before, n');
    }

    /** One iteration of insertResourcesIfAbsentTx. */
    method PlaceOne(r: Resource, now: string, fault: Fault, calls: nat, n: Counts, ghost before: Rows)
      returns (err: Option<DbError>, calls': nat, n': Counts)
      requires Good(Now()) && CountsMatch(n, before, rows)
      modifies `rows, `nextId
      ensures nextId >= old(nextId)
      ensures err == fault.Met(calls, calls + 1) && (err.None? ==> calls' == calls + 1)
      ensures err.None? ==> Now() == PlaceRow(old(Now()), r, now) && CountsMatch(n', before, rows)
      ensures err.None? ==> n'.changedC == n.changedC
    {
      hide Inv, CountsMatch, Keys;
      ghost var s := Now();
      calls', n', err := calls, n, None;
      GoodFacts(s);
      var id := NewRowId();
      if fault.Trips(calls) {
        return Some(fault.error), calls, n;
      }
      var affected := InsertOrSkip(id, FirstRow(r, now, true));
      calls' := calls + 1;
      if affected > 0 {
        n' := Counts(n.inserted + 1, n.newC + 1, n.changedC);
      }
      CountPlaced(s, r, now, n, before, n');
    }

    // ------------------------------------------------------- transactions

    /** One transactional attempt: snapshot, then commit or roll back. */
    method RunTx(op: Batch, fault: Fault) returns (err: Option<DbError>, n: Counts, ghost t: Try)
      requires policy.codec.Valid() && Good(Now())
      modifies `rows, `nextId
      ensures t == Try(old(Now()), fault, Now(), if err.None? then Committed else Failed(err.value))
      ensures Attempted(policy.codec, op, t)
      ensures err.None? ==> CountsMatch(n, old(rows), rows)
      ensures err.None? && op.InsertIfAbsent? ==> n.changedC == 0
    {
      hide Good, CountsMatch, Codec.Valid, Partly, UpsertRow, PlaceRow, Step, UpsertCalls, CallsBefore, Attempted, Extends;
      n, err := Counts(0, 0, 0), None;
      ghost var s := Now();
      FirstCall(policy.codec, s, op);
      if fault.Trips(0) {
        RolledBack(policy.codec, op, s, fault, nextId);
        return Some(fault.error), n, Try(s, fault, s, Failed(fault.error));
      }
      var snapshot := rows;
      var calls, k := 1, 0;
      CountsStart(rows);
      while k < |op.rs|
        invariant 0 <= k <= |op.rs| && nextId >= old(nextId)
        invariant Good(Now()) && Now() == Partly(policy.codec, s, op, k)
        invariant calls == CallsBefore(policy.codec, s, op, k) && (fault.FaultAt? ==> calls <= fault.call)
        invariant CountsMatch(n, snapshot, rows) && err.None?
        invariant op.InsertIfAbsent? ==> n.changedC == 0
      {
        OneMoreRow(policy.codec, s, op, k);
        if op.Upsert? {
          err, calls, n := UpsertOne(op.rs[k], op.now, fault, calls, n, snapshot);
        } else {
          err, calls, n := PlaceOne(op.rs[k], op.now, fault, calls, n, snapshot);
        }
        if err.Some? {
          RolledBack(policy.codec, op, s, fault, nextId);
          rows := snapshot;
          t := Try(s, fault, Now(), Failed(err.value));
          return;
        }
        k := k + 1;
      }
      AllRows(policy.codec, s, op);
      if !fault.Trips(calls) {
        Commits(policy.codec, op, s, fault);
      } else {
        CommitFails(policy.codec, op, s, fault, nextId);
        if !fault.applied {
          rows := snapshot;
        }
        err := Some(fault.error);
      }
      t := Try(s, fault, Now(), if err.None? then Committed else Failed(err.value));
    }

    /** withWriteRetry around one of the two transactions. Ids drawn by attempts that
        were rolled back stay drawn. */
    method WithWriteRetry(op: Batch, faults: nat -> Fault) returns (result: Option<Counts>, ghost tries: seq<Try>)
      requires policy.codec.Valid() && Good(Now())
      modifies `rows, `nextId, `streak
      ensures Called(policy.codec, op, faults, old(Now()), old(streak), tries) && EndOf(old(Now()), tries) == Now()
      ensures tries != [] && streak == StreakAfter(old(streak), tries[|tries|-1].outcome)
      ensures result.Some? <==> Succeeded(tries)
      ensures result.Some? ==> CountsMatch(result.value, tries[|tries|-1].before.rows, rows)
      ensures result.Some? && op.InsertIfAbsent? ==> result.value.changedC == 0
    {
      hide Good, CountsMatch, Codec.Valid, Attempted, Retryable, Called, Trying, Chain, Under, EndOf;
      ghost var s := Now();
      var attempts := AttemptLimit(false, streak);
      tries, result := [], None;
      NoTries(policy.codec, op, faults, s);
      var i := 1;
      while true
        invariant 1 <= i <= attempts && i == |tries| + 1
        invariant Trying(policy.codec, op, faults, s, tries, Now())
        invariant streak == old(streak) && Good(Now())
        decreases attempts - i
      {
        var err, n, t := RunTx(op, faults(i));
        OneMoreTry(policy.codec, op, faults, s, tries, t);
        if !t.outcome.Transient() || i == attempts {
          TriesTrace(policy.codec, op, faults, s, streak, tries, t);
        }
        tries := tries + [t];
        if err.None? {
          if streak.Some? {
            streak := Some(0);
          }
          return Some(n), tries;
        }
        if !Retryable(err.value) {
          return;
        }
        if i == attempts {
          break;
        }
        i := i + 1;
      }
      if streak.Some? {
        streak := Some(streak.value + 1);
      }
    }

    /** A write call: the counts of the attempt that committed are published to the shared
        counters; rows added by attempts whose commit was hidden are not. */
    method Write(op: Batch, faults: nat -> Fault) returns (result: Option<Counts>, ghost tries: seq<Try>)
      requires Valid()
      modifies this
      ensures Valid() && tombstones == old(tombstones)
      ensures Called(policy.codec, op, faults, old(Now()), old(streak), tries) && EndOf(old(Now()), tries) == Now()
      ensures tries != [] && streak == StreakAfter(old(streak), tries[|tries|-1].outcome)
      ensures history == old(history) + OpsOf(policy.codec, op, tries)
      ensures result.Some? <==> Succeeded(tries)
      ensures Published(tries) == if result.Some? then result.value.inserted else 0
      ensures added == old(added) + Published(tries) && hidden == old(hidden) + HiddenRows(tries)
      ensures result.None? ==> upsertNew == old(upsertNew) && upsertChanged == old(upsertChanged)
      ensures result.Some? ==> CountsMatch(result.value, tries[|tries|-1].before.rows, rows)
      ensures result.Some? && counting ==> upsertNew == old(upsertNew) + result.value.newC
      ensures result.Some? && counting ==> upsertChanged == old(upsertChanged) + result.value.changedC
    {
      hide Good, Codec.Valid, Run, LegalRun, Called, Keys, HiddenRows, OpsOf, Retryable, Quiet, NoneHidden;
      ValidIsGood();
      ghost var s := Now();
      result, tries := WithWriteRetry(op, faults);
      CallCounts(policy.codec, op, faults, s, old(streak), tries);
      CallRuns(policy.codec, op, faults, old(streak), history, tries);
      history := history + OpsOf(policy.codec, op, tries);
      hidden := hidden + HiddenRows(tries);
      if result.None? {
        return;
      }
      added := added + result.value.inserted;
      if counting {
        upsertNew := upsertNew + result.value.newC;
        upsertChanged := upsertChanged + result.value.changedC;
      }
    }

    /** The shared counters agree with the table, tombstones apart, if and only if no row
        was ever added behind an error. */
    lemma CountersAgree()
      requires Valid() && counting
      ensures upsertNew + upsertChanged == |rows| - tombstones <==> hidden == 0
    {
    }

    // ------------------------------------------------------ the public calls

    /** The current row of every key carries what the last resource with that key says,
        once prepared. */
    ghost predicate AllStored(resources: seq<Resource>, now: string, table: Rows)
      requires policy.codec.Valid()
    {
      forall j :: 0 <= j < |resources| && Rescan.LastOfItsKey(resources, j) ==>
        Scanned(policy.codec, table, policy.Prepare(resources[j]), now)
    }

    lemma PreparedStored(resources: seq<Resource>, now: string, table: Rows)
      requires policy.codec.Valid() && AllScanned(policy.codec, table, Prepared(policy, resources), now)
      ensures AllStored(resources, now, table)
    {
      hide Codec.Valid, Scanned;
      var rs := Prepared(policy, resources);
      forall j: nat | j < |resources| && Rescan.LastOfItsKey(resources, j)
        ensures Scanned(policy.codec, table, policy.Prepare(resources[j]), now)
      {
        assert Rescan.LastOfItsKey(rs, j);
      }
    }

    lemma StoredByCall(op: Batch, resources: seq<Resource>, faults: nat -> Fault, before: State, streak: Streak, tries: seq<Try>)
      requires policy.codec.Valid() && Good(before) && Called(policy.codec, op, faults, before, streak, tries)
      requires op.Upsert? && op.rs == Prepared(policy, resources)
      ensures Succeeded(tries) ==> AllStored(resources, op.now, EndOf(before, tries).rows)
      ensures forall t :: t in tries && Holds(policy.codec, op, t) ==> AllStored(resources, op.now, t.after.rows)
    {
      CallScanned(policy.codec, op, before, tries);
      hide Codec.Valid, Good, Chain, Under, LegalTrace, Holds, AllScanned, AllStored, Prepared;
      if Succeeded(tries) {
        PreparedStored(resources, op.now, EndOf(before, tries).rows);
      }
      forall t | t in tries && Holds(policy.codec, op, t) ensures AllStored(resources, op.now, t.after.rows) {
        PreparedStored(resources, op.now, t.after.rows);
      }
    }

    /** UpsertResources: preprocess once, then write. */
    method UpsertResources(resources: seq<Resource>, now: string, faults: nat -> Fault)
      returns (inserted: nat, failed: bool, ghost tries: seq<Try>)
      requires Valid()
      modifies this
      ensures Valid() && tombstones == old(tombstones)
      ensures Reports(policy.codec, Upsert(Prepared(policy, resources), now), faults, old(Now()), old(streak), Now(), tries, inserted, failed)
      ensures history == old(history) + OpsOf(policy.codec, Upsert(Prepared(policy, resources), now), tries)
      ensures tries != [] && streak == StreakAfter(old(streak), tries[|tries|-1].outcome)
      ensures |rows| == |old(rows)| + inserted + HiddenRows(tries) && hidden == old(hidden) + HiddenRows(tries)
      ensures counting ==> upsertNew + upsertChanged == old(upsertNew + upsertChanged) + inserted
      ensures !failed ==> AllStored(resources, now, rows)
      ensures forall t :: t in tries && Holds(policy.codec, Upsert(Prepared(policy, resources), now), t) ==>
        AllStored(resources, now, t.after.rows)
    {
      hide AllScanned, AllStored, Holds, Good, Codec.Valid, Run, LegalRun, Called, Reports, Published, HiddenRows, OpsOf, Keys;
      ValidIsGood();
      var rs := PrepareAll(policy, resources);
      var op := Upsert(rs, now);
      var result: Option<Counts>;
      result, tries := Write(op, faults);
      CallReports(policy.codec, op, faults, old(Now()), old(streak), tries);
      StoredByCall(op, resources, faults, old(Now()), old(streak), tries);
      inserted, failed := if result.None? then 0 else result.value.inserted, result.None?;
    }

    /** InsertResourcesIfAbsent: the same around the placeholder transaction. */
    method InsertResourcesIfAbsent(resources: seq<Resource>, now: string, faults: nat -> Fault)
      returns (inserted: nat, failed: bool, ghost tries: seq<Try>)
      requires Valid()
      modifies this
      ensures Valid() && tombstones == old(tombstones)
      ensures Reports(policy.codec, InsertIfAbsent(Prepared(policy, resources), now), faults, old(Now()), old(streak), Now(), tries, inserted, failed)
      ensures history == old(history) + OpsOf(policy.codec, InsertIfAbsent(Prepared(policy, resources), now), tries)
      ensures tries != [] && streak == StreakAfter(old(streak), tries[|tries|-1].outcome)
      ensures |rows| == |old(rows)| + inserted + HiddenRows(tries) && hidden == old(hidden) + HiddenRows(tries)
      ensures counting ==> upsertNew + upsertChanged == old(upsertNew + upsertChanged) + inserted
    {
      hide Good, Codec.Valid, Run, LegalRun, Called, Reports, Published, HiddenRows, OpsOf, Keys;
      ValidIsGood();
      var rs := PrepareAll(policy, resources);
      var op := InsertIfAbsent(rs, now);
      var result: Option<Counts>;
      result, tries := Write(op, faults);
      CallReports(policy.codec, op, faults, old(Now()), old(streak), tries);
      inserted, failed := if result.None? then 0 else result.value.inserted, result.None?;
    }

    // ------------------------------------------------ archive and restore

    /** SELECT of the live current row of a root. */
    method LookupLive(root: RootId) returns (found: Option<nat>)
      ensures found.None? ==> !HasLive(rows, root)
      ensures found.Some? ==> LiveUnder(rows, root, found.value)
    {
      if i: nat :| i in rows && rows[i].root == root && Live(rows[i]) {
        found := Some(i);
        assert LiveUnder(rows, root, i);
      } else {
        found := None;
      }
    }

    /** The split into a tombstone and COMMIT, calls 2 to 4 of an archive. */
    method Tombstone(i: nat, deletedBy: string, now: string, fault: Fault) returns (err: Option<DbError>)
      requires Valid() && i in rows && Live(rows[i])
      modifies `rows, `nextId, `history, `tombstones
      ensures Valid()
      ensures err == fault.Met(2, 5)
      ensures if err.None? || (fault.Trips(4) && fault.applied)
              then history == old(history) + [Archive(i, now, deletedBy)] else rows == old(rows)
    {
      hide Good, Codec.Valid, Step, Run, LegalRun, Keys, Split, TombstoneBody;
      ValidIsGood();
      ghost var s := Now();
      var snapshot := rows;
      err := SplitRow(i, TombstoneBody(rows[i].body, now, deletedBy), fault, 2);
      if err.None? && fault.Trips(4) {
        err := Some(fault.error);
      }
      if err.Some? && !(fault.Trips(4) && fault.applied) {
        rows := snapshot;
        DiscardRecorded(s, 1);
        history := history + [Discard(1)];
      } else {
        ArchiveRecorded(s, i, now, deletedBy);
        history, tombstones := history + [Archive(i, now, deletedBy)], tombstones + 1;
      }
    }

    /** ArchiveResource: a tombstone supersedes the live current row, if there is one.
        Its calls are BEGIN, the lookup, both halves of the split and COMMIT. */
    method ArchiveResource(root: RootId, deletedBy: string, now: string, fault: Fault) returns (result: ArchiveResult)
      requires Valid()
      modifies this
      ensures Valid() && added == old(added) && hidden == old(hidden)
      ensures upsertNew == old(upsertNew) && upsertChanged == old(upsertChanged) && streak == old(streak)
      ensures result.ArchiveFailed? <==> fault.Met(0, if HasLive(old(rows), root) then 5 else 2).Some?
      ensures result.ArchiveFailed? ==> result.error == fault.error
      ensures result.NothingLive? ==> !HasLive(old(rows), root)
      ensures if result.Archived? || (HasLive(old(rows), root) && fault.Trips(4) && fault.applied)
              then exists i :: LiveUnder(old(rows), root, i) && history == old(history) + [Archive(i, now, deletedBy)]
              else rows == old(rows)
    {
      hide Good, Codec.Valid, Run, LegalRun;
      if fault.Trips(0) || fault.Trips(1) {
        return ArchiveFailed(fault.error);
      }
      var current := LookupLive(root);
      if current.None? {
        return NothingLive;
      }
      assert LiveUnder(rows, root, current.value) && HasLive(rows, root);
      var err := Tombstone(current.value, deletedBy, now, fault);
      result := if err.Some? then ArchiveFailed(err.value) else Archived;
    }

    lemma DiscardRecorded(s: State, drawn: nat)
      requires policy.codec.Valid() && LegalRun(policy.codec, EMPTY, history)
      requires s == Run(policy.codec, EMPTY, history)
      ensures var h := history + [Discard(drawn)];
        LegalRun(policy.codec, EMPTY, h) && Run(policy.codec, EMPTY, h) == State(s.rows, s.next + drawn)
    {
      RunSnoc(policy.codec, EMPTY, history, Discard(drawn));
    }

    lemma ArchiveRecorded(s: State, i: nat, now: string, deletedBy: string)
      requires policy.codec.Valid() && LegalRun(policy.codec, EMPTY, history)
      requires s == Run(policy.codec, EMPTY, history) && Good(s) && i in s.rows && Live(s.rows[i])
      ensures var h, b := history + [Archive(i, now, deletedBy)], TombstoneBody(s.rows[i].body, now, deletedBy);
        && LegalRun(policy.codec, EMPTY, h)
        && Run(policy.codec, EMPTY, h) == State(Split(s.rows, i, s.next, b), s.next + 1)
        && |Split(s.rows, i, s.next, b)| == |s.rows| + 1
    {
      RunSnoc(policy.codec, EMPTY, history, Archive(i, now, deletedBy));
      KeysOfSplit(s.rows, i, s.next, TombstoneBody(s.rows[i].body, now, deletedBy));
    }

    /** UPDATE of the archived current rows of a root, and how many rows it matched. */
    method LiftRows(root: RootId) returns (lifted: bool)
      modifies `rows
      ensures rows == RestoreRows(old(rows), root)
      ensures lifted <==> HasArchived(old(rows), root)
      ensures !lifted ==> rows == old(rows)
    {
      lifted := exists i :: i in rows && rows[i].root == root && rows[i].Current() && rows[i].body.deletedAt.Some?;
      if lifted {
        var i :| i in rows && rows[i].root == root && rows[i].Current() && rows[i].body.deletedAt.Some?;
        assert IsArchived(rows, root, i);
      } else {
        assert forall i :: IsArchived(rows, root, i) ==> i in rows;
        assert rows == RestoreRows(rows, root);
      }
      rows := RestoreRows(rows, root);
    }

    /** RestoreResource: that one UPDATE, committed by itself. */
    method RestoreResource(root: RootId, fault: Fault) returns (result: RestoreResult)
      requires Valid()
      modifies `rows, `history
      ensures Valid()
      ensures result.RestoreFailed? <==> fault.Trips(0)
      ensures result.RestoreFailed? ==> result.error == fault.error
      ensures result.Lifted? ==> HasArchived(old(rows), root)
      ensures result.NothingArchived? ==> rows == old(rows) && !HasArchived(old(rows), root)
      ensures if fault.Trips(0) && !fault.applied then rows == old(rows) && history == old(history)
              else rows == RestoreRows(old(rows), root) && history == old(history) + [Restore(root)]
    {
      hide Good, Codec.Valid, Run, LegalRun, Keys, RestoreRows, HasArchived;
      if fault.Trips(0) && !fault.applied {
        return RestoreFailed(fault.error);
      }
      RunSnoc(policy.codec, EMPTY, history, Restore(root));
      RestoreSize(rows, root);
      var lifted := LiftRows(root);
      history := history + [Restore(root)];
      result := if fault.Trips(0) then RestoreFailed(fault.error) else if lifted then Lifted else NothingArchived;
    }
  }

  ghost predicate HasLive(rows: Rows, root: RootId) {
    exists i :: LiveUnder(rows, root, i)
  }

  ghost predicate IsArchived(rows: Rows, root: RootId, i: nat) {
    i in rows && rows[i].root == root && rows[i].Current() && rows[i].body.deletedAt.Some?
  }

  ghost predicate HasArchived(rows: Rows, root: RootId) {
    exists i :: IsArchived(rows, root, i)
  }

  function Prepared(p: Policy, rs: seq<Resource>): seq<Resource> {
    seq(|rs|, i requires 0 <= i < |rs| => p.Prepare(rs[i]))
  }

  /** The preprocessing loop, which rewrites the batch in place. */
  method PrepareAll(p: Policy, rs: seq<Resource>) returns (out: seq<Resource>)
    ensures out == Prepared(p, rs)
  {
    out := rs;
    for i := 0 to |rs|
      invariant |out| == |rs|
      invariant forall j :: 0 <= j < |rs| ==> out[j] == if j < i then p.Prepare(rs[j]) else rs[j]
    {
      out := out[i := p.Prepare(out[i])];
    }
  }
}
