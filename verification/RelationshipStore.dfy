/** store/relationships.go and store/store.go: the store's relationship writes, direct or
    accumulated in a buffer, each retried on transient failures. */
module RelationshipStore {
  import opened Wrappers
  import opened Relationships
  import opened Retry

  /** The relationships table and the failure streak, shared by every copy of a store. */
  class EdgeTable {
    var rows: seq<Row>
    var streak: Streak

    constructor ()
      ensures rows == [] && streak == Some(0)
    {
      rows, streak := [], Some(0);
    }
  }

  /** The shared edge counter a resolver phase reports. */
  class EdgeCounter {
    var count: nat

    constructor ()
      ensures count == 0
    {
      count := 0;
    }
  }

  // ------------------------------------------------------------ one attempt

  /** A write: one edge by statements of its own, or a batch in one transaction. */
  datatype Work = Direct(edge: RelEdge) | Batch(edges: seq<RelEdge>)
  {
    function Edges(): seq<RelEdge> {
      if Direct? then [edge] else edges
    }
  }

  /** A database call that returns an error; applied says whether it took effect all the
      same. The calls of a direct write are UPDATE, the count of affected rows, INSERT;
      those of a batch its edges in turn, then COMMIT. */
  datatype Fault = NoFault | FaultAt(call: nat, error: DbError, applied: bool)

  predicate Fails(work: Work, rows: seq<Row>, fault: Fault) {
    fault.FaultAt? &&
    if work.Direct? then fault.call <= 1 || (fault.call == 2 && !HasKey(rows, work.edge.key))
    else fault.call <= |work.edges|
  }

  /** The call that makes a write permanent. */
  function Decisive(work: Work, rows: seq<Row>): nat {
    if work.Batch? then |work.edges| else if HasKey(rows, work.edge.key) then 0 else 2
  }

  /** An attempt writes if its decisive call takes effect. */
  predicate Writes(work: Work, rows: seq<Row>, fault: Fault) {
    !Fails(work, rows, fault) || fault.call > Decisive(work, rows)
      || (fault.call == Decisive(work, rows) && fault.applied)
  }

  function Written(rows: seq<Row>, work: Work, at: int): seq<Row> {
    UpsertAll(rows, Stamped(work.Edges(), at))
  }

  function AfterAttempt(rows: seq<Row>, work: Work, at: int, fault: Fault): seq<Row> {
    if Writes(work, rows, fault) then Written(rows, work, at) else rows
  }

  function OutcomeOf(rows: seq<Row>, work: Work, fault: Fault): Outcome {
    if Fails(work, rows, fault) then Failed(fault.error) else Committed
  }

  /** An error that may hide a write: the caller hears of a failure, the rows are there. */
  predicate Hides(work: Work, fault: Fault) {
    fault.FaultAt? && (fault.applied || (work.Direct? && fault.call == 1))
  }

  // ------------------------------------------------------------ all attempts

  /** What a write leaves: the rows and the outcomes of its attempts. */
  datatype Ended = Ended(rows: seq<Row>, outcomes: seq<Outcome>)
  {
    predicate Ok() { outcomes != [] && outcomes[|outcomes|-1].Committed? }
  }

  function Tries(rows: seq<Row>, work: Work, clock: nat -> int, faults: nat -> Fault, i: nat, limit: nat): (d: Ended)
    requires i <= limit
    ensures d.outcomes != []
    decreases limit - i
  {
    var now := AfterAttempt(rows, work, clock(i), faults(i));
    var outcome := OutcomeOf(rows, work, faults(i));
    if !outcome.Transient() || i == limit then Ended(now, [outcome])
    else
      var d := Tries(now, work, clock, faults, i + 1, limit);
      Ended(d.rows, [outcome] + d.outcomes)
  }

  lemma TriesOnce(rows: seq<Row>, work: Work, clock: nat -> int, faults: nat -> Fault, i: nat, limit: nat)
    requires i <= limit
    ensures var (d, now, outcome) := (Tries(rows, work, clock, faults, i, limit),
        AfterAttempt(rows, work, clock(i), faults(i)), OutcomeOf(rows, work, faults(i)));
      if !outcome.Transient() || i == limit then d == Ended(now, [outcome])
      else
        var rest := Tries(now, work, clock, faults, i + 1, limit);
        d == Ended(rest.rows, [outcome] + rest.outcomes)
  {
  }

  lemma {:induction false} TriesLegal(rows: seq<Row>, work: Work, clock: nat -> int, faults: nat -> Fault, i: nat, limit: nat)
    requires 1 <= i <= limit
    ensures LegalTrace(Tries(rows, work, clock, faults, i, limit).outcomes, limit - i + 1)
    decreases limit - i
  {
    hide AfterAttempt, OutcomeOf, Retryable;
    if OutcomeOf(rows, work, faults(i)).Transient() && i < limit {
      TriesLegal(AfterAttempt(rows, work, clock(i), faults(i)), work, clock, faults, i + 1, limit);
    }
  }

  /** Attempt j wrote, and what the others wrote is not to be seen. */
  ghost predicate Stands(rows: seq<Row>, d: Ended, work: Work, clock: nat -> int, faults: nat -> Fault, j: nat) {
    d.rows == Written(rows, work, clock(j)) && Hides(work, faults(j))
  }

  /** One write or none: the last attempt's after success; after failure none, or that of
      an attempt whose error hid it. */
  ghost predicate OneWrite(rows: seq<Row>, d: Ended, work: Work, clock: nat -> int, faults: nat -> Fault, i: nat) {
    && (d.Ok() ==> d.rows == Written(rows, work, clock(i + |d.outcomes| - 1)))
    && (!d.Ok() && d.rows != rows ==>
        exists j :: i <= j < i + |d.outcomes| && Stands(rows, d, work, clock, faults, j))
  }

  lemma LastAttempt(rows: seq<Row>, work: Work, clock: nat -> int, faults: nat -> Fault, i: nat)
    requires OnePerKey(rows)
    ensures var d := Ended(AfterAttempt(rows, work, clock(i), faults(i)), [OutcomeOf(rows, work, faults(i))]);
      OnePerKey(d.rows) && OneWrite(rows, d, work, clock, faults, i)
  {
    hide OnePerKey, AfterAttempt, OutcomeOf, Written;
    AttemptLeaves(rows, work, clock(i), faults(i));
    var d := Ended(AfterAttempt(rows, work, clock(i), faults(i)), [OutcomeOf(rows, work, faults(i))]);
    if !d.Ok() && d.rows != rows {
      assert Stands(rows, d, work, clock, faults, i);
    }
  }

  lemma EarlierAttempt(rows: seq<Row>, rest: Ended, work: Work, clock: nat -> int, faults: nat -> Fault, i: nat)
    requires OnePerKey(rows) && OutcomeOf(rows, work, faults(i)).Failed? && rest.outcomes != []
    requires OneWrite(AfterAttempt(rows, work, clock(i), faults(i)), rest, work, clock, faults, i + 1)
    ensures OneWrite(rows, Ended(rest.rows, [OutcomeOf(rows, work, faults(i))] + rest.outcomes), work, clock, faults, i)
  {
    hide OnePerKey, AfterAttempt, OutcomeOf, Written, Hides;
    AttemptLeaves(rows, work, clock(i), faults(i));
    var now := AfterAttempt(rows, work, clock(i), faults(i));
    var d := Ended(rest.rows, [OutcomeOf(rows, work, faults(i))] + rest.outcomes);
    if !d.Ok() && d.rows != rows {
      if rest.rows == now {
        assert Stands(rows, d, work, clock, faults, i);
      } else {
        var j :| i + 1 <= j < i + 1 + |rest.outcomes| && Stands(now, rest, work, clock, faults, j);
        assert Stands(rows, d, work, clock, faults, j);
      }
    }
  }

  /** Whatever the database refuses, and whatever took effect behind an error, a write
      leaves the rows of one write or of none. */
  lemma {:induction false} RetriesWriteOnce(rows: seq<Row>, work: Work, clock: nat -> int, faults: nat -> Fault, i: nat, limit: nat)
    requires OnePerKey(rows) && i <= limit
    ensures OnePerKey(Tries(rows, work, clock, faults, i, limit).rows)
    ensures OneWrite(rows, Tries(rows, work, clock, faults, i, limit), work, clock, faults, i)
    decreases limit - i
  {
    hide OnePerKey, AfterAttempt, OutcomeOf, Retryable, OneWrite, Tries;
    TriesOnce(rows, work, clock, faults, i, limit);
    LastAttempt(rows, work, clock, faults, i);
    if OutcomeOf(rows, work, faults(i)).Transient() && i < limit {
      var now := AfterAttempt(rows, work, clock(i), faults(i));
      RetriesWriteOnce(now, work, clock, faults, i + 1, limit);
      EarlierAttempt(rows, Tries(now, work, clock, faults, i + 1, limit), work, clock, faults, i);
    }
  }

  lemma WrittenKeeps(rows: seq<Row>, work: Work, at: int)
    requires OnePerKey(rows)
    ensures OnePerKey(Written(rows, work, at))
  {
    RunExact(rows, Stamped(work.Edges(), at), Key("", "", ""));
  }

  lemma WrittenAgain(rows: seq<Row>, work: Work, a: int, b: int)
    requires OnePerKey(rows)
    ensures Written(Written(rows, work, a), work, b) == Written(rows, work, b)
  {
    WrittenTwiceIsOnce(rows, work.Edges(), a, b);
  }

  lemma AttemptLeaves(rows: seq<Row>, work: Work, at: int, fault: Fault)
    requires OnePerKey(rows)
    ensures var now := AfterAttempt(rows, work, at, fault);
      && OnePerKey(now)
      && (now != rows ==> now == Written(rows, work, at))
      && (OutcomeOf(rows, work, fault).Committed? ==> now == Written(rows, work, at))
      && (now != rows && OutcomeOf(rows, work, fault).Failed? ==> Hides(work, fault))
      && forall later :: Written(now, work, later) == Written(rows, work, later)
  {
    hide OnePerKey, Written;
    WrittenKeeps(rows, work, at);
    forall later ensures Written(AfterAttempt(rows, work, at, fault), work, later) == Written(rows, work, later) {
      WrittenAgain(rows, work, at, later);
    }
  }

  /** Without errors that hide a write, a failed write leaves the rows untouched. */
  lemma PlainFailureWritesNothing(rows: seq<Row>, d: Ended, work: Work, clock: nat -> int, faults: nat -> Fault, i: nat)
    requires OneWrite(rows, d, work, clock, faults, i)
    requires forall j :: !Hides(work, faults(j))
    ensures !d.Ok() ==> d.rows == rows
  {
  }

  /** A direct write takes its time once, before its attempts. */
  function Always(at: int): nat -> int {
    _ => at
  }

  lemma WrittenOne(rows: seq<Row>, e: RelEdge, at: int)
    ensures Written(rows, Direct(Normal(e)), at) == Upsert(rows, e, at)
  {
    var n := Normal(e);
    assert [n][..0] == [];
    assert Stamped([n], at) == [Call(n, at)];
    assert [Call(n, at)][..0] == [];
    assert UpsertAll(rows, [Call(n, at)]) == Upsert(rows, n, at);
  }

  /** What one attempt at a direct write fails with and leaves, statement by statement. */
  lemma DirectLeaves(rows: seq<Row>, e: RelEdge, at: int, fault: Fault)
    ensures var (work, found) := (Direct(Normal(e)), HasKey(rows, e.key));
      && (found ==>
          AfterAttempt(rows, work, at, fault) ==
          if fault.FaultAt? && fault.call == 0 && !fault.applied then rows else Updated(rows, e.key, e.attrs, at))
      && (!found ==> Updated(rows, e.key, e.attrs, at) == rows)
      && (!found ==>
          AfterAttempt(rows, work, at, fault) ==
          if fault.FaultAt? && (fault.call <= 1 || (fault.call == 2 && !fault.applied)) then rows
          else Inserted(rows, NewRow(e, at)))
      && (Fails(work, rows, fault) <==> fault.FaultAt? && (fault.call <= 1 || (fault.call == 2 && !found)))
  {
    WrittenOne(rows, e, at);
    hide Written, HasKey, Inserted, Updated;
    if !HasKey(rows, e.key) {
      UpdatedNothing(rows, e.key, e.attrs, at);
    }
  }

  /** What one attempt at a batch leaves. */
  lemma BatchLeaves(rows: seq<Row>, edges: seq<RelEdge>, at: int, fault: Fault)
    ensures UpsertAll(rows, Stamped(edges[..0], at)) == rows
    ensures AfterAttempt(rows, Batch(edges), at, fault) ==
      if fault.FaultAt? && (fault.call < |edges| || (fault.call == |edges| && !fault.applied)) then rows
      else UpsertAll(rows, Stamped(edges[..|edges|], at))
  {
    assert edges[..|edges|] == edges && edges[..0] == [];
  }

  lemma OneMore(rows: seq<Row>, edges: seq<RelEdge>, i: nat, at: int)
    requires i < |edges|
    ensures UpsertAll(rows, Stamped(edges[..i+1], at)) == Upsert(UpsertAll(rows, Stamped(edges[..i], at)), edges[i], at)
  {
    hide Upsert;
    assert edges[..i+1][..i] == edges[..i];
    var cs, c := Stamped(edges[..i], at), Call(edges[i], at);
    assert (cs + [c])[..|cs|] == cs;
  }

  class RelStore {
    const table: EdgeTable
    const active: EdgeCounter?
    var buffer: Option<seq<RelEdge>>

    predicate Valid()
      reads this, table
    {
      OnePerKey(table.rows)
    }

    constructor (table: EdgeTable, active: EdgeCounter?, buffer: Option<seq<RelEdge>>)
      ensures this.table == table && this.active == active && this.buffer == buffer
    {
      this.table := table;
      this.active := active;
      this.buffer := buffer;
    }

    /** A copy on the same table and counter with a buffer of its own. */
    method BeginRelBuffer() returns (copy: RelStore)
      requires Valid()
      ensures fresh(copy) && copy.Valid()
      ensures copy.table == table && copy.active == active && copy.buffer == Some([])
    {
      copy := new RelStore(table, active, Some([]));
    }

    /** UPDATE, and INSERT only when it matched nothing, each a transaction of its own. */
    method WriteOne(e: RelEdge, at: int, fault: Fault) returns (err: Option<DbError>)
      modifies table`rows
      ensures table.rows == AfterAttempt(old(table.rows), Direct(Normal(e)), at, fault)
      ensures err == if Fails(Direct(Normal(e)), old(table.rows), fault) then Some(fault.error) else None
    {
      hide HasKey, Updated, Inserted, NewRow, AfterAttempt, Normal;
      DirectLeaves(table.rows, e, at, fault);
      var found := HasKey(table.rows, e.key);
      if fault.FaultAt? && fault.call == 0 && !fault.applied {
        return Some(fault.error);
      }
      table.rows := Updated(table.rows, e.key, e.attrs, at);
      if fault.FaultAt? && fault.call <= 1 {
        return Some(fault.error);
      }
      if found {
        return None;
      }
      if fault.FaultAt? && fault.call == 2 && !fault.applied {
        return Some(fault.error);
      }
      table.rows := Inserted(table.rows, NewRow(e, at));
      err := if fault.FaultAt? && fault.call == 2 then Some(fault.error) else None;
    }

    /** One transaction for many edges; an error before the commit rolls all back. */
    method WriteMany(edges: seq<RelEdge>, at: int, fault: Fault) returns (err: Option<DbError>)
      modifies table`rows
      ensures table.rows == AfterAttempt(old(table.rows), Batch(edges), at, fault)
      ensures err == if Fails(Batch(edges), old(table.rows), fault) then Some(fault.error) else None
    {
      hide Upsert, AfterAttempt, Stamped, UpsertAll;
      var rows0 := table.rows;
      BatchLeaves(rows0, edges, at, fault);
      for i := 0 to |edges|
        invariant fault.FaultAt? ==> i <= fault.call
        invariant table.rows == UpsertAll(rows0, Stamped(edges[..i], at))
      {
        if fault.FaultAt? && fault.call == i {
          table.rows := rows0;
          return Some(fault.error);
        }
        OneMore(rows0, edges, i, at);
        table.rows := UpsertRow(table.rows, edges[i], at);
      }
      if fault.FaultAt? && fault.call == |edges| {
        if !fault.applied {
          table.rows := rows0;
        }
        return Some(fault.error);
      }
      err := None;
    }

    method Attempt(work: Work, at: int, fault: Fault) returns (err: Option<DbError>)
      requires work.Direct? ==> work.edge == Normal(work.edge)
      modifies table`rows
      ensures table.rows == AfterAttempt(old(table.rows), work, at, fault)
      ensures err == if Fails(work, old(table.rows), fault) then Some(fault.error) else None
    {
      hide AfterAttempt, Fails;
      match work
      case Direct(e) => err := WriteOne(e, at, fault);
      case Batch(edges) => err := WriteMany(edges, at, fault);
    }

    /** The attempts of one write and what they make of the shared failure streak. */
    method WithWriteRetry(work: Work, clock: nat -> int, faults: nat -> Fault)
      returns (ok: bool, ghost ended: Ended)
      requires Valid() && (work.Direct? ==> work.edge == Normal(work.edge))
      modifies table
      ensures ended == Tries(old(table.rows), work, clock, faults, 1, AttemptLimit(false, old(table.streak)))
      ensures table.rows == ended.rows && ok == ended.Ok()
      ensures table.streak == StreakAfter(old(table.streak), ended.outcomes[|ended.outcomes|-1])
    {
      hide AfterAttempt, Fails, Retryable, Tries;
      var attempts := AttemptLimit(false, table.streak);
      ghost var outcomes: seq<Outcome> := [];
      ended := Tries(table.rows, work, clock, faults, 1, attempts);
      var i := 1;
      while true
        invariant 1 <= i <= attempts && table.streak == old(table.streak)
        invariant var rest := Tries(table.rows, work, clock, faults, i, attempts);
          ended == Ended(rest.rows, outcomes + rest.outcomes)
        decreases attempts - i
      {
        TriesOnce(table.rows, work, clock, faults, i, attempts);
        var err := Attempt(work, clock(i), faults(i));
        if err == None {
          if table.streak.Some? {
            table.streak := Some(0);
          }
          return true, ended;
        }
        if !Retryable(err.value) {
          return false, ended;
        }
        if i == attempts {
          break;
        }
        outcomes := outcomes + [Failed(err.value)];
        i := i + 1;
      }
      if table.streak.Some? {
        table.streak := Some(table.streak.value + 1);
      }
      ok := false;
    }

    /** On a buffered store the edge is kept for the flush, otherwise it is written now.
        The counter moves when the call succeeds, which for a buffered call is before
        anything is written. */
    method UpsertRelationship(e: RelEdge, at: int, faults: nat -> Fault) returns (ok: bool, ghost ended: Ended)
      requires Valid()
      modifies this, table, active
      ensures Valid()
      ensures old(buffer).Some? ==> ok && buffer == Some(old(buffer).value + [Normal(e)])
      ensures old(buffer).Some? ==> table.rows == old(table.rows) && table.streak == old(table.streak)
      ensures old(buffer) == None ==> buffer == None
      ensures old(buffer) == None ==> ended == Tries(old(table.rows), Direct(Normal(e)), Always(at), faults, 1, AttemptLimit(false, old(table.streak)))
      ensures old(buffer) == None ==> table.rows == ended.rows && ok == ended.Ok()
      ensures old(buffer) == None ==> table.streak == StreakAfter(old(table.streak), ended.outcomes[|ended.outcomes|-1])
      ensures old(buffer) == None && ok ==> table.rows == Upsert(old(table.rows), e, at)
      ensures !ok ==> table.rows == old(table.rows) || table.rows == Upsert(old(table.rows), e, at)
      ensures !ok && (forall j :: !Hides(Direct(Normal(e)), faults(j))) ==> table.rows == old(table.rows)
      ensures active != null ==> active.count == old(active.count) + if ok then 1 else 0
    {
      hide Hides, OnePerKey, Upsert, Stands, Tries, Written;
      var d := e.direction;
      if d == "" {
        d := "directed";
      }
      if buffer.Some? {
        buffer := Some(buffer.value + [RelEdge(e.key, d, e.attrs)]);
        if active != null {
          active.count := active.count + 1;
        }
        ended := Ended([], []);
        return true, ended;
      }
      ghost var rows0, limit := table.rows, AttemptLimit(false, table.streak);
      ok, ended := WithWriteRetry(Direct(RelEdge(e.key, d, e.attrs)), Always(at), faults);
      WrittenOne(rows0, e, at);
      RetriesWriteOnce(rows0, Direct(Normal(e)), Always(at), faults, 1, limit);
      StandsAlike(rows0, ended, Direct(Normal(e)), at, faults);
      if forall j :: !Hides(Direct(Normal(e)), faults(j)) {
        PlainFailureWritesNothing(rows0, ended, Direct(Normal(e)), Always(at), faults, 1);
      }
      if ok && active != null {
        active.count := active.count + 1;
      }
    }

    /** Many edges in one transaction, tried again while the failure is transient; each
        attempt stamps its own time. */
    method UpsertRelationships(edges: seq<RelEdge>, clock: nat -> int, faults: nat -> Fault) returns (ok: bool, ghost ended: Ended)
      requires Valid()
      modifies table
      ensures Valid()
      ensures edges == [] ==> ok && table.rows == old(table.rows) && table.streak == old(table.streak) && ended.outcomes == []
      ensures edges != [] ==> ended == Tries(old(table.rows), Batch(edges), clock, faults, 1, AttemptLimit(false, old(table.streak)))
      ensures edges != [] ==> table.rows == ended.rows && ok == ended.Ok()
      ensures edges != [] ==> table.streak == StreakAfter(old(table.streak), ended.outcomes[|ended.outcomes|-1])
      ensures ok ==> table.rows == UpsertAll(old(table.rows), Stamped(edges, clock(|ended.outcomes|)))
      ensures !ok && (forall j :: !Hides(Batch(edges), faults(j))) ==> table.rows == old(table.rows)
    {
      hide OnePerKey, Tries, Stands, Hides;
      if edges == [] {
        ended := Ended([], []);
        return true, ended;
      }
      ghost var rows0, limit := table.rows, AttemptLimit(false, table.streak);
      ok, ended := WithWriteRetry(Batch(edges), clock, faults);
      RetriesWriteOnce(rows0, Batch(edges), clock, faults, 1, limit);
      if forall j :: !Hides(Batch(edges), faults(j)) {
        PlainFailureWritesNothing(rows0, ended, Batch(edges), clock, faults, 1);
      }
    }

    /** Takes and clears the buffer, then writes it: a refused flush loses the edges it
        took, although the counter has counted them. */
    method FlushRelBuffer(clock: nat -> int, faults: nat -> Fault) returns (ok: bool, ghost ended: Ended)
      requires Valid()
      modifies this, table
      ensures Valid()
      ensures old(buffer) == None ==> ok && buffer == None && table.rows == old(table.rows) && table.streak == old(table.streak)
      ensures old(buffer).Some? ==> buffer == Some([])
      ensures old(buffer).Some? && old(buffer).value != [] ==>
        ended == Tries(old(table.rows), Batch(old(buffer).value), clock, faults, 1, AttemptLimit(false, old(table.streak))) && ok == ended.Ok()
      ensures old(buffer).Some? && old(buffer).value != [] ==>
        table.streak == StreakAfter(old(table.streak), ended.outcomes[|ended.outcomes|-1])
      ensures old(buffer).Some? && ok ==> table.rows == UpsertAll(old(table.rows), Stamped(old(buffer).value, clock(|ended.outcomes|)))
      ensures old(buffer).Some? && !ok && (forall j :: !Hides(Batch(old(buffer).value), faults(j))) ==> table.rows == old(table.rows)
    {
      hide OnePerKey, Tries, Hides;
      if buffer == None {
        ended := Ended([], []);
        return true, ended;
      }
      var edges := buffer.value;
      buffer := Some([]);
      ok, ended := UpsertRelationships(edges, clock, faults);
    }
  }

  /** When every attempt carries one time, it does not matter which one stands. */
  lemma StandsAlike(rows: seq<Row>, d: Ended, work: Work, at: int, faults: nat -> Fault)
    requires OneWrite(rows, d, work, Always(at), faults, 1)
    ensures d.rows == rows || d.rows == Written(rows, work, at)
    ensures d.Ok() ==> d.rows == Written(rows, work, at)
  {
  }

  /** The two statements of one edge inside a transaction. */
  method UpsertRow(rows: seq<Row>, e: RelEdge, at: int) returns (r: seq<Row>)
    ensures r == Upsert(rows, e, at)
  {
    var d := e.direction;
    if d == "" {
      d := "directed";
    }
    var matched := HasKey(rows, e.key);
    r := Updated(rows, e.key, e.attrs, at);
    if matched {
      return;
    }
    r := Inserted(r, Row(e.key, d, e.attrs, at));
  }
}
