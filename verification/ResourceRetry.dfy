/** store/retry.go around store/resources_upsert.go: the attempts of one batch write, what
    they leave in the table, and what of it the counters are told. */
module ResourceRetry {
  import opened Chains
  import opened JsonText
  import opened Resources
  import opened ResourceLaws
  import opened ResourceColumns
  import opened Rescan
  import opened Retry
  import opened Wrappers

  /** A database call of an attempt that returns an error, counting calls from 0; applied
      says whether a COMMIT took effect all the same. */
  datatype Fault = NoFault | FaultAt(call: nat, error: DbError, applied: bool)
  {
    predicate Trips(calls: nat) { FaultAt? && call == calls }

    /** The error met by the calls of a stretch. */
    function Met(from: nat, to: nat): Option<DbError> {
      if FaultAt? && from <= call < to then Some(error) else None
    }
  }

  /** The writes that are retried. */
  type Batch = op: Op | op.Upsert? || op.InsertIfAbsent? witness Upsert([], "")

  // ------------------------------------------------------------ one attempt

  /** The table after the first k resources. */
  ghost function Partly(c: Codec, s: State, op: Batch, k: nat): State
    requires c.Valid() && k <= |op.rs|
  {
    if op.Upsert? then UpsertRows(c, s, op.rs[..k], op.now) else PlaceRows(s, op.rs[..k], op.now)
  }

  lemma PartlyStep(c: Codec, s: State, op: Batch, k: nat)
    requires c.Valid() && k < |op.rs|
    ensures Partly(c, s, op, k + 1) ==
      if op.Upsert? then UpsertRow(c, Partly(c, s, op, k), op.rs[k], op.now)
      else PlaceRow(Partly(c, s, op, k), op.rs[k], op.now)
  {
    assert op.rs[..k+1][..k] == op.rs[..k];
  }

  lemma PartlyAll(c: Codec, s: State, op: Batch)
    requires c.Valid()
    ensures Partly(c, s, op, 0) == s && Partly(c, s, op, |op.rs|) == Step(c, s, op)
  {
    assert op.rs[..|op.rs|] == op.rs && op.rs[..0] == [];
  }

  /** The database calls of an upsert: lookup and insert or update, or lookup and both
      halves of a split. */
  ghost function UpsertCalls(c: Codec, s: State, r: Resource): nat
    requires c.Valid()
  {
    if HasCurrent(s.rows, r.key) && !Unchanged(c, s.rows[CurrentOf(s.rows, r.key)].body, r) then 3 else 2
  }

  /** The number of calls made before resource k is reached, BEGIN included. */
  ghost function CallsBefore(c: Codec, s: State, op: Batch, k: nat): nat
    requires c.Valid() && k <= |op.rs|
  {
    if k == 0 then 1
    else
      CallsBefore(c, s, op, k - 1) + if op.Upsert? then UpsertCalls(c, Partly(c, s, op, k - 1), op.rs[k-1]) else 1
  }

  ghost function CommitCall(c: Codec, s: State, op: Batch): nat
    requires c.Valid()
  {
    CallsBefore(c, s, op, |op.rs|)
  }

  lemma {:induction false} CallsGrow(c: Codec, s: State, op: Batch, k: nat)
    requires c.Valid() && k <= |op.rs|
    ensures CallsBefore(c, s, op, k) <= CommitCall(c, s, op)
    decreases |op.rs| - k
  {
    if k < |op.rs| {
      CallsGrow(c, s, op, k + 1);
      hide CommitCall, UpsertCalls, Partly, Codec.Valid;
      assert CallsBefore(c, s, op, k) <= CallsBefore(c, s, op, k + 1);
    }
  }

  /** One attempt, from the state it found to the state it left. */
  datatype Try = Try(before: State, fault: Fault, after: State, outcome: Outcome)
  {
    function Adds(): int { |after.rows| - |before.rows| }
    function Drawn(): nat { if before.next <= after.next then after.next - before.next else 0 }
  }

  /** Its batch is in the table: it committed, or its COMMIT took effect behind an error. */
  ghost predicate Holds(c: Codec, op: Batch, t: Try)
    requires c.Valid()
  {
    t.fault.FaultAt? ==> var commit := CommitCall(c, t.before, op);
      t.fault.call > commit || (t.fault.call == commit && t.fault.applied)
  }

  /** An attempt fails exactly when one of its calls does, and then rolls back unless the
      COMMIT took effect; ids drawn stay drawn. */
  ghost predicate Attempted(c: Codec, op: Batch, t: Try)
    requires c.Valid()
  {
    && t.outcome == (if t.fault.FaultAt? && t.fault.call <= CommitCall(c, t.before, op) then Failed(t.fault.error) else Committed)
    && if Holds(c, op, t) then t.after == Step(c, t.before, op)
       else t.after.rows == t.before.rows && t.after.next >= t.before.next
  }

  /** Committed, but reported as a failure. */
  ghost predicate HiddenCommit(c: Codec, op: Batch, t: Try)
    requires c.Valid()
  {
    Holds(c, op, t) && t.outcome.Failed?
  }

  // ------------------------------------------------------------ all attempts

  function EndOf(before: State, tries: seq<Try>): State {
    if tries == [] then before else tries[|tries|-1].after
  }

  /** Attempts that follow each other. */
  ghost predicate Chain(c: Codec, op: Batch, before: State, tries: seq<Try>)
    requires c.Valid()
  {
    tries == [] ||
      (var init, t := tries[..|tries|-1], tries[|tries|-1];
       Chain(c, op, before, init) && t.before == EndOf(before, init) && Attempted(c, op, t))
  }

  function Outcomes(tries: seq<Try>): seq<Outcome> {
    seq(|tries|, i requires 0 <= i < |tries| => tries[i].outcome)
  }

  predicate Under(tries: seq<Try>, faults: nat -> Fault) {
    forall i :: 0 <= i < |tries| ==> tries[i].fault == faults(i + 1)
  }

  /** One call of withWriteRetry under the given faults. */
  ghost predicate Called(c: Codec, op: Batch, faults: nat -> Fault, before: State, streak: Streak, tries: seq<Try>)
    requires c.Valid()
  {
    Chain(c, op, before, tries) && Under(tries, faults) && LegalTrace(Outcomes(tries), AttemptLimit(false, streak))
  }

  predicate Succeeded(tries: seq<Try>) {
    tries != [] && tries[|tries|-1].outcome.Committed?
  }

  /** Rows added by attempts that were reported as failures. */
  function HiddenRows(tries: seq<Try>): int {
    if tries == [] then 0
    else
      var t := tries[|tries|-1];
      HiddenRows(tries[..|tries|-1]) + if t.outcome.Failed? then t.Adds() else 0
  }

  /** What the call publishes: the rows added by the attempt that committed. */
  function Published(tries: seq<Try>): int {
    if Succeeded(tries) then tries[|tries|-1].Adds() else 0
  }

  predicate FailedButLast(tries: seq<Try>) {
    forall i :: 0 <= i < |tries| - 1 ==> tries[i].outcome.Failed?
  }

  lemma CalledFailsButLast(c: Codec, op: Batch, faults: nat -> Fault, before: State, streak: Streak, tries: seq<Try>)
    requires c.Valid() && Called(c, op, faults, before, streak, tries)
    ensures tries != [] && FailedButLast(tries)
  {
    hide Codec.Valid, Chain;
    forall i | 0 <= i < |tries| - 1 ensures tries[i].outcome.Failed? {
      assert Outcomes(tries)[i].Transient();
    }
  }

  lemma {:induction false} RowsInTries(c: Codec, op: Batch, before: State, tries: seq<Try>)
    requires c.Valid() && Chain(c, op, before, tries) && forall t :: t in tries ==> t.outcome.Failed?
    ensures |EndOf(before, tries).rows| == |before.rows| + HiddenRows(tries)
  {
    hide Codec.Valid, Attempted;
    if tries != [] {
      var init := tries[..|tries|-1];
      assert forall t :: t in init ==> t in tries;
      RowsInTries(c, op, before, init);
    }
  }

  /** Rows added are rows published and rows added by attempts whose commit was hidden. */
  lemma RowsAreCounted(c: Codec, op: Batch, before: State, tries: seq<Try>)
    requires c.Valid() && Chain(c, op, before, tries) && FailedButLast(tries)
    ensures |EndOf(before, tries).rows| == |before.rows| + Published(tries) + HiddenRows(tries)
  {
    hide Codec.Valid, Attempted;
    if tries != [] {
      var init := tries[..|tries|-1];
      forall t | t in init ensures t.outcome.Failed? {
        var i :| 0 <= i < |init| && init[i] == t;
        assert tries[i] == t;
      }
      RowsInTries(c, op, before, init);
    }
  }

  // ------------------------------------------------------- the batch again

  /** A batch that would add no row. */
  ghost predicate Quiet(c: Codec, rows: Rows, op: Batch)
    requires c.Valid()
  {
    if op.Upsert? then AllMatch(c, State(rows, 0), op.rs) else forall r :: r in op.rs ==> r.key in Keys(rows)
  }

  /** A batch whose second application adds no row: it does not carry one natural key
      with two payloads, or only places what is absent. */
  ghost predicate Repeatable(c: Codec, op: Batch)
    requires c.Valid()
  {
    op.Upsert? ==> Consistent(c, op.rs)
  }

  lemma {:induction false} PlaceRowsAdd(s: State, rs: seq<Resource>, now: string)
    requires Good(s)
    ensures var t := PlaceRows(s, rs, now);
      && |t.rows| >= |s.rows| && Keys(s.rows) <= Keys(t.rows) && (forall r :: r in rs ==> r.key in Keys(t.rows))
      && (|t.rows| == |s.rows| <==> forall r :: r in rs ==> r.key in Keys(s.rows))
      && (|t.rows| == |s.rows| ==> t.rows == s.rows)
  {
    if rs != [] {
      var init, r := rs[..|rs|-1], rs[|rs|-1];
      assert rs == init + [r];
      var t := PlaceRows(s, init, now);
      PlaceRowsAdd(s, init, now);
      PlaceRowsKeep(s, init, now);
      PlaceRowAdds(t, r, now);
      KeyHasCurrent(t, r.key);
      hide Good, Keys, HasCurrent;
      assert forall q :: q in rs <==> q in init || q == r;
    }
  }

  lemma MatchesRows(c: Codec, s: State, op: Batch)
    requires c.Valid() && op.Upsert?
    ensures AllMatch(c, s, op.rs) <==> Quiet(c, s.rows, op)
  {
    forall r ensures Matches(c, s, r) <==> Matches(c, State(s.rows, 0), r) {
    }
    hide Matches, Codec.Valid;
  }

  /** What a batch does to the number of rows, to a table it is quiet on, and to itself. */
  lemma StepAdds(c: Codec, s: State, op: Batch)
    requires c.Valid() && Good(s)
    ensures |Step(c, s, op).rows| >= |s.rows|
    ensures |Step(c, s, op).rows| == |s.rows| <==> Quiet(c, s.rows, op)
    ensures Quiet(c, s.rows, op) ==> Refreshed(s.rows, Step(c, s, op).rows)
  {
    hide Codec.Valid, Good;
    if op.Upsert? {
      QuietBatch(c, s, op.rs, op.now);
      MatchesRows(c, s, op);
    } else {
      PlaceRowsAdd(s, op.rs, op.now);
      assert Refreshed(s.rows, s.rows);
    }
  }

  lemma StepAgain(c: Codec, s: State, op: Batch)
    requires c.Valid() && Good(s)
    ensures Quiet(c, Step(c, s, op).rows, op) <==> Repeatable(c, op)
  {
    var s1 := Step(c, s, op);
    StepKeeps(c, s, op);
    hide Codec.Valid, Good, Extends;
    if op.Upsert? {
      ReupsertInsertsNothing(c, s, op.rs, op.now, op.now);
      StepAdds(c, s1, op);
    } else {
      PlaceRowsAdd(s, op.rs, op.now);
    }
  }

  lemma QuietStays(c: Codec, s: State, rows: Rows, op: Batch)
    requires c.Valid() && Good(s) && Refreshed(s.rows, rows)
    ensures Quiet(c, rows, op) <==> Quiet(c, s.rows, op)
  {
    hide Codec.Valid, Good, Refreshed;
    if op.Upsert? {
      MatchesRows(c, s, op);
      MatchesRows(c, State(rows, s.next), op);
      forall r ensures Matches(c, State(rows, s.next), r) <==> Matches(c, s, r) {
        MatchesTransfers(c, s, State(rows, s.next), r);
      }
      hide Matches, Quiet;
    } else {
      RefreshedKeys(s.rows, rows);
    }
  }

  lemma RefreshedKeys(a: Rows, b: Rows)
    requires Refreshed(a, b)
    ensures Keys(a) == Keys(b) && |a| == |b|
  {
    assert |a| == |a.Keys| && |b| == |b.Keys|;
    assert forall i :: i in a ==> a[i].key == b[i].key;
  }

  lemma RefreshedThrough(a: Rows, b: Rows, d: Rows)
    requires Refreshed(a, b) && Refreshed(b, d)
    ensures Refreshed(a, d)
  {
  }

  // ---------------------------------------------------- what attempts leave

  /** One attempt: good tables stay good; a batch that holds adds rows unless the table
      was quiet for it, and a quiet table stays quiet. */
  lemma AttemptLeaves(c: Codec, op: Batch, t: Try)
    requires c.Valid() && Good(t.before) && Attempted(c, op, t)
    ensures Good(t.after) && t.Adds() >= 0
    ensures t.Adds() == 0 <==> !Holds(c, op, t) || Quiet(c, t.before.rows, op)
    ensures !Holds(c, op, t) ==> t.after.rows == t.before.rows && t.outcome.Failed?
    ensures Quiet(c, t.before.rows, op) ==> Refreshed(t.before.rows, t.after.rows) && Quiet(c, t.after.rows, op)
    ensures Holds(c, op, t) ==> (Quiet(c, t.after.rows, op) <==> Repeatable(c, op))
  {
    if Holds(c, op, t) {
      StepAdds(c, t.before, op);
      StepKeeps(c, t.before, op);
      StepAgain(c, t.before, op);
    } else {
      RefreshedSelf(t.before.rows);
      GoodWidens(t.before, t.after.next);
    }
    hide Codec.Valid, Good, Holds, Extends, Refreshed, Quiet, Step;
    if Quiet(c, t.before.rows, op) {
      QuietStays(c, t.before, t.after.rows, op);
    }
  }

  lemma RefreshedSelf(rows: Rows)
    ensures Refreshed(rows, rows)
  {
  }

  lemma GoodWidens(s: State, next: nat)
    requires Good(s) && s.next <= next
    ensures Good(State(s.rows, next))
  {
    InvWiden(s.rows, s.next, next);
  }

  ghost predicate NoneHidden(c: Codec, op: Batch, tries: seq<Try>)
    requires c.Valid()
  {
    forall i :: 0 <= i < |tries| ==> !HiddenCommit(c, op, tries[i])
  }

  lemma {:induction false} ChainLeaves(c: Codec, op: Batch, before: State, tries: seq<Try>)
    requires c.Valid() && Good(before) && Chain(c, op, before, tries) && FailedButLast(tries)
    ensures Good(EndOf(before, tries)) && HiddenRows(tries) >= 0
    ensures Quiet(c, before.rows, op) ==> Quiet(c, EndOf(before, tries).rows, op)
    ensures NoneHidden(c, op, tries) && !Succeeded(tries) ==> EndOf(before, tries).rows == before.rows
    ensures HiddenRows(tries) == 0 <==> Quiet(c, before.rows, op) || NoneHidden(c, op, tries)
  {
    hide Codec.Valid, Good, Attempted, Quiet, Holds;
    if tries != [] {
      var init, t := tries[..|tries|-1], tries[|tries|-1];
      assert FailedButLast(init) && (init != [] ==> init[|init|-1] == tries[|init|-1]);
      ChainLeaves(c, op, before, init);
      AttemptLeaves(c, op, t);
      HiddenSnoc(c, op, tries);
    }
  }

  lemma HiddenSnoc(c: Codec, op: Batch, tries: seq<Try>)
    requires c.Valid() && tries != []
    ensures NoneHidden(c, op, tries) <==> NoneHidden(c, op, tries[..|tries|-1]) && !HiddenCommit(c, op, tries[|tries|-1])
  {
    hide HiddenCommit, Codec.Valid;
  }

  /** The published count is the number of rows the call added if and only if no commit
      was hidden behind an error or the batch had nothing to add to the table it met. */
  lemma PublishedExact(c: Codec, op: Batch, faults: nat -> Fault, before: State, streak: Streak, tries: seq<Try>)
    requires c.Valid() && Good(before) && Called(c, op, faults, before, streak, tries)
    ensures Published(tries) == |EndOf(before, tries).rows| - |before.rows| <==>
      Quiet(c, before.rows, op) || NoneHidden(c, op, tries)
    ensures Published(tries) <= |EndOf(before, tries).rows| - |before.rows|
  {
    CalledFailsButLast(c, op, faults, before, streak, tries);
    hide Codec.Valid, Good, Chain, Quiet, NoneHidden, LegalTrace, Under;
    RowsAreCounted(c, op, before, tries);
    ChainLeaves(c, op, before, tries);
  }

  lemma {:induction false} ChainAttempts(c: Codec, op: Batch, before: State, tries: seq<Try>, i: nat)
    requires c.Valid() && Chain(c, op, before, tries) && i < |tries|
    ensures Attempted(c, op, tries[i])
    decreases |tries|
  {
    hide Codec.Valid, Attempted;
    if i < |tries| - 1 {
      ChainAttempts(c, op, before, tries[..|tries|-1], i);
    }
  }

  lemma {:induction false} ChainGood(c: Codec, op: Batch, before: State, tries: seq<Try>)
    requires c.Valid() && Good(before) && Chain(c, op, before, tries)
    ensures Good(EndOf(before, tries))
    ensures forall t :: t in tries ==> Good(t.before) && Good(t.after) && Attempted(c, op, t)
  {
    hide Codec.Valid, Good, Attempted;
    if tries != [] {
      var init, t := tries[..|tries|-1], tries[|tries|-1];
      ChainGood(c, op, before, init);
      AttemptLeaves(c, op, t);
      assert tries == init + [t];
      assert forall u :: u in tries <==> u in init || u == t;
    }
  }

  /** The current row of every key of the batch is what the last resource with that key
      says it is. */
  ghost predicate AllScanned(c: Codec, rows: Rows, rs: seq<Resource>, now: string)
    requires c.Valid()
  {
    forall j :: 0 <= j < |rs| && LastOfItsKey(rs, j) ==> Scanned(c, rows, rs[j], now)
  }

  lemma HeldScanned(c: Codec, op: Batch, t: Try)
    requires c.Valid() && Good(t.before) && Attempted(c, op, t) && Holds(c, op, t) && op.Upsert?
    ensures AllScanned(c, t.after.rows, op.rs, op.now)
  {
    hide Codec.Valid, Good, Scanned, Holds;
    forall j: nat | j < |op.rs| && LastOfItsKey(op.rs, j) ensures Scanned(c, t.after.rows, op.rs[j], op.now) {
      BatchScanned(c, t.before, op.rs, op.now, j);
    }
  }

  /** Every attempt that holds, reported or hidden, has left the whole batch; so has a
      call that succeeds. */
  lemma CallScanned(c: Codec, op: Batch, before: State, tries: seq<Try>)
    requires c.Valid() && Good(before) && Chain(c, op, before, tries) && op.Upsert?
    ensures forall t :: t in tries && Holds(c, op, t) ==> AllScanned(c, t.after.rows, op.rs, op.now)
    ensures Succeeded(tries) ==> AllScanned(c, EndOf(before, tries).rows, op.rs, op.now)
  {
    ChainGood(c, op, before, tries);
    hide Codec.Valid, Good, Attempted, AllScanned, Holds, Chain;
    forall t | t in tries && Holds(c, op, t) ensures AllScanned(c, t.after.rows, op.rs, op.now) {
      HeldScanned(c, op, t);
    }
    if Succeeded(tries) {
      var t := tries[|tries|-1];
      assert t in tries;
      AttemptLeaves(c, op, t);
    }
  }

  /** What a call reports, against what its attempts did. */
  ghost predicate Reports(c: Codec, op: Batch, faults: nat -> Fault, before: State, streak: Streak, after: State, tries: seq<Try>,
                          inserted: int, failed: bool)
    requires c.Valid()
  {
    && Called(c, op, faults, before, streak, tries) && after == EndOf(before, tries)
    && (failed <==> !Succeeded(tries)) && inserted == Published(tries)
    && |after.rows| == |before.rows| + inserted + HiddenRows(tries)
    && (inserted == |after.rows| - |before.rows| <==> Quiet(c, before.rows, op) || NoneHidden(c, op, tries))
    && (faults(1).NoFault? ==> !failed && after == Step(c, before, op))
  }

  lemma CallReports(c: Codec, op: Batch, faults: nat -> Fault, before: State, streak: Streak, tries: seq<Try>)
    requires c.Valid() && Good(before) && Called(c, op, faults, before, streak, tries)
    ensures Reports(c, op, faults, before, streak, EndOf(before, tries), tries, Published(tries), !Succeeded(tries))
  {
    CalledFailsButLast(c, op, faults, before, streak, tries);
    RowsAreCounted(c, op, before, tries);
    PublishedExact(c, op, faults, before, streak, tries);
    if faults(1).NoFault? {
      FaultlessCommits(c, op, faults, before, streak, tries);
    }
    hide *;
  }

  lemma FaultlessCommits(c: Codec, op: Batch, faults: nat -> Fault, before: State, streak: Streak, tries: seq<Try>)
    requires c.Valid() && Called(c, op, faults, before, streak, tries) && faults(1).NoFault?
    ensures |tries| == 1 && Succeeded(tries) && EndOf(before, tries) == Step(c, before, op)
  {
    hide Codec.Valid, Step;
    ChainAttempts(c, op, before, tries, 0);
    assert Outcomes(tries)[0] == Committed;
    assert tries[..1] == tries && tries[..0] == [];
  }

  // ------------------------------------------------ applied more than once

  ghost predicate FirstToHold(c: Codec, op: Batch, tries: seq<Try>, f: nat)
    requires c.Valid()
  {
    f < |tries| && Holds(c, op, tries[f]) && forall i :: 0 <= i < f ==> !Holds(c, op, tries[i])
  }

  ghost predicate HoldsLater(c: Codec, op: Batch, tries: seq<Try>, f: nat)
    requires c.Valid()
  {
    exists i :: f < i < |tries| && Holds(c, op, tries[i])
  }

  lemma {:induction false} NothingHeldYet(c: Codec, op: Batch, before: State, tries: seq<Try>)
    requires c.Valid() && Good(before) && Chain(c, op, before, tries)
    requires forall i :: 0 <= i < |tries| ==> !Holds(c, op, tries[i])
    ensures EndOf(before, tries).rows == before.rows && Good(EndOf(before, tries))
  {
    hide Codec.Valid, Good, Attempted, Holds;
    if tries != [] {
      var init, t := tries[..|tries|-1], tries[|tries|-1];
      assert forall i :: 0 <= i < |init| ==> init[i] == tries[i];
      NothingHeldYet(c, op, before, init);
      AttemptLeaves(c, op, t);
    }
  }

  /** What holds once try f has put the batch into the table. */
  ghost predicate SinceFirst(c: Codec, op: Batch, before: State, tries: seq<Try>, f: nat)
    requires c.Valid() && f < |tries|
  {
    var first, rows := tries[f].after.rows, EndOf(before, tries).rows;
    && tries[f].before.rows == before.rows && Good(EndOf(before, tries))
    && (Quiet(c, first, op) <==> Repeatable(c, op))
    && (!HoldsLater(c, op, tries, f) ==> rows == first)
    && (Repeatable(c, op) ==> Refreshed(first, rows) && Quiet(c, rows, op))
    && (!Repeatable(c, op) && HoldsLater(c, op, tries, f) ==> |rows| > |first|)
  }

  lemma SinceFirstStarts(c: Codec, op: Batch, before: State, tries: seq<Try>)
    requires c.Valid() && Good(before) && Chain(c, op, before, tries)
    requires tries != [] && FirstToHold(c, op, tries, |tries| - 1)
    ensures SinceFirst(c, op, before, tries, |tries| - 1)
  {
    hide Codec.Valid, Good, Attempted, Holds, Refreshed, Quiet, Repeatable;
    var init, t := tries[..|tries|-1], tries[|tries|-1];
    assert forall i :: 0 <= i < |init| ==> init[i] == tries[i];
    NothingHeldYet(c, op, before, init);
    AttemptLeaves(c, op, t);
    RefreshedSelf(t.after.rows);
  }

  lemma HoldsLaterSnoc(c: Codec, op: Batch, tries: seq<Try>, f: nat)
    requires c.Valid() && f < |tries| - 1
    ensures HoldsLater(c, op, tries, f) <==> HoldsLater(c, op, tries[..|tries|-1], f) || Holds(c, op, tries[|tries|-1])
  {
    hide Codec.Valid, Holds;
    var init := tries[..|tries|-1];
    assert forall i :: 0 <= i < |init| ==> init[i] == tries[i];
  }

  lemma SinceFirstGrows(c: Codec, op: Batch, before: State, tries: seq<Try>, f: nat)
    requires c.Valid() && Chain(c, op, before, tries) && f < |tries| - 1
    requires SinceFirst(c, op, before, tries[..|tries|-1], f)
    ensures SinceFirst(c, op, before, tries, f)
  {
    var init, t := tries[..|tries|-1], tries[|tries|-1];
    hide Codec.Valid, Good, Attempted, Holds, HoldsLater, Refreshed, Quiet, Repeatable;
    AttemptLeaves(c, op, t);
    HoldsLaterSnoc(c, op, tries, f);
    RefreshedSelf(t.after.rows);
    if Repeatable(c, op) {
      RefreshedThrough(tries[f].after.rows, t.before.rows, t.after.rows);
    }
  }

  lemma {:induction false} SinceFirstHolds(c: Codec, op: Batch, before: State, tries: seq<Try>, f: nat)
    requires c.Valid() && Good(before) && Chain(c, op, before, tries) && FirstToHold(c, op, tries, f)
    ensures SinceFirst(c, op, before, tries, f)
    decreases |tries|
  {
    if f == |tries| - 1 {
      SinceFirstStarts(c, op, before, tries);
    } else {
      hide Codec.Valid, Good, Attempted, Holds, SinceFirst;
      var init := tries[..|tries|-1];
      assert forall i :: 0 <= i < |init| ==> init[i] == tries[i];
      SinceFirstHolds(c, op, before, init, f);
      SinceFirstGrows(c, op, before, tries, f);
    }
  }

  /** However often retries repeat a batch behind hidden commits, the table keeps the
      versions of its first application if and only if the batch is repeatable or was
      applied once. */
  lemma AppliedOnceExact(c: Codec, op: Batch, before: State, tries: seq<Try>, f: nat)
    requires c.Valid() && Good(before) && Chain(c, op, before, tries) && FirstToHold(c, op, tries, f)
    ensures tries[f].before.rows == before.rows
    ensures Refreshed(tries[f].after.rows, EndOf(before, tries).rows) <==> Repeatable(c, op) || !HoldsLater(c, op, tries, f)
  {
    SinceFirstHolds(c, op, before, tries, f);
    hide Codec.Valid, Good, Chain, FirstToHold, HoldsLater, Refreshed, Quiet, Repeatable;
    RefreshedSelf(tries[f].after.rows);
    if Refreshed(tries[f].after.rows, EndOf(before, tries).rows) {
      RefreshedKeys(tries[f].after.rows, EndOf(before, tries).rows);
    }
  }

  // ------------------------------------------------- a commit behind an error

  /** The COMMIT of the first attempt takes effect behind an error; the second attempt
      meets no error. */
  ghost function TwoTries(c: Codec, s: State, op: Batch, e: DbError): seq<Try>
    requires c.Valid()
  {
    var s1 := Step(c, s, op);
    [Try(s, FaultAt(CommitCall(c, s, op), e, true), s1, Failed(e)), Try(s1, NoFault, Step(c, s1, op), Committed)]
  }

  ghost function HiddenFirst(c: Codec, s: State, op: Batch, e: DbError): nat -> Fault
    requires c.Valid()
  {
    var commit := CommitCall(c, s, op);
    i => if i == 1 then FaultAt(commit, e, true) else NoFault
  }

  /** Behind a transient error every row of the first attempt stays uncounted, and the
      call publishes nothing if and only if the batch is repeatable. */
  lemma HiddenThenClean(c: Codec, s: State, op: Batch, e: DbError, streak: Streak)
    requires c.Valid() && Good(s) && Retryable(e) && !CircuitOpen(streak)
    ensures var tries := TwoTries(c, s, op, e);
      && Called(c, op, HiddenFirst(c, s, op, e), s, streak, tries)
      && Succeeded(tries) && HiddenRows(tries) == |Step(c, s, op).rows| - |s.rows|
      && (Published(tries) == 0 <==> Repeatable(c, op))
  {
    hide Codec.Valid, Good, Step, TwoTries, HiddenFirst, Called, Chain, Attempted, Holds, Quiet, Repeatable, Refreshed, Extends,
      Retryable, HiddenRows, Published, Succeeded;
    TwoTriesChain(c, s, op, e);
    TwoTriesCalled(c, s, op, e, streak);
    TwoTriesAdd(c, s, op, e);
    StepKeeps(c, s, op);
    StepAdds(c, Step(c, s, op), op);
    StepAgain(c, s, op);
  }

  lemma TwoTriesCalled(c: Codec, s: State, op: Batch, e: DbError, streak: Streak)
    requires c.Valid() && Retryable(e) && !CircuitOpen(streak) && Chain(c, op, s, TwoTries(c, s, op, e))
    ensures Called(c, op, HiddenFirst(c, s, op, e), s, streak, TwoTries(c, s, op, e))
  {
    hide Codec.Valid, Step, CommitCall, Retryable, Chain;
  }

  lemma TwoTriesAdd(c: Codec, s: State, op: Batch, e: DbError)
    requires c.Valid()
    ensures var tries := TwoTries(c, s, op, e);
      && Succeeded(tries) && HiddenRows(tries) == |Step(c, s, op).rows| - |s.rows|
      && Published(tries) == |Step(c, Step(c, s, op), op).rows| - |Step(c, s, op).rows|
  {
    hide Codec.Valid, Step, CommitCall;
    var tries := TwoTries(c, s, op, e);
    assert tries[..1] == [tries[0]] && tries[..1][..0] == [];
    assert HiddenRows(tries[..1]) == tries[0].Adds();
  }

  lemma TwoTriesChain(c: Codec, s: State, op: Batch, e: DbError)
    requires c.Valid()
    ensures Chain(c, op, s, TwoTries(c, s, op, e))
    ensures forall t :: t in TwoTries(c, s, op, e) ==> Attempted(c, op, t) && Holds(c, op, t)
  {
    hide Codec.Valid, Step, CommitCall;
    var tries := TwoTries(c, s, op, e);
    assert tries[..1] == [tries[0]] && tries[..1][..0] == [];
    assert Attempted(c, op, tries[0]) && Attempted(c, op, tries[1]);
    assert Chain(c, op, s, tries[..1]);
  }

  /** A resource nobody has seen before, upserted so: its row is there, and the call
      reports that it inserted none. */
  lemma NewResourceUncounted(c: Codec, s: State, r: Resource, now: string, e: DbError, streak: Streak)
    requires c.Valid() && Good(s) && Retryable(e) && !CircuitOpen(streak) && r.key !in Keys(s.rows)
    ensures var op: Batch := Upsert([r], now);
      var tries := TwoTries(c, s, op, e);
      && Called(c, op, HiddenFirst(c, s, op, e), s, streak, tries) && Succeeded(tries)
      && Published(tries) == 0 && |EndOf(s, tries).rows| == |s.rows| + 1
  {
    var op: Batch := Upsert([r], now);
    HiddenThenClean(c, s, op, e, streak);
    UpsertRowAdds(c, s, r, now);
    RowsAreCounted(c, op, s, TwoTries(c, s, op, e));
    assert [r][..0] == [];
    hide Codec.Valid, Good, UpsertRow, Keys, HasCurrent;
    assert Step(c, s, op) == UpsertRow(c, s, r, now);
  }

  // --------------------------------------------------------------- histories

  /** The operations the attempts amount to. */
  ghost function OpsOf(c: Codec, op: Batch, tries: seq<Try>): seq<Op>
    requires c.Valid()
  {
    if tries == [] then []
    else
      var t := tries[|tries|-1];
      OpsOf(c, op, tries[..|tries|-1]) +
      [if Holds(c, op, t) then op else Discard(t.Drawn())]
  }

  lemma RunSnoc(c: Codec, s: State, ops: seq<Op>, op: Op)
    requires c.Valid() && LegalRun(c, s, ops) && Legal(Run(c, s, ops), op)
    ensures LegalRun(c, s, ops + [op]) && Run(c, s, ops + [op]) == Step(c, Run(c, s, ops), op)
  {
    assert (ops + [op])[..|ops|] == ops;
  }

  /** They lead from the state before to the state after. */
  lemma {:induction false} ChainRuns(c: Codec, op: Batch, start: State, ops: seq<Op>, tries: seq<Try>)
    requires c.Valid() && LegalRun(c, start, ops) && Chain(c, op, Run(c, start, ops), tries)
    ensures LegalRun(c, start, ops + OpsOf(c, op, tries))
    ensures Run(c, start, ops + OpsOf(c, op, tries)) == EndOf(Run(c, start, ops), tries)
  {
    hide Codec.Valid, LegalRun, Run, Holds;
    if tries == [] {
      assert ops + OpsOf(c, op, tries) == ops;
    } else {
      var init, t := tries[..|tries|-1], tries[|tries|-1];
      ChainRuns(c, op, start, ops, init);
      var more := ops + OpsOf(c, op, init);
      var last := if Holds(c, op, t) then op else Discard(t.Drawn());
      assert ops + OpsOf(c, op, tries) == more + [last];
      RunSnoc(c, start, more, last);
    }
  }

  // ------------------------------------- the attempts as the store makes them

  lemma FirstCall(c: Codec, s: State, op: Batch)
    requires c.Valid()
    ensures Partly(c, s, op, 0) == s && CallsBefore(c, s, op, 0) == 1 <= CommitCall(c, s, op)
  {
    PartlyAll(c, s, op);
    CallsGrow(c, s, op, 0);
  }

  /** One more resource: the table, the calls made, and that COMMIT comes later. */
  lemma OneMoreRow(c: Codec, s: State, op: Batch, k: nat)
    requires c.Valid() && k < |op.rs| && Good(Partly(c, s, op, k))
    ensures var t := Partly(c, s, op, k);
      && Partly(c, s, op, k + 1) == (if op.Upsert? then UpsertRow(c, t, op.rs[k], op.now) else PlaceRow(t, op.rs[k], op.now))
      && CallsBefore(c, s, op, k + 1) == CallsBefore(c, s, op, k) + (if op.Upsert? then UpsertCalls(c, t, op.rs[k]) else 1)
      && CallsBefore(c, s, op, k + 1) <= CommitCall(c, s, op)
      && Good(Partly(c, s, op, k + 1))
  {
    PartlyStep(c, s, op, k);
    CallsGrow(c, s, op, k + 1);
    hide Codec.Valid, Good, UpsertRow, PlaceRow, Partly, Extends, UpsertCalls;
    if op.Upsert? {
      UpsertRowKeeps(c, Partly(c, s, op, k), op.rs[k], op.now);
    } else {
      PlaceRowKeeps(Partly(c, s, op, k), op.rs[k], op.now);
    }
  }

  lemma RolledBack(c: Codec, op: Batch, s: State, fault: Fault, next: nat)
    requires c.Valid() && fault.FaultAt? && fault.call < CommitCall(c, s, op) && next >= s.next
    ensures Attempted(c, op, Try(s, fault, State(s.rows, next), Failed(fault.error)))
  {
    hide Codec.Valid, CommitCall, Step;
  }

  lemma Commits(c: Codec, op: Batch, s: State, fault: Fault)
    requires c.Valid() && (fault.FaultAt? ==> fault.call > CommitCall(c, s, op))
    ensures Attempted(c, op, Try(s, fault, Step(c, s, op), Committed))
  {
    hide Codec.Valid, CommitCall, Step;
  }

  lemma CommitFails(c: Codec, op: Batch, s: State, fault: Fault, next: nat)
    requires c.Valid() && fault.FaultAt? && fault.call == CommitCall(c, s, op) && next >= s.next
    ensures Attempted(c, op, Try(s, fault, if fault.applied then Step(c, s, op) else State(s.rows, next), Failed(fault.error)))
  {
    hide Codec.Valid, CommitCall, Step;
  }

  lemma AllRows(c: Codec, s: State, op: Batch)
    requires c.Valid()
    ensures Partly(c, s, op, |op.rs|) == Step(c, s, op) && CallsBefore(c, s, op, |op.rs|) == CommitCall(c, s, op)
  {
    PartlyAll(c, s, op);
  }

  /** Where the attempts stand while all of them have failed and may be repeated. */
  ghost predicate Trying(c: Codec, op: Batch, faults: nat -> Fault, before: State, tries: seq<Try>, now: State)
    requires c.Valid()
  {
    && Chain(c, op, before, tries) && Under(tries, faults) && now == EndOf(before, tries) && Good(now)
    && forall j :: 0 <= j < |tries| ==> tries[j].outcome.Transient()
  }

  lemma NoTries(c: Codec, op: Batch, faults: nat -> Fault, s: State)
    requires c.Valid() && Good(s)
    ensures Trying(c, op, faults, s, [], s)
  {
  }

  lemma OneMoreTry(c: Codec, op: Batch, faults: nat -> Fault, s: State, tries: seq<Try>, t: Try)
    requires c.Valid() && Trying(c, op, faults, s, tries, t.before) && Attempted(c, op, t) && t.fault == faults(|tries| + 1)
    ensures var more := tries + [t];
      && Chain(c, op, s, more) && Under(more, faults) && EndOf(s, more) == t.after && Good(t.after)
      && (t.outcome.Transient() ==> Trying(c, op, faults, s, more, t.after))
  {
    hide Codec.Valid, Attempted, Good, Retryable, Chain;
    AttemptLeaves(c, op, t);
    ChainSnoc(c, op, s, tries, t);
  }

  lemma ChainSnoc(c: Codec, op: Batch, s: State, tries: seq<Try>, t: Try)
    requires c.Valid() && Chain(c, op, s, tries) && t.before == EndOf(s, tries) && Attempted(c, op, t)
    ensures Chain(c, op, s, tries + [t]) && EndOf(s, tries + [t]) == t.after
  {
    hide Codec.Valid, Attempted;
    assert (tries + [t])[..|tries|] == tries;
  }

  /** The last attempt: it cannot or must not be repeated. */
  lemma TriesTrace(c: Codec, op: Batch, faults: nat -> Fault, s: State, streak: Streak, tries: seq<Try>, t: Try)
    requires c.Valid() && Trying(c, op, faults, s, tries, t.before) && Attempted(c, op, t) && t.fault == faults(|tries| + 1)
    requires |tries| < AttemptLimit(false, streak)
    requires !t.outcome.Transient() || |tries| + 1 == AttemptLimit(false, streak)
    ensures Called(c, op, faults, s, streak, tries + [t])
  {
    OneMoreTry(c, op, faults, s, tries, t);
    hide Retryable, Codec.Valid, Attempted, Good, Chain;
    var outcomes := Outcomes(tries + [t]);
    assert forall i :: 0 <= i < |tries| ==> outcomes[i] == tries[i].outcome;
  }

  lemma CallCounts(c: Codec, op: Batch, faults: nat -> Fault, s: State, streak: Streak, tries: seq<Try>)
    requires c.Valid() && Good(s) && Called(c, op, faults, s, streak, tries)
    ensures |EndOf(s, tries).rows| == |s.rows| + Published(tries) + HiddenRows(tries) && HiddenRows(tries) >= 0
  {
    hide Codec.Valid, Good, Chain, HiddenRows, Published, Quiet, NoneHidden, LegalTrace, Under;
    CalledFailsButLast(c, op, faults, s, streak, tries);
    RowsAreCounted(c, op, s, tries);
    ChainLeaves(c, op, s, tries);
  }

  lemma CallRuns(c: Codec, op: Batch, faults: nat -> Fault, streak: Streak, ops: seq<Op>, tries: seq<Try>)
    requires c.Valid() && LegalRun(c, EMPTY, ops) && Called(c, op, faults, Run(c, EMPTY, ops), streak, tries)
    ensures LegalRun(c, EMPTY, ops + OpsOf(c, op, tries))
    ensures Run(c, EMPTY, ops + OpsOf(c, op, tries)) == EndOf(Run(c, EMPTY, ops), tries)
  {
    ChainRuns(c, op, EMPTY, ops, tries);
  }
}
