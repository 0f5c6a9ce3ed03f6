/** store/retry.go: retrying transient write failures behind a failure-streak circuit. */
module Retry {
  import opened Wrappers

  const WRITE_MAX_ATTEMPTS: nat := 3
  const WRITE_CIRCUIT_TRIP: nat := 5
  const SQLITE_BUSY := 5
  const SQLITE_LOCKED := 6

  /** What errors.Is and errors.As find in an error's chain. */
  datatype DbError = DbError(
    canceled: bool,
    pgCode: Option<string>,
    sqliteCode: Option<nat>,
    badConn: bool,
    deadlineExceeded: bool,
    eof: bool,
    unexpectedEof: bool,
    netTimeout: bool,
    netOp: bool)

  predicate Retryable(e: DbError) {
    if e.canceled then false
    else if e.pgCode.Some? then
      "08" <= e.pgCode.value || e.pgCode.value in {"57P01", "57P02", "57P03", "53300"}
    else if e.sqliteCode.Some? then
      e.sqliteCode.value % 0x100 in {SQLITE_BUSY, SQLITE_LOCKED}
    else e.badConn || e.deadlineExceeded || e.eof || e.unexpectedEof || e.netTimeout || e.netOp
  }

  /** The codes of a connection at fault: the whole class 08 of Appendix A of the
      PostgreSQL manual, shutdowns, and too many connections. */
  ghost predicate ConnectionCode(code: string) {
    (exists rest :: code == "08" + rest) || code == "57P01" || code == "57P02" || code == "57P03" || code == "53300"
  }

  /** What is retried: never a cancelled scan; a server's error by its code alone; SQLite
      contention, 5 or 6 in the low byte; and otherwise a lost or late connection. */
  lemma RetryableExact(e: DbError)
    ensures e.canceled ==> !Retryable(e)
    ensures !e.canceled && e.pgCode.Some? ==> (Retryable(e) <==> ConnectionCode(e.pgCode.value))
    ensures !e.canceled && e.pgCode.None? && e.sqliteCode.Some? ==>
      (Retryable(e) <==> e.sqliteCode.value % 256 == 5 || e.sqliteCode.value % 256 == 6)
    ensures !e.canceled && e.pgCode.None? && e.sqliteCode.None? ==>
      (Retryable(e) <==> e.badConn || e.deadlineExceeded || e.eof || e.unexpectedEof || e.netTimeout || e.netOp)
  {
    if e.pgCode.Some? {
      var code := e.pgCode.value;
      if "08" <= code {
        assert code == "08" + code[2..];
      }
      if rest :| code == "08" + rest {
        assert "08" <= code;
      }
    }
  }

  /** A write gets three attempts, one inside a transaction of the caller's own, and one
      once five writes in a row have been exhausted. */
  lemma AttemptsExact(callerTx: bool, streak: Streak)
    ensures AttemptLimit(callerTx, streak) == if callerTx || (streak != None && streak.value >= 5) then 1 else 3
  {
  }

  /** The streak counts exhausted writes: a commit ends it, a failure of another kind
      leaves it. */
  lemma StreakExact(n: nat, last: Outcome)
    ensures StreakAfter(None, last) == None
    ensures StreakAfter(Some(n), Committed) == Some(0)
    ensures last.Failed? ==> StreakAfter(Some(n), last) == Some(if Retryable(last.error) then n + 1 else n)
  {
    hide Retryable;
  }

  /** How one attempt ended. */
  datatype Outcome = Committed | Failed(error: DbError)
  {
    predicate Transient() { Failed? && Retryable(error) }
  }

  /** The circuit counter; None on a store that has none. */
  type Streak = Option<nat>

  predicate CircuitOpen(streak: Streak) {
    streak.Some? && streak.value >= WRITE_CIRCUIT_TRIP
  }

  function AttemptLimit(callerTx: bool, streak: Streak): nat {
    if callerTx || CircuitOpen(streak) then 1 else WRITE_MAX_ATTEMPTS
  }

  /** The outcomes of the attempts of one write: retried while the failure is transient
      and attempts are left. */
  predicate LegalTrace(outcomes: seq<Outcome>, limit: nat) {
    && 0 < |outcomes| <= limit
    && (forall i :: 0 <= i < |outcomes| - 1 ==> outcomes[i].Transient())
    && (outcomes[|outcomes|-1].Transient() ==> |outcomes| == limit)
  }

  function StreakAfter(streak: Streak, last: Outcome): Streak {
    if streak.None? then None
    else if last.Committed? then Some(0)
    else if last.Transient() then Some(streak.value + 1)
    else streak
  }

  // ---------------------------------------------------- histories of writes

  datatype Write = Write(callerTx: bool, outcomes: seq<Outcome>)
  {
    function Last(): Outcome
      requires outcomes != []
    {
      outcomes[|outcomes|-1]
    }
  }

  /** A history of writes against one store, in the order they finish. */
  ghost predicate LegalHistory(ws: seq<Write>, streak: Streak) {
    ws == [] || (
      LegalTrace(ws[0].outcomes, AttemptLimit(ws[0].callerTx, streak)) &&
      LegalHistory(ws[1..], StreakAfter(streak, ws[0].Last())))
  }

  ghost function StreakOf(ws: seq<Write>, streak: Streak): Streak
    requires forall w :: w in ws ==> w.outcomes != []
  {
    if ws == [] then streak else StreakOf(ws[1..], StreakAfter(streak, ws[0].Last()))
  }

  ghost function Attempts(ws: seq<Write>): nat {
    if ws == [] then 0 else |ws[0].outcomes| + Attempts(ws[1..])
  }

  /** Exhausted writes after the last committed one, counted over the whole history. */
  ghost function ExhaustedSinceSuccess(ws: seq<Write>, before: nat): nat
    requires forall w :: w in ws ==> w.outcomes != []
  {
    if ws == [] then before
    else
      var w := ws[|ws|-1];
      if w.Last().Committed? then 0
      else ExhaustedSinceSuccess(ws[..|ws|-1], before) + if w.Last().Transient() then 1 else 0
  }

  lemma {:induction false} StreakSnoc(ws: seq<Write>, w: Write, streak: Streak)
    requires forall v :: v in ws + [w] ==> v.outcomes != []
    ensures (forall v :: v in ws ==> v.outcomes != [])
    ensures w.outcomes != []
    ensures StreakOf(ws + [w], streak) == StreakAfter(StreakOf(ws, streak), w.Last())
  {
    assert w in ws + [w];
    assert forall v :: v in ws ==> v in ws + [w];
    if ws == [] {
      assert ws + [w] == [w];
      assert StreakOf([w], streak) == StreakOf([w][1..], StreakAfter(streak, w.Last()));
    } else {
      assert (ws + [w])[1..] == ws[1..] + [w];
      StreakSnoc(ws[1..], w, StreakAfter(streak, ws[0].Last()));
    }
  }

  /** The streak is the number of exhausted writes since the last success. */
  lemma {:induction false} StreakCountsExhausted(ws: seq<Write>, before: nat)
    requires forall w :: w in ws ==> w.outcomes != []
    ensures StreakOf(ws, Some(before)) == Some(ExhaustedSinceSuccess(ws, before))
    decreases |ws|
  {
    if ws != [] {
      var init, w := ws[..|ws|-1], ws[|ws|-1];
      assert ws == init + [w];
      StreakCountsExhausted(init, before);
      StreakSnoc(init, w, Some(before));
    }
  }

  ghost predicate AllTransient(ws: seq<Write>) {
    forall w, i :: w in ws && 0 <= i < |w.outcomes| ==> w.outcomes[i].Transient()
  }

  /** Against a dead database, n writes from streak s make exactly n attempts plus two
      more for each write before the circuit opens. */
  lemma {:induction false} DeadDatabaseAttempts(ws: seq<Write>, s: nat)
    requires LegalHistory(ws, Some(s)) && AllTransient(ws)
    requires forall w :: w in ws ==> !w.callerTx
    ensures Attempts(ws) == |ws| + 2 * Min(|ws|, if s < WRITE_CIRCUIT_TRIP then WRITE_CIRCUIT_TRIP - s else 0)
  {
    if ws != [] {
      assert ws[0] in ws;
      var last := ws[0].Last();
      assert last.Transient() by {
        assert ws[0].outcomes[|ws[0].outcomes|-1].Transient();
      }
      DeadDatabaseAttempts(ws[1..], s + 1);
    }
  }

  function Min(a: nat, b: nat): nat {
    if a < b then a else b
  }

  /** From a closed circuit, n writes against a dead database make at most n + 10. */
  lemma DeadDatabaseBound(ws: seq<Write>, s: nat)
    requires s < WRITE_CIRCUIT_TRIP && LegalHistory(ws, Some(s)) && AllTransient(ws)
    requires forall w :: w in ws ==> !w.callerTx
    ensures Attempts(ws) <= |ws| + 10
  {
    DeadDatabaseAttempts(ws, s);
  }

  /** Once open, the circuit grants every write one attempt until one commits. */
  lemma {:induction false} OpenCircuitFailsFast(ws: seq<Write>, streak: Streak)
    requires LegalHistory(ws, streak) && CircuitOpen(streak)
    requires forall i :: 0 <= i < |ws| - 1 ==> ws[i].outcomes != [] && !ws[i].Last().Committed?
    ensures forall i :: 0 <= i < |ws| ==> |ws[i].outcomes| == 1
  {
    if |ws| > 1 {
      assert !ws[0].Last().Committed?;
      OpenCircuitFailsFast(ws[1..], StreakAfter(streak, ws[0].Last()));
      assert forall i :: 1 <= i < |ws| ==> ws[i] == ws[1..][i-1];
    }
  }
}
