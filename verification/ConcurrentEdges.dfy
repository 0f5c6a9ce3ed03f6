/** store/relationships.go: several direct writers, each running its UPDATE and its INSERT
    as two separate statements, in any interleaving. */
module ConcurrentEdges {
  import opened Wrappers
  import opened Relationships

  /** Where a writer stands: before its UPDATE, between an UPDATE that matched nothing
      and its INSERT, or finished. */
  datatype Pc = Start | NeedInsert | Done

  datatype Writer = Writer(call: Call, pc: Pc)

  datatype State = State(rows: seq<Row>, writers: seq<Writer>)

  /** One statement of writer w. */
  function Step(s: State, w: nat): State {
    if w >= |s.writers| then s
    else
      var c := s.writers[w].call;
      match s.writers[w].pc
      case Start =>
        var pc := if HasKey(s.rows, c.e.key) then Done else NeedInsert;
        State(Updated(s.rows, c.e.key, c.e.attrs, c.at), s.writers[w := Writer(c, pc)])
      case NeedInsert =>
        State(Inserted(s.rows, NewRow(c.e, c.at)), s.writers[w := Writer(c, Done)])
      case Done => s
  }

  /** The statements of a schedule, in order. */
  function Steps(s: State, schedule: seq<nat>): State {
    if schedule == [] then s
    else Step(Steps(s, schedule[..|schedule|-1]), schedule[|schedule|-1])
  }

  /** The call a statement brings into effect: an UPDATE that matches its row, or an
      INSERT that finds none. */
  function TakesEffect(s: State, w: nat): Option<Call> {
    if w >= |s.writers| then None
    else
      var c := s.writers[w].call;
      match s.writers[w].pc
      case Start => if HasKey(s.rows, c.e.key) then Some(c) else None
      case NeedInsert => if HasKey(s.rows, c.e.key) then None else Some(c)
      case Done => None
  }

  function Effective(s: State, schedule: seq<nat>): seq<Call> {
    if schedule == [] then []
    else
      var before := Effective(s, schedule[..|schedule|-1]);
      var now := TakesEffect(Steps(s, schedule[..|schedule|-1]), schedule[|schedule|-1]);
      if now.Some? then before + [now.value] else before
  }

  predicate Fresh(s: State) {
    OnePerKey(s.rows) && forall w :: 0 <= w < |s.writers| ==> s.writers[w].pc == Start
  }

  lemma StepRows(s: State, w: nat)
    ensures var c := TakesEffect(s, w);
      Step(s, w).rows == if c == None then s.rows else Upsert(s.rows, c.value.e, c.value.at)
  {
    if w < |s.writers| {
      var c := s.writers[w].call;
      if !HasKey(s.rows, c.e.key) {
        UpdatedNothing(s.rows, c.e.key, c.e.attrs, c.at);
      }
    }
  }

  /** Whatever the interleaving, the table is the one a serial run of the effective
      calls leaves. */
  lemma {:induction false} InterleavingIsSerial(s: State, schedule: seq<nat>)
    ensures Steps(s, schedule).rows == UpsertAll(s.rows, Effective(s, schedule))
  {
    if schedule != [] {
      var init, w := schedule[..|schedule|-1], schedule[|schedule|-1];
      InterleavingIsSerial(s, init);
      StepRows(Steps(s, init), w);
      var now := TakesEffect(Steps(s, init), w);
      if now.Some? {
        assert Effective(s, schedule)[..|Effective(s, init)|] == Effective(s, init);
      }
    }
  }

  lemma {:induction false} OneRowPerKey(s: State, schedule: seq<nat>, k: Key)
    requires Fresh(s)
    ensures OnePerKey(Steps(s, schedule).rows)
    ensures var cs := Effective(s, schedule);
      (FirstFor(cs, k).Some? <==> LastFor(cs, k).Some?) &&
      Lookup(Steps(s, schedule).rows, k) == Merged(Lookup(s.rows, k), k, FirstFor(cs, k), LastFor(cs, k))
  {
    InterleavingIsSerial(s, schedule);
    RunExact(s.rows, Effective(s, schedule), k);
  }

  // ---------------------------------------------------------- who is present

  predicate IsDone(s: State, w: int) {
    0 <= w < |s.writers| && s.writers[w].pc == Done
  }

  ghost predicate SomeDone(s: State, k: Key) {
    exists w :: IsDone(s, w) && s.writers[w].call.e.key == k
  }

  predicate SameCalls(s: State, t: State) {
    |s.writers| == |t.writers| && forall w :: 0 <= w < |s.writers| ==> s.writers[w].call == t.writers[w].call
  }

  lemma StepKeys(s: State, w: nat, k: Key)
    ensures SameCalls(s, Step(s, w))
    ensures HasKey(Step(s, w).rows, k) ==> HasKey(s.rows, k) || SomeDone(Step(s, w), k)
    ensures HasKey(s.rows, k) ==> HasKey(Step(s, w).rows, k)
    ensures SomeDone(s, k) ==> SomeDone(Step(s, w), k)
    ensures SomeDone(Step(s, w), k) && !SomeDone(s, k) ==> HasKey(Step(s, w).rows, k)
  {
    var t := Step(s, w);
    StepRows(s, w);
    var c := TakesEffect(s, w);
    if c.Some? {
      LookupUpsert(s.rows, c.value.e, c.value.at, k);
      assert IsDone(t, w);
    }
    forall v | IsDone(s, v) ensures IsDone(t, v) && t.writers[v].call == s.writers[v].call {
    }
    if SomeDone(t, k) && !SomeDone(s, k) {
      var v :| IsDone(t, v) && t.writers[v].call.e.key == k;
      assert !IsDone(s, v);
    }
  }

  /** At every point of every interleaving a key is present exactly when it was there at
      the start or some writer of it has finished. */
  lemma {:induction false} FinishedKeysPresent(s: State, schedule: seq<nat>, k: Key)
    requires Fresh(s)
    ensures SameCalls(s, Steps(s, schedule))
    ensures HasKey(Steps(s, schedule).rows, k) <==> HasKey(s.rows, k) || SomeDone(Steps(s, schedule), k)
  {
    if schedule != [] {
      var init, w := schedule[..|schedule|-1], schedule[|schedule|-1];
      FinishedKeysPresent(s, init, k);
      StepKeys(Steps(s, init), w, k);
    }
  }

  // ------------------------------------------------------- what can be lost

  /** No writer of a key that was there at the start ever reaches its INSERT, so every
      one that finishes took effect. */
  lemma {:induction false} ExistingKeyLosesNothing(s: State, schedule: seq<nat>, w: nat)
    requires Fresh(s) && w < |s.writers| && HasKey(s.rows, s.writers[w].call.e.key)
    ensures SameCalls(s, Steps(s, schedule))
    ensures var t := Steps(s, schedule);
      t.writers[w].pc != NeedInsert && (t.writers[w].pc == Done ==> s.writers[w].call in Effective(s, schedule))
  {
    FinishedKeysPresent(s, schedule, s.writers[w].call.e.key);
    if schedule != [] {
      var init := schedule[..|schedule|-1];
      FinishedKeysPresent(s, init, s.writers[w].call.e.key);
      ExistingKeyLosesNothing(s, init, w);
    }
  }

  /** Statement w of this state runs an UPDATE before the writer's key exists. */
  predicate MissesUpdate(s: State, w: nat) {
    w < |s.writers| && s.writers[w].pc == Start && !HasKey(s.rows, s.writers[w].call.e.key)
  }

  /** Statement w of this state runs an INSERT after the writer's key exists. */
  predicate MissesInsert(s: State, w: nat) {
    w < |s.writers| && s.writers[w].pc == NeedInsert && HasKey(s.rows, s.writers[w].call.e.key)
  }

  predicate Takes(s: State, w: nat) {
    TakesEffect(s, w).Some?
  }

  /** Statement i of the schedule is writer w's and has the property in the state it met. */
  ghost predicate RunsWith(s: State, schedule: seq<nat>, w: nat, does: (State, nat) -> bool, i: nat) {
    i < |schedule| && schedule[i] == w && does(Steps(s, schedule[..i]), w)
  }

  ghost predicate Ran(s: State, schedule: seq<nat>, w: nat, does: (State, nat) -> bool) {
    exists i :: RunsWith(s, schedule, w, does, i)
  }

  lemma RanSnoc(s: State, schedule: seq<nat>, w: nat, does: (State, nat) -> bool)
    requires schedule != []
    ensures var init := schedule[..|schedule|-1];
      Ran(s, schedule, w, does) <==> Ran(s, init, w, does) || (schedule[|schedule|-1] == w && does(Steps(s, init), w))
  {
    hide Steps;
    var init, n := schedule[..|schedule|-1], |schedule| - 1;
    forall i | 0 <= i < n
      ensures RunsWith(s, schedule, w, does, i) <==> RunsWith(s, init, w, does, i)
    {
      assert schedule[..i] == init[..i];
    }
    if Ran(s, schedule, w, does) {
      var i :| RunsWith(s, schedule, w, does, i);
    }
    if Ran(s, init, w, does) {
      var i :| RunsWith(s, init, w, does, i);
      assert RunsWith(s, schedule, w, does, i);
    }
    if schedule[n] == w && does(Steps(s, init), w) {
      assert RunsWith(s, schedule, w, does, n);
    }
  }

  /** What a writer has done so far, by where it stands. */
  ghost predicate DoneSoFar(s: State, schedule: seq<nat>, w: nat)
    requires w < |Steps(s, schedule).writers|
  {
    var took, early, late := Ran(s, schedule, w, Takes), Ran(s, schedule, w, MissesUpdate), Ran(s, schedule, w, MissesInsert);
    match Steps(s, schedule).writers[w].pc
    case Start => !took && !early && !late
    case NeedInsert => !took && early && !late
    case Done => took != (early && late) && (late ==> early)
  }

  lemma {:induction false} WriterStands(s: State, schedule: seq<nat>, w: nat)
    requires Fresh(s) && w < |s.writers|
    ensures SameCalls(s, Steps(s, schedule)) && DoneSoFar(s, schedule, w)
  {
    FinishedKeysPresent(s, schedule, s.writers[w].call.e.key);
    if schedule != [] {
      var init := schedule[..|schedule|-1];
      WriterStands(s, init, w);
      RanSnoc(s, schedule, w, Takes);
      RanSnoc(s, schedule, w, MissesUpdate);
      RanSnoc(s, schedule, w, MissesInsert);
      hide Ran, Lookup, Updated, Inserted, Fresh, HasKey;
    }
  }

  /** For any number of writers and any schedule: a finished writer's call is lost if and
      only if its UPDATE ran before the key existed and its INSERT after. */
  lemma LostExactly(s: State, schedule: seq<nat>, w: nat)
    requires Fresh(s) && IsDone(Steps(s, schedule), w)
    ensures !Ran(s, schedule, w, Takes) <==> Ran(s, schedule, w, MissesUpdate) && Ran(s, schedule, w, MissesInsert)
  {
    hide Ran, Fresh;
    SameWriters(s, schedule);
    WriterStands(s, schedule, w);
  }

  lemma {:induction false} SameWriters(s: State, schedule: seq<nat>)
    ensures SameCalls(s, Steps(s, schedule))
  {
    if schedule != [] {
      SameWriters(s, schedule[..|schedule|-1]);
      StepKeys(Steps(s, schedule[..|schedule|-1]), schedule[|schedule|-1], Key("", "", ""));
    }
  }

  /** The effective calls are those of the writers that took effect. */
  lemma {:induction false} EffectiveExact(s: State, schedule: seq<nat>, c: Call)
    ensures c in Effective(s, schedule) <==> exists w :: 0 <= w < |s.writers| && s.writers[w].call == c && Ran(s, schedule, w, Takes)
  {
    SameWriters(s, schedule);
    if schedule != [] {
      var init, v := schedule[..|schedule|-1], schedule[|schedule|-1];
      EffectiveExact(s, init, c);
      SameWriters(s, init);
      forall w | 0 <= w < |s.writers|
        ensures Ran(s, schedule, w, Takes) <==> Ran(s, init, w, Takes) || (v == w && Takes(Steps(s, init), w))
      {
        RanSnoc(s, schedule, w, Takes);
      }
      hide Ran, HasKey;
      assert Takes(Steps(s, init), v) ==> v < |s.writers| && TakesEffect(Steps(s, init), v).value == s.writers[v].call;
    }
  }

  /** A key that turns up was there at the start or some writer of it took effect. */
  lemma {:induction false} KeyWasTaken(s: State, schedule: seq<nat>, k: Key) returns (w: nat)
    requires !HasKey(s.rows, k) && HasKey(Steps(s, schedule).rows, k)
    ensures w < |s.writers| && s.writers[w].call.e.key == k && Ran(s, schedule, w, Takes)
  {
    var init, v := schedule[..|schedule|-1], schedule[|schedule|-1];
    SameWriters(s, init);
    if HasKey(Steps(s, init).rows, k) {
      w := KeyWasTaken(s, init, k);
    } else {
      w := v;
      StepRows(Steps(s, init), v);
      var c := TakesEffect(Steps(s, init), v);
      if c.Some? {
        LookupUpsert(Steps(s, init).rows, c.value.e, c.value.at, k);
      }
    }
    hide HasKey, Ran;
    RanSnoc(s, schedule, w, Takes);
  }

  lemma PresentKeyIsMet(s: State, schedule: seq<nat>, w: nat)
    requires Fresh(s) && w < |s.writers|
    ensures HasKey(s.rows, s.writers[w].call.e.key) ==> !Ran(s, schedule, w, MissesUpdate)
  {
    forall i: nat | HasKey(s.rows, s.writers[w].call.e.key) ensures !RunsWith(s, schedule, w, MissesUpdate, i) {
      if i < |schedule| {
        FinishedKeysPresent(s, schedule[..i], s.writers[w].call.e.key);
        SameWriters(s, schedule[..i]);
      }
    }
  }

  /** A lost call is lost to another writer of the same key that took effect. */
  lemma LostToAnother(s: State, schedule: seq<nat>, w: nat) returns (v: nat)
    requires Fresh(s) && w < |s.writers| && IsDone(Steps(s, schedule), w) && !Ran(s, schedule, w, Takes)
    ensures v != w && v < |s.writers| && s.writers[v].call.e.key == s.writers[w].call.e.key && Ran(s, schedule, v, Takes)
  {
    var k := s.writers[w].call.e.key;
    FinishedKeysPresent(s, schedule, k);
    SameWriters(s, schedule);
    LostExactly(s, schedule, w);
    PresentKeyIsMet(s, schedule, w);
    hide Ran, HasKey, Fresh;
    v := KeyWasTaken(s, schedule, k);
  }

  /** Two writers creating one edge, both past their UPDATE before either inserts. */
  function Race(a: Call, b: Call): State {
    Steps(State([], [Writer(a, Start), Writer(b, Start)]), [0, 1, 0, 1])
  }

  /** The first to insert stands and the other's call is lost, though both finish. The
      outcome is one that running the two calls in turn could leave if and only if their
      directions agree or their contents do. */
  lemma RaceKeepsFirst(a: Call, b: Call)
    requires a.e.key == b.e.key
    ensures Race(a, b) == State([NewRow(a.e, a.at)], [Writer(a, Done), Writer(b, Done)])
    ensures (Race(a, b).rows == UpsertAll([], [a, b]) || Race(a, b).rows == UpsertAll([], [b, a])) <==>
      (Direction(a.e.direction) == Direction(b.e.direction) || (a.e.attrs == b.e.attrs && a.at == b.at))
  {
    RaceRun(a, b);
    SerialPair(a, b);
    SerialPair(b, a);
  }

  lemma SerialPair(a: Call, b: Call)
    requires a.e.key == b.e.key
    ensures UpsertAll([], [a, b]) == [Row(a.e.key, Direction(a.e.direction), b.e.attrs, b.at)]
  {
    assert [a, b][..1] == [a];
    var one := [NewRow(a.e, a.at)];
    assert UpsertAll([], [a]) == one by {
      assert [a][..0] == [];
    }
    assert HasKey(one, b.e.key);
    assert Updated(one, b.e.key, b.e.attrs, b.at) == [Row(a.e.key, Direction(a.e.direction), b.e.attrs, b.at)];
  }

  lemma RaceRun(a: Call, b: Call)
    requires a.e.key == b.e.key
    ensures Race(a, b) == State([NewRow(a.e, a.at)], [Writer(a, Done), Writer(b, Done)])
  {
    var s0 := State([], [Writer(a, Start), Writer(b, Start)]);
    var s1 := State([], [Writer(a, NeedInsert), Writer(b, Start)]);
    var s2 := State([], [Writer(a, NeedInsert), Writer(b, NeedInsert)]);
    var s3 := State([NewRow(a.e, a.at)], [Writer(a, Done), Writer(b, NeedInsert)]);
    var s4 := State([NewRow(a.e, a.at)], [Writer(a, Done), Writer(b, Done)]);
    assert Step(s0, 0) == s1 && Step(s1, 1) == s2 && Step(s2, 0) == s3;
    assert HasKey(s3.rows, b.e.key);
    assert Step(s3, 1) == s4;
    assert Steps(s0, [0]) == s1 by { assert [0][..0] == []; }
    assert Steps(s0, [0, 1]) == s2 by { assert [0, 1][..1] == [0]; }
    assert Steps(s0, [0, 1, 0]) == s3 by { assert [0, 1, 0][..2] == [0, 1]; }
    assert Steps(s0, [0, 1, 0, 1]) == s4 by { assert [0, 1, 0, 1][..3] == [0, 1, 0]; }
  }
}
