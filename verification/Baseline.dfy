/** internal/coverage/baseline.go: the recorded coverage and the ratchet over it. */
module Baseline {
  import opened Coverage
  import opened Summaries
  import Lex
  import opened Sorting

  /** One provider's accepted coverage. */
  datatype Accepted = Accepted(pins: map<string, string>, pairing: bool, percent: real, covered: nat, uncovered: nat,
                               coveredKeys: seq<string>, uncoveredKeys: seq<string>, unexplained: seq<string>)

  type Record = map<string, Accepted>

  // ----------------------------------------------------------- recording

  /** The three lists a record keeps. */
  datatype Part = CoveredKeys | UncoveredKeys | Unexplained

  predicate Belongs(part: Part, r: Row) {
    match part
    case CoveredKeys => r.bucket == Covered
    case UncoveredKeys => r.bucket == Uncovered
    case Unexplained => r.bucket == DiscoOnly && r.reason == UNEXPLAINED
  }

  function NameOf(part: Part, r: Row): string {
    if part == Unexplained then r.discoType else r.key
  }

  function Names(part: Part, rows: seq<Row>): (names: seq<string>)
    ensures forall n :: n in names <==> exists r :: r in rows && Belongs(part, r) && NameOf(part, r) == n
  {
    if rows == [] then []
    else
      var init, last := rows[..|rows|-1], rows[|rows|-1];
      assert forall r :: r in rows <==> r in init || r == last;
      if Belongs(part, last) then Names(part, init) + [NameOf(part, last)] else Names(part, init)
  }

  function Sorted(names: seq<string>): seq<string> {
    StableSort(Lex.Less, names)
  }

  function AcceptedOf(m: Matrix): Accepted {
    Accepted(m.pins, m.pairing, m.summary.percent, m.summary.covered, m.summary.uncovered,
             Sorted(Names(CoveredKeys, m.rows)), Sorted(Names(UncoveredKeys, m.rows)), Sorted(Names(Unexplained, m.rows)))
  }

  /** Later matrices of one provider overwrite earlier ones. */
  function RecordOf(ms: seq<Matrix>): Record {
    if ms == [] then map[]
    else RecordOf(ms[..|ms|-1])[ms[|ms|-1].provider := AcceptedOf(ms[|ms|-1])]
  }

  /** The last matrix of the provider. */
  ghost predicate LastOf(ms: seq<Matrix>, p: string, i: int) {
    0 <= i < |ms| && ms[i].provider == p && forall j :: i < j < |ms| ==> ms[j].provider != p
  }

  lemma {:induction false} LastRecorded(ms: seq<Matrix>, p: string)
    ensures p in RecordOf(ms) <==> exists i :: LastOf(ms, p, i)
    ensures forall i :: LastOf(ms, p, i) ==> RecordOf(ms)[p] == AcceptedOf(ms[i])
  {
    hide AcceptedOf;
    if ms != [] {
      var init, n := ms[..|ms|-1], |ms| - 1;
      LastRecorded(init, p);
      if ms[n].provider == p {
        assert LastOf(ms, p, n);
      } else {
        assert forall i :: LastOf(ms, p, i) <==> LastOf(init, p, i);
      }
    }
  }

  method NewBaseline(ms: seq<Matrix>) returns (b: Record)
    ensures b == RecordOf(ms)
    ensures forall p :: p in b <==> exists i :: LastOf(ms, p, i)
    ensures forall p, i :: LastOf(ms, p, i) ==> b[p] == AcceptedOf(ms[i])
  {
    b := map[];
    for i := 0 to |ms|
      invariant b == RecordOf(ms[..i])
    {
      var m := ms[i];
      var covered, uncovered, unexplained := [], [], [];
      for j := 0 to |m.rows|
        invariant covered == Names(CoveredKeys, m.rows[..j])
        invariant uncovered == Names(UncoveredKeys, m.rows[..j])
        invariant unexplained == Names(Unexplained, m.rows[..j])
      {
        var r := m.rows[j];
        assert m.rows[..j+1][..j] == m.rows[..j];
        if r.bucket == Covered {
          covered := covered + [r.key];
        } else if r.bucket == Uncovered {
          uncovered := uncovered + [r.key];
        } else if r.bucket == DiscoOnly && r.reason == UNEXPLAINED {
          unexplained := unexplained + [r.discoType];
        }
      }
      assert m.rows[..|m.rows|] == m.rows;
      assert ms[..i+1][..i] == ms[..i];
      b := b[m.provider := Accepted(m.pins, m.pairing, m.summary.percent, m.summary.covered, m.summary.uncovered,
                                    Sorted(covered), Sorted(uncovered), Sorted(unexplained))];
    }
    assert ms[..|ms|] == ms;
    hide *;
    forall p
      ensures p in RecordOf(ms) <==> exists i :: LastOf(ms, p, i)
      ensures forall i :: LastOf(ms, p, i) ==> RecordOf(ms)[p] == AcceptedOf(ms[i])
    {
      LastRecorded(ms, p);
    }
  }

  /** The record keeps exactly the names of its rows, as often as they occur, in order. */
  function KeptIn(a: Accepted, part: Part): seq<string> {
    match part
    case CoveredKeys => a.coveredKeys
    case UncoveredKeys => a.uncoveredKeys
    case Unexplained => a.unexplained
  }

  lemma RecordKeepsNames(part: Part, m: Matrix)
    ensures var kept := KeptIn(AcceptedOf(m), part);
      Ordered(Lex.Less, kept) && multiset(kept) == multiset(Names(part, m.rows)) &&
      forall n :: n in kept <==> exists r :: r in m.rows && Belongs(part, r) && NameOf(part, r) == n
  {
    var names := Names(part, m.rows);
    assert KeptIn(AcceptedOf(m), part) == Sorted(names);
    hide AcceptedOf, KeptIn;
    Lex.Orders(names);
    StableSortOrdered(Lex.Less, names);
    SameElements(Sorted(names), names);
  }

  /** Merge overlays a partial run; providers that did not run keep their record. */
  method Merge(prev: Record, run: Record) returns (out: Record)
    ensures out == prev + run
  {
    out := map[];
    var todo := prev.Keys;
    while todo != {}
      invariant todo <= prev.Keys
      invariant out == map p | p in prev && p !in todo :: prev[p]
    {
      var p :| p in todo;
      out := out[p := prev[p]];
      todo := todo - {p};
    }
    assert out == prev;
    todo := run.Keys;
    while todo != {}
      invariant todo <= run.Keys
      invariant out == prev + map p | p in run && p !in todo :: run[p]
    {
      var p :| p in todo;
      out := out[p := run[p]];
      todo := todo - {p};
    }
    assert (map p | p in run && p !in todo :: run[p]) == run;
  }

  // ---------------------------------------------------------------- pins

  /** Go reads a missing key as the empty string. */
  function At(m: map<string, string>, k: string): string {
    if k in m then m[k] else ""
  }

  ghost predicate PinsMatch(a: map<string, string>, b: map<string, string>) {
    |a| == |b| && forall k :: k in a ==> At(b, k) == a[k]
  }

  method MapsEqual(a: map<string, string>, b: map<string, string>) returns (equal: bool)
    ensures equal <==> PinsMatch(a, b)
  {
    if |a| != |b| {
      return false;
    }
    var todo := a.Keys;
    while todo != {}
      invariant todo <= a.Keys
      invariant forall k :: k in a && k !in todo ==> At(b, k) == a[k]
    {
      var k :| k in todo;
      if At(b, k) != a[k] {
        return false;
      }
      todo := todo - {k};
    }
    equal := true;
  }

  lemma SubsetSameSize(a: set<string>, b: set<string>)
    requires a <= b && |a| == |b|
    ensures a == b
  {
    assert |b - a| == 0;
  }

  lemma {:induction false} OutsideKey(s: set<string>) returns (x: string)
    ensures x !in s
  {
    var n := Longest(s);
    x := seq(n + 1, _ => 'x');
    assert |x| == n + 1;
  }

  lemma {:induction false} Longest(s: set<string>) returns (n: nat)
    ensures forall x :: x in s ==> |x| <= n
  {
    n := 0;
    if s != {} {
      var x :| x in s;
      n := Longest(s - {x});
      n := if |x| > n then |x| else n;
    }
  }

  lemma EmptyPinFools(a: map<string, string>, k: string)
    requires k in a && a[k] == ""
    ensures exists b :: PinsMatch(a, b) && a != b
  {
    var x := OutsideKey(a.Keys);
    var b := (a - {k})[x := "v"];
    assert b.Keys == a.Keys - {k} + {x};
    assert |b.Keys| == |a.Keys|;
    assert |a| == |a.Keys| && |b| == |b.Keys|;
    assert PinsMatch(a, b) && x in b && x !in a;
  }

  /** mapsEqual decides equality of the pins a exactly when no pin of a is empty. */
  lemma PinsMatchExact(a: map<string, string>)
    ensures (forall b :: PinsMatch(a, b) <==> a == b) <==> (forall k :: k in a ==> a[k] != "")
  {
    if forall k :: k in a ==> a[k] != "" {
      forall b ensures PinsMatch(a, b) <==> a == b {
        if PinsMatch(a, b) {
          assert a.Keys <= b.Keys;
          assert |a| == |a.Keys| && |b| == |b.Keys|;
          SubsetSameSize(a.Keys, b.Keys);
          assert a == b;
        }
      }
    } else {
      var k :| k in a && a[k] == "";
      EmptyPinFools(a, k);
    }
  }

  // --------------------------------------------------------------- drift

  datatype Kind = Regressed | PercentDrop | NewUnexplained | PairingMode | NoBaseline
    | NewSince | GoneSince | DenominatorCut | PinsChanged

  datatype Drift = Drift(provider: string, kind: Kind, key: string, detail: string) {
    predicate Fatal() {
      kind in {Regressed, PercentDrop, NewUnexplained, NoBaseline, PairingMode}
    }
  }

  /** The five passes over key lists. */
  datatype Pass = NowUncovered | NowCovered | WasCovered | WasUncovered | NowUnexplained

  predicate Knows(pb: Accepted, k: string) {
    k in pb.coveredKeys || k in pb.uncoveredKeys
  }

  function KeysOf(pass: Pass, pb: Accepted, cur: Accepted): seq<string> {
    match pass
    case NowUncovered => cur.uncoveredKeys
    case NowCovered => cur.coveredKeys
    case WasCovered => pb.coveredKeys
    case WasUncovered => pb.uncoveredKeys
    case NowUnexplained => cur.unexplained
  }

  /** What one key of one pass reports. */
  function Reports(pass: Pass, p: string, pb: Accepted, cur: Accepted, same: bool, k: string): seq<Drift> {
    match pass
    case NowUncovered =>
      if k in pb.coveredKeys then [Drift(p, Regressed, k, "")]
      else if !Knows(pb, k) then [Drift(p, NewSince, k, "uncovered")]
      else []
    case NowCovered => if Knows(pb, k) then [] else [Drift(p, NewSince, k, "covered")]
    case WasCovered =>
      if Knows(cur, k) then []
      else if same then [Drift(p, Regressed, k, "no longer a candidate")]
      else [Drift(p, GoneSince, k, "")]
    case WasUncovered => if Knows(cur, k) then [] else [Drift(p, DenominatorCut, k, "")]
    case NowUnexplained => if k in pb.unexplained then [] else [Drift(p, NewUnexplained, k, "")]
  }

  function Walked(pass: Pass, p: string, pb: Accepted, cur: Accepted, same: bool, keys: seq<string>): seq<Drift> {
    if keys == [] then []
    else Walked(pass, p, pb, cur, same, keys[..|keys|-1]) + Reports(pass, p, pb, cur, same, keys[|keys|-1])
  }

  function Listed(pass: Pass, p: string, pb: Accepted, cur: Accepted, same: bool): seq<Drift> {
    Walked(pass, p, pb, cur, same, KeysOf(pass, pb, cur))
  }

  ghost function DriftsFor(b: Record, m: Matrix): seq<Drift> {
    var p, cur := m.provider, AcceptedOf(m);
    if p !in b then [Drift(p, NoBaseline, "", "")]
    else if b[p].pairing != cur.pairing then [Drift(p, PairingMode, "", "")]
    else ProviderDrifts(p, b[p], cur, PinsMatch(b[p].pins, cur.pins))
  }

  function ProviderDrifts(p: string, pb: Accepted, cur: Accepted, same: bool): seq<Drift> {
    (if same then [] else [Drift(p, PinsChanged, "", "")])
    + Listed(NowUncovered, p, pb, cur, same) + Listed(NowCovered, p, pb, cur, same)
    + Listed(WasCovered, p, pb, cur, same) + Listed(WasUncovered, p, pb, cur, same)
    + Listed(NowUnexplained, p, pb, cur, same)
    + if same && cur.percent < pb.percent then [Drift(p, PercentDrop, "", "")] else []
  }

  ghost function Drifts(b: Record, ms: seq<Matrix>): seq<Drift> {
    if ms == [] then [] else Drifts(b, ms[..|ms|-1]) + DriftsFor(b, ms[|ms|-1])
  }

  // ------------------------------------------------- which drifts are reported

  /** Some row of the matrix stands in that bucket under that key. */
  ghost predicate HasRow(m: Matrix, b: Bucket, k: string) {
    exists r :: r in m.rows && r.bucket == b && r.key == k
  }

  /** Some type of the matrix is left over and unexplained. */
  ghost predicate HasUnexplained(m: Matrix, t: string) {
    exists r :: r in m.rows && r.bucket == DiscoOnly && r.reason == "unexplained" && r.discoType == t
  }

  /** The matrix of a provider owes this drift to the baseline. */
  ghost predicate Owes(b: Record, m: Matrix, d: Drift) {
    d.provider == m.provider &&
    if m.provider !in b then d == Drift(m.provider, NoBaseline, "", "")
    else if b[m.provider].pairing != m.pairing then d == Drift(m.provider, PairingMode, "", "")
    else OwesUnder(b[m.provider], m, d)
  }

  ghost predicate OwesUnder(pb: Accepted, m: Matrix, d: Drift) {
    var same, k := PinsMatch(pb.pins, m.pins), d.key;
    match d.kind
    case Regressed =>
      k in pb.coveredKeys &&
      if d.detail == "" then HasRow(m, Uncovered, k)
      else d.detail == "no longer a candidate" && same && !HasRow(m, Covered, k) && !HasRow(m, Uncovered, k)
    case NewSince =>
      k !in pb.coveredKeys && k !in pb.uncoveredKeys &&
      ((d.detail == "uncovered" && HasRow(m, Uncovered, k)) || (d.detail == "covered" && HasRow(m, Covered, k)))
    case GoneSince => d.detail == "" && !same && k in pb.coveredKeys && !HasRow(m, Covered, k) && !HasRow(m, Uncovered, k)
    case DenominatorCut => d.detail == "" && k in pb.uncoveredKeys && !HasRow(m, Covered, k) && !HasRow(m, Uncovered, k)
    case NewUnexplained => d.detail == "" && k !in pb.unexplained && HasUnexplained(m, k)
    case PinsChanged => d.detail == "" && k == "" && !same
    case PercentDrop => d.detail == "" && k == "" && same && m.summary.percent < pb.percent
    case NoBaseline => false
    case PairingMode => false
  }

  lemma {:induction false} WalkedExact(pass: Pass, p: string, pb: Accepted, cur: Accepted, same: bool, keys: seq<string>, d: Drift)
    ensures d in Walked(pass, p, pb, cur, same, keys) <==> exists k :: k in keys && d in Reports(pass, p, pb, cur, same, k)
  {
    if keys != [] {
      var init, last := keys[..|keys|-1], keys[|keys|-1];
      WalkedExact(pass, p, pb, cur, same, init, d);
      hide Reports;
      assert keys == init + [last];
      assert forall k :: k in keys <==> k in init || k == last;
    }
  }

  /** Every report of a key is about that key. */
  lemma ListedExact(pass: Pass, p: string, pb: Accepted, cur: Accepted, same: bool, d: Drift)
    ensures d in Listed(pass, p, pb, cur, same) <==>
      d.key in KeysOf(pass, pb, cur) && d in Reports(pass, p, pb, cur, same, d.key)
  {
    WalkedExact(pass, p, pb, cur, same, KeysOf(pass, pb, cur), d);
    forall k | d in Reports(pass, p, pb, cur, same, k) ensures d.key == k {
    }
    hide Reports;
  }

  lemma RecordedRows(m: Matrix, k: string)
    ensures k in AcceptedOf(m).coveredKeys <==> HasRow(m, Covered, k)
    ensures k in AcceptedOf(m).uncoveredKeys <==> HasRow(m, Uncovered, k)
    ensures k in AcceptedOf(m).unexplained <==> HasUnexplained(m, k)
    ensures AcceptedOf(m).pins == m.pins && AcceptedOf(m).pairing == m.pairing && AcceptedOf(m).percent == m.summary.percent
    ensures AcceptedOf(m).covered == m.summary.covered && AcceptedOf(m).uncovered == m.summary.uncovered
  {
    RecordKeepsNames(CoveredKeys, m);
    RecordKeepsNames(UncoveredKeys, m);
    RecordKeepsNames(Unexplained, m);
    hide Sorted, Names, Ordered;
  }

  lemma ProviderDriftsExact(pb: Accepted, m: Matrix, d: Drift)
    ensures d in ProviderDrifts(m.provider, pb, AcceptedOf(m), PinsMatch(pb.pins, m.pins)) <==>
      d.provider == m.provider && OwesUnder(pb, m, d)
  {
    var p, cur, same := m.provider, AcceptedOf(m), PinsMatch(pb.pins, m.pins);
    RecordedRows(m, d.key);
    ListedExact(NowUncovered, p, pb, cur, same, d);
    ListedExact(NowCovered, p, pb, cur, same, d);
    ListedExact(WasCovered, p, pb, cur, same, d);
    ListedExact(WasUncovered, p, pb, cur, same, d);
    ListedExact(NowUnexplained, p, pb, cur, same, d);
    hide Listed, AcceptedOf, PinsMatch, HasRow, HasUnexplained;
  }

  lemma DriftsForExact(b: Record, m: Matrix, d: Drift)
    ensures d in DriftsFor(b, m) <==> Owes(b, m, d)
  {
    RecordedRows(m, d.key);
    if m.provider in b {
      ProviderDriftsExact(b[m.provider], m, d);
    }
    hide AcceptedOf, ProviderDrifts, OwesUnder, PinsMatch, HasRow, HasUnexplained;
  }

  /** A drift is reported exactly when some matrix of the run owes it. */
  lemma {:induction false} DriftsExact(b: Record, ms: seq<Matrix>, d: Drift)
    ensures d in Drifts(b, ms) <==> exists m :: m in ms && Owes(b, m, d)
  {
    if ms != [] {
      var init, last := ms[..|ms|-1], ms[|ms|-1];
      DriftsExact(b, init, d);
      DriftsForExact(b, last, d);
      hide DriftsFor, Owes;
      assert ms == init + [last];
      assert forall m :: m in ms <==> m in init || m == last;
    }
  }

  /** Exactly these kinds fail the run. */
  lemma FatalExact(d: Drift)
    ensures d.Fatal() <==> d.kind != NewSince && d.kind != GoneSince && d.kind != DenominatorCut && d.kind != PinsChanged
  {
  }

  lemma WalkedSnoc(pass: Pass, p: string, pb: Accepted, cur: Accepted, same: bool, keys: seq<string>, i: nat)
    requires i < |keys|
    ensures Walked(pass, p, pb, cur, same, keys[..i+1]) ==
      Walked(pass, p, pb, cur, same, keys[..i]) + Reports(pass, p, pb, cur, same, keys[i])
  {
    assert keys[..i+1][..i] == keys[..i];
  }

  /** The run's uncovered keys: regressions, and keys the baseline never saw. */
  method CompareUncovered(p: string, pb: Accepted, cur: Accepted, same: bool, known: set<string>) returns (out: seq<Drift>)
    requires forall k :: k in known <==> Knows(pb, k)
    ensures out == Listed(NowUncovered, p, pb, cur, same)
  {
    out := [];
    for i := 0 to |cur.uncoveredKeys|
      invariant out == Walked(NowUncovered, p, pb, cur, same, cur.uncoveredKeys[..i])
    {
      var k := cur.uncoveredKeys[i];
      WalkedSnoc(NowUncovered, p, pb, cur, same, cur.uncoveredKeys, i);
      if k in pb.coveredKeys {
        out := out + [Drift(p, Regressed, k, "")];
      } else if k !in known {
        out := out + [Drift(p, NewSince, k, "uncovered")];
      }
    }
    assert cur.uncoveredKeys[..|cur.uncoveredKeys|] == cur.uncoveredKeys;
  }

  /** The run's covered keys. */
  method CompareCovered(p: string, pb: Accepted, cur: Accepted, same: bool, known: set<string>) returns (out: seq<Drift>)
    requires forall k :: k in known <==> Knows(pb, k)
    ensures out == Listed(NowCovered, p, pb, cur, same)
  {
    out := [];
    for i := 0 to |cur.coveredKeys|
      invariant out == Walked(NowCovered, p, pb, cur, same, cur.coveredKeys[..i])
    {
      var k := cur.coveredKeys[i];
      WalkedSnoc(NowCovered, p, pb, cur, same, cur.coveredKeys, i);
      if k !in known {
        out := out + [Drift(p, NewSince, k, "covered")];
      }
    }
    assert cur.coveredKeys[..|cur.coveredKeys|] == cur.coveredKeys;
  }

  /** The baseline's covered keys that are no longer candidates. */
  method CompareLost(p: string, pb: Accepted, cur: Accepted, same: bool, current: set<string>) returns (out: seq<Drift>)
    requires forall k :: k in current <==> Knows(cur, k)
    ensures out == Listed(WasCovered, p, pb, cur, same)
  {
    out := [];
    for i := 0 to |pb.coveredKeys|
      invariant out == Walked(WasCovered, p, pb, cur, same, pb.coveredKeys[..i])
    {
      var k := pb.coveredKeys[i];
      WalkedSnoc(WasCovered, p, pb, cur, same, pb.coveredKeys, i);
      if k in current {
        continue;
      }
      if same {
        out := out + [Drift(p, Regressed, k, "no longer a candidate")];
      } else {
        out := out + [Drift(p, GoneSince, k, "")];
      }
    }
    assert pb.coveredKeys[..|pb.coveredKeys|] == pb.coveredKeys;
  }

  /** The baseline's uncovered keys that left the universe. */
  method CompareShrunk(p: string, pb: Accepted, cur: Accepted, same: bool, current: set<string>) returns (out: seq<Drift>)
    requires forall k :: k in current <==> Knows(cur, k)
    ensures out == Listed(WasUncovered, p, pb, cur, same)
  {
    out := [];
    for i := 0 to |pb.uncoveredKeys|
      invariant out == Walked(WasUncovered, p, pb, cur, same, pb.uncoveredKeys[..i])
    {
      var k := pb.uncoveredKeys[i];
      WalkedSnoc(WasUncovered, p, pb, cur, same, pb.uncoveredKeys, i);
      if k !in current {
        out := out + [Drift(p, DenominatorCut, k, "")];
      }
    }
    assert pb.uncoveredKeys[..|pb.uncoveredKeys|] == pb.uncoveredKeys;
  }

  /** The run's unexplained types. */
  method CompareUnexplained(p: string, pb: Accepted, cur: Accepted, same: bool) returns (out: seq<Drift>)
    ensures out == Listed(NowUnexplained, p, pb, cur, same)
  {
    out := [];
    for i := 0 to |cur.unexplained|
      invariant out == Walked(NowUnexplained, p, pb, cur, same, cur.unexplained[..i])
    {
      var k := cur.unexplained[i];
      WalkedSnoc(NowUnexplained, p, pb, cur, same, cur.unexplained, i);
      if k !in pb.unexplained {
        out := out + [Drift(p, NewUnexplained, k, "")];
      }
    }
    assert cur.unexplained[..|cur.unexplained|] == cur.unexplained;
  }

  /** The five passes and the percent, for modes that agree. */
  method CompareProvider(p: string, pb: Accepted, cur: Accepted) returns (out: seq<Drift>)
    ensures out == ProviderDrifts(p, pb, cur, PinsMatch(pb.pins, cur.pins))
  {
    hide Listed, PinsMatch;
    var same := MapsEqual(pb.pins, cur.pins);
    out := [];
    if !same {
      out := out + [Drift(p, PinsChanged, "", "")];
    }
    var known := (set k | k in pb.coveredKeys) + (set k | k in pb.uncoveredKeys);
    var current := set k | k in cur.coveredKeys + cur.uncoveredKeys;
    var uncovered := CompareUncovered(p, pb, cur, same, known);
    var covered := CompareCovered(p, pb, cur, same, known);
    var lost := CompareLost(p, pb, cur, same, current);
    var shrunk := CompareShrunk(p, pb, cur, same, current);
    var types := CompareUnexplained(p, pb, cur, same);
    out := out + uncovered + covered + lost + shrunk + types;
    if same && cur.percent < pb.percent {
      out := out + [Drift(p, PercentDrop, "", "")];
    }
  }

  method CompareBaseline(b: Record, ms: seq<Matrix>) returns (out: seq<Drift>)
    ensures out == Drifts(b, ms)
    ensures forall d :: d in out <==> exists m :: m in ms && Owes(b, m, d)
  {
    forall d ensures d in Drifts(b, ms) <==> exists m :: m in ms && Owes(b, m, d) {
      DriftsExact(b, ms, d);
    }
    hide AcceptedOf, ProviderDrifts, Owes;
    out := [];
    for i := 0 to |ms|
      invariant out == Drifts(b, ms[..i])
    {
      var p := ms[i].provider;
      assert ms[..i+1][..i] == ms[..i];
      if p !in b {
        out := out + [Drift(p, NoBaseline, "", "")];
        continue;
      }
      var run := NewBaseline([ms[i]]);
      RecordOne(ms[i]);
      var pb, cur := b[p], run[p];
      if pb.pairing != cur.pairing {
        out := out + [Drift(p, PairingMode, "", "")];
        continue;
      }
      var found := CompareProvider(p, pb, cur);
      out := out + found;
    }
    assert ms[..|ms|] == ms;
  }

  lemma RecordOne(m: Matrix)
    ensures RecordOf([m]) == map[m.provider := AcceptedOf(m)]
  {
    assert [m][..0] == [];
  }

  // ------------------------------------------------------------ the ratchet

  ghost predicate NoneFatal(ds: seq<Drift>) {
    forall d :: d in ds ==> !d.Fatal()
  }

  /** What the ratchet demands of one provider. */
  ghost predicate Passes(pb: Accepted, cur: Accepted) {
    && pb.pairing == cur.pairing
    && (forall k :: k in pb.coveredKeys ==> k !in cur.uncoveredKeys)
    && (forall t :: t in cur.unexplained ==> t in pb.unexplained)
    && (PinsMatch(pb.pins, cur.pins) ==> KeepsCandidates(pb, cur) && cur.percent >= pb.percent)
  }

  predicate KeepsCandidates(pb: Accepted, cur: Accepted) {
    forall k :: k in pb.coveredKeys ==> Knows(cur, k)
  }

  lemma {:induction false} WalkedQuiet(pass: Pass, p: string, pb: Accepted, cur: Accepted, same: bool, keys: seq<string>)
    ensures NoneFatal(Walked(pass, p, pb, cur, same, keys)) <==>
      forall k :: k in keys ==> NoneFatal(Reports(pass, p, pb, cur, same, k))
  {
    if keys != [] {
      var init, last := keys[..|keys|-1], keys[|keys|-1];
      hide Reports;
      WalkedQuiet(pass, p, pb, cur, same, init);
      var a, b := Walked(pass, p, pb, cur, same, init), Reports(pass, p, pb, cur, same, last);
      JoinQuiet(a, b);
      assert keys == init + [last];
      assert forall k :: k in keys <==> k in init || k == last;
    }
  }

  lemma JoinQuiet(a: seq<Drift>, b: seq<Drift>)
    ensures NoneFatal(a + b) <==> NoneFatal(a) && NoneFatal(b)
  {
    assert forall d :: d in a + b <==> d in a || d in b;
  }

  lemma OneQuiet(d: Drift)
    ensures NoneFatal([d]) <==> !d.Fatal()
  {
    assert d in [d];
  }

  ghost predicate KeyQuiet(pass: Pass, pb: Accepted, cur: Accepted, same: bool, k: string) {
    match pass
    case NowUncovered => k !in pb.coveredKeys
    case NowCovered => true
    case WasCovered => same ==> Knows(cur, k)
    case WasUncovered => true
    case NowUnexplained => k in pb.unexplained
  }

  lemma ReportQuiet(pass: Pass, p: string, pb: Accepted, cur: Accepted, same: bool, k: string)
    ensures NoneFatal(Reports(pass, p, pb, cur, same, k)) <==> KeyQuiet(pass, pb, cur, same, k)
  {
    var r := Reports(pass, p, pb, cur, same, k);
    if r != [] {
      OneQuiet(r[0]);
      assert r == [r[0]];
    }
  }

  lemma PassQuiet(pass: Pass, p: string, pb: Accepted, cur: Accepted, same: bool)
    ensures NoneFatal(Listed(pass, p, pb, cur, same)) <==>
      forall k :: k in KeysOf(pass, pb, cur) ==> KeyQuiet(pass, pb, cur, same, k)
  {
    hide Reports, KeyQuiet, KeysOf;
    var keys := KeysOf(pass, pb, cur);
    WalkedQuiet(pass, p, pb, cur, same, keys);
    forall k ensures NoneFatal(Reports(pass, p, pb, cur, same, k)) <==> KeyQuiet(pass, pb, cur, same, k) {
      ReportQuiet(pass, p, pb, cur, same, k);
    }
  }

  ghost predicate AllQuiet(p: string, pb: Accepted, cur: Accepted, same: bool) {
    && NoneFatal(Listed(NowUncovered, p, pb, cur, same))
    && NoneFatal(Listed(NowCovered, p, pb, cur, same))
    && NoneFatal(Listed(WasCovered, p, pb, cur, same))
    && NoneFatal(Listed(WasUncovered, p, pb, cur, same))
    && NoneFatal(Listed(NowUnexplained, p, pb, cur, same))
  }

  lemma AllQuietExact(p: string, pb: Accepted, cur: Accepted, same: bool)
    ensures AllQuiet(p, pb, cur, same) <==>
      (forall k :: k in pb.coveredKeys ==> k !in cur.uncoveredKeys) &&
      (forall t :: t in cur.unexplained ==> t in pb.unexplained) &&
      (same ==> KeepsCandidates(pb, cur))
  {
    hide Listed;
    PassQuiet(NowUncovered, p, pb, cur, same);
    PassQuiet(NowCovered, p, pb, cur, same);
    PassQuiet(WasCovered, p, pb, cur, same);
    PassQuiet(WasUncovered, p, pb, cur, same);
    PassQuiet(NowUnexplained, p, pb, cur, same);
    assert (forall k :: k in pb.coveredKeys ==> k !in cur.uncoveredKeys) <==>
      (forall k :: k in cur.uncoveredKeys ==> KeyQuiet(NowUncovered, pb, cur, same, k));
    assert (forall k :: k in cur.unexplained ==> k in pb.unexplained) <==>
      (forall k :: k in cur.unexplained ==> KeyQuiet(NowUnexplained, pb, cur, same, k));
    assert (same ==> KeepsCandidates(pb, cur)) <==>
      (forall k :: k in pb.coveredKeys ==> KeyQuiet(WasCovered, pb, cur, same, k));
    assert forall k :: KeyQuiet(NowCovered, pb, cur, same, k) && KeyQuiet(WasUncovered, pb, cur, same, k);
  }

  lemma ProviderQuiet(p: string, pb: Accepted, cur: Accepted, same: bool)
    ensures NoneFatal(ProviderDrifts(p, pb, cur, same)) <==>
      AllQuiet(p, pb, cur, same) && (same ==> cur.percent >= pb.percent)
  {
    hide Listed, NoneFatal;
    var l0 := if same then [] else [Drift(p, PinsChanged, "", "")];
    var l1, l2 := Listed(NowUncovered, p, pb, cur, same), Listed(NowCovered, p, pb, cur, same);
    var l3, l4 := Listed(WasCovered, p, pb, cur, same), Listed(WasUncovered, p, pb, cur, same);
    var l5 := Listed(NowUnexplained, p, pb, cur, same);
    var l6 := if same && cur.percent < pb.percent then [Drift(p, PercentDrop, "", "")] else [];
    JoinQuiet(l0, l1);
    JoinQuiet(l0 + l1, l2);
    JoinQuiet(l0 + l1 + l2, l3);
    JoinQuiet(l0 + l1 + l2 + l3, l4);
    JoinQuiet(l0 + l1 + l2 + l3 + l4, l5);
    JoinQuiet(l0 + l1 + l2 + l3 + l4 + l5, l6);
    NothingQuiet();
    OneQuiet(Drift(p, PinsChanged, "", ""));
    OneQuiet(Drift(p, PercentDrop, "", ""));
  }

  lemma NothingQuiet()
    ensures NoneFatal([])
  {
  }

  /** One provider's comparison is free of fatal drift if and only if the ratchet's
      demands hold. */
  lemma RatchetExact(b: Record, m: Matrix)
    ensures NoneFatal(DriftsFor(b, m)) <==> m.provider in b && Passes(b[m.provider], AcceptedOf(m))
  {
    var p, cur := m.provider, AcceptedOf(m);
    hide AcceptedOf, ProviderDrifts, AllQuiet, PinsMatch, KeepsCandidates;
    if p !in b {
      OneQuiet(Drift(p, NoBaseline, "", ""));
    } else if b[p].pairing != cur.pairing {
      OneQuiet(Drift(p, PairingMode, "", ""));
    } else {
      var pb, same := b[p], PinsMatch(b[p].pins, cur.pins);
      ProviderQuiet(p, pb, cur, same);
      AllQuietExact(p, pb, cur, same);
    }
  }

  /** A whole run passes `--baseline` if and only if each of its providers has a record
      and meets the ratchet's demands. */
  lemma {:induction false} RunPassesExact(b: Record, ms: seq<Matrix>)
    ensures NoneFatal(Drifts(b, ms)) <==>
      forall m :: m in ms ==> m.provider in b && Passes(b[m.provider], AcceptedOf(m))
  {
    hide DriftsFor, Passes, AcceptedOf, NoneFatal;
    if ms == [] {
      NothingQuiet();
    } else {
      var init, last := ms[..|ms|-1], ms[|ms|-1];
      RunPassesExact(b, init);
      RatchetExact(b, last);
      JoinQuiet(Drifts(b, init), DriftsFor(b, last));
      assert ms == init + [last];
      assert forall m :: m in ms <==> m in init || m == last;
    }
  }

  /** No key is both covered and uncovered. */
  predicate Distinct(a: Accepted) {
    forall k :: k in a.coveredKeys ==> k !in a.uncoveredKeys
  }

  /** Under the same pins: every baseline covered key is still covered and nowhere
      uncovered, no type is newly unexplained, the percent did not fall. */
  lemma SamePinsExact(pb: Accepted, cur: Accepted)
    requires PinsMatch(pb.pins, cur.pins)
    ensures Passes(pb, cur) <==>
      && pb.pairing == cur.pairing
      && (forall k :: k in pb.coveredKeys ==> k in cur.coveredKeys && k !in cur.uncoveredKeys)
      && (forall t :: t in cur.unexplained ==> t in pb.unexplained)
      && cur.percent >= pb.percent
    ensures Distinct(cur) ==> (Passes(pb, cur) <==>
      && pb.pairing == cur.pairing
      && (forall k :: k in pb.coveredKeys ==> k in cur.coveredKeys)
      && (forall t :: t in cur.unexplained ==> t in pb.unexplained)
      && cur.percent >= pb.percent)
  {
  }

  // ------------------------------------------------------- its own baseline

  lemma {:induction false} WalkedEmpty(pass: Pass, p: string, pb: Accepted, cur: Accepted, same: bool, keys: seq<string>)
    ensures Walked(pass, p, pb, cur, same, keys) == [] <==>
      forall k :: k in keys ==> Reports(pass, p, pb, cur, same, k) == []
  {
    if keys != [] {
      var init, last := keys[..|keys|-1], keys[|keys|-1];
      hide Reports;
      WalkedEmpty(pass, p, pb, cur, same, init);
      assert keys == init + [last];
      assert forall k :: k in keys <==> k in init || k == last;
    }
  }

  lemma OwnDrifts(p: string, a: Accepted)
    ensures ProviderDrifts(p, a, a, PinsMatch(a.pins, a.pins)) == [] <==> Distinct(a)
  {
    hide Walked;
    WalkedEmpty(NowUncovered, p, a, a, true, a.uncoveredKeys);
    WalkedEmpty(NowCovered, p, a, a, true, a.coveredKeys);
    WalkedEmpty(WasCovered, p, a, a, true, a.coveredKeys);
    WalkedEmpty(WasUncovered, p, a, a, true, a.uncoveredKeys);
    WalkedEmpty(NowUnexplained, p, a, a, true, a.unexplained);
    if exists k :: k in a.uncoveredKeys && k in a.coveredKeys {
      var k :| k in a.uncoveredKeys && k in a.coveredKeys;
      assert Reports(NowUncovered, p, a, a, true, k) != [];
    }
  }

  lemma {:induction false} RecordHas(ms: seq<Matrix>, m: Matrix)
    requires m in ms && forall i, j :: 0 <= i < j < |ms| ==> ms[i].provider != ms[j].provider
    ensures m.provider in RecordOf(ms) && RecordOf(ms)[m.provider] == AcceptedOf(m)
  {
    hide AcceptedOf;
    var init, last := ms[..|ms|-1], ms[|ms|-1];
    assert ms == init + [last];
    if m != last {
      RecordHas(init, m);
    }
  }

  lemma {:induction false} DriftsEmpty(b: Record, ms: seq<Matrix>)
    ensures Drifts(b, ms) == [] <==> forall m :: m in ms ==> DriftsFor(b, m) == []
  {
    hide DriftsFor;
    if ms != [] {
      var init, last := ms[..|ms|-1], ms[|ms|-1];
      DriftsEmpty(b, init);
      assert ms == init + [last];
      assert forall m :: m in ms <==> m in init || m == last;
    }
  }

  /** Comparing a run with the baseline written from it reports nothing at all, if and
      only if no matrix lists a key as both covered and uncovered. */
  lemma OwnBaselineIsQuiet(ms: seq<Matrix>)
    requires forall i, j :: 0 <= i < j < |ms| ==> ms[i].provider != ms[j].provider
    ensures Drifts(RecordOf(ms), ms) == [] <==> forall m :: m in ms ==> Distinct(AcceptedOf(m))
  {
    hide AcceptedOf, Distinct, ProviderDrifts, RecordOf;
    DriftsEmpty(RecordOf(ms), ms);
    forall m | m in ms
      ensures DriftsFor(RecordOf(ms), m) == [] <==> Distinct(AcceptedOf(m))
    {
      RecordHas(ms, m);
      OwnDrifts(m.provider, AcceptedOf(m));
    }
  }

  // --------------------------------------------------------- ratchets in a row

  /** The first step kept the pins, and the two last agree wherever the outer two do. */
  ghost predicate PinsCompose(p0: map<string, string>, p1: map<string, string>, p2: map<string, string>) {
    PinsMatch(p0, p1) && (PinsMatch(p0, p2) ==> PinsMatch(p1, p2))
  }

  /** A matrix a run can have measured: its summary is that of its rows, and no candidate
      of the denominator is listed twice. */
  ghost predicate Measured(m: Matrix) {
    Summarizes(m.rows, m.summary, m.services) && KeysOnce(m.rows)
  }

  predicate KeysOnce(rows: seq<Row>) {
    forall i, j :: 0 <= i < j < |rows| && InDenominator(rows[i]) && InDenominator(rows[j]) ==> rows[i].key != rows[j].key
  }

  /** Passing two ratchets in a row is passing the first directly, for all measured
      matrices with these pins. */
  ghost predicate RatchetsCompose(p0: map<string, string>, p1: map<string, string>, p2: map<string, string>) {
    forall m0, m1, m2 :: PassesTwice(m0, m1, m2, p0, p1, p2) ==> Passes(AcceptedOf(m0), AcceptedOf(m2))
  }

  ghost predicate PassesTwice(m0: Matrix, m1: Matrix, m2: Matrix, p0: map<string, string>, p1: map<string, string>,
                              p2: map<string, string>) {
    && Measured(m0) && Measured(m1) && Measured(m2) && m0.pins == p0 && m1.pins == p1 && m2.pins == p2
    && Passes(AcceptedOf(m0), AcceptedOf(m1)) && Passes(AcceptedOf(m1), AcceptedOf(m2))
  }

  lemma TwoRatchets(a0: Accepted, a1: Accepted, a2: Accepted)
    requires PinsCompose(a0.pins, a1.pins, a2.pins) && Passes(a0, a1) && Passes(a1, a2)
    ensures Passes(a0, a2)
  {
    hide PinsMatch;
    forall k | k in a0.coveredKeys ensures k in a1.coveredKeys {
      assert Knows(a1, k);
    }
  }

  /** A candidate in the only service, under the only rule. */
  function PlainRow(b: Bucket, key: string): Row {
    Row("", key, "", [], b, 0, "", "", [])
  }

  predicate AllPlain(rows: seq<Row>) {
    forall r :: r in rows ==> InDenominator(r) && r == PlainRow(r.bucket, r.key)
  }

  function PlainLines<L>(rows: seq<Row>, l: L): seq<Line<L>> {
    if rows == [] then [] else [LineOf(l, Split(Count(rows, Covered), Count(rows, Uncovered)))]
  }

  function PlainMatrix(pins: map<string, string>, rows: seq<Row>): Matrix {
    var c, u := Count(rows, Covered), Count(rows, Uncovered);
    Matrix("", pins, true, Summary(c, u, 0, 0, 0, 0, Percent(c, u), PlainLines(rows, 0), PlainLines(rows, "")),
           PlainLines(rows, ""), rows)
  }

  lemma {:induction false} PlainCounts<L>(rows: seq<Row>, f: Row -> L, l: L)
    requires AllPlain(rows) && forall r :: r in rows ==> f(r) == l
    ensures forall b :: CountAt(rows, f, b, l) == Count(rows, b)
    ensures Count(rows, Attribute) == Count(rows, Excluded) == Count(rows, DiscoOnly) == CountUnexplained(rows) == 0
  {
    if rows != [] {
      var init, r := rows[..|rows|-1], rows[|rows|-1];
      assert r in rows && forall x :: x in init ==> x in rows;
      PlainCounts(init, f, l);
    }
  }

  lemma PlainReport<L(!new)>(rows: seq<Row>, f: Row -> L, l: L, less: (Line<L>, Line<L>) -> bool)
    requires AllPlain(rows) && forall r :: r in rows ==> f(r) == l
    ensures Report(rows, f, less, PlainLines(rows, l))
  {
    PlainCounts(rows, f, l);
    hide CountAt, Count, Percent;
    assert rows != [] ==> rows[0] in rows;
    assert HasLabel(rows, f, l) <==> rows != [];
  }

  /** Plain rows with distinct keys are what some run measures. */
  lemma PlainMeasured(pins: map<string, string>, rows: seq<Row>)
    requires AllPlain(rows) && KeysOnce(rows)
    ensures Measured(PlainMatrix(pins, rows))
  {
    PlainCounts(rows, DepthOf, 0);
    PlainReport(rows, DepthOf, 0, DepthFirst);
    PlainReport(rows, RuleOf, "", BiggestFirst);
    PlainReport(rows, ServiceOf, "", GapFirst);
    hide Report, Count, CountAt, CountUnexplained, Percent, PlainLines;
  }

  predicate Lists(rows: seq<Row>, b: Bucket, k: string) {
    PlainRow(b, k) in rows
  }

  function PlainPercent(rows: seq<Row>): real {
    Percent(Count(rows, Covered), Count(rows, Uncovered))
  }

  /** What the record of such a matrix keeps. */
  ghost predicate Keeps(a: Accepted, pins: map<string, string>, rows: seq<Row>) {
    && a.pins == pins && a.pairing && a.percent == PlainPercent(rows)
    && (forall k :: k in a.coveredKeys <==> Lists(rows, Covered, k))
    && (forall k :: k in a.uncoveredKeys <==> Lists(rows, Uncovered, k))
    && forall t :: t !in a.unexplained
  }

  lemma PlainAccepted(pins: map<string, string>, rows: seq<Row>)
    requires AllPlain(rows)
    ensures Keeps(AcceptedOf(PlainMatrix(pins, rows)), pins, rows)
  {
    var m := PlainMatrix(pins, rows);
    RecordKeepsNames(CoveredKeys, m);
    RecordKeepsNames(UncoveredKeys, m);
    RecordKeepsNames(Unexplained, m);
    hide Names, Sorted, Count, Percent, PlainLines, Ordered;
    forall k
      ensures k in AcceptedOf(m).coveredKeys <==> Lists(rows, Covered, k)
      ensures k in AcceptedOf(m).uncoveredKeys <==> Lists(rows, Uncovered, k)
    {
      assert NameOf(CoveredKeys, PlainRow(Covered, k)) == k == NameOf(UncoveredKeys, PlainRow(Uncovered, k));
      assert Belongs(CoveredKeys, PlainRow(Covered, k)) && Belongs(UncoveredKeys, PlainRow(Uncovered, k));
    }
  }

  /** The ratchet between two plain matrices, in terms of their rows. */
  ghost predicate PlainRatchet(p: map<string, string>, r: seq<Row>, q: map<string, string>, t: seq<Row>) {
    && (forall k :: Lists(r, Covered, k) ==> !Lists(t, Uncovered, k))
    && (PinsMatch(p, q) ==>
          (forall k :: Lists(r, Covered, k) ==> Lists(t, Covered, k) || Lists(t, Uncovered, k)) &&
          PlainPercent(t) >= PlainPercent(r))
  }

  lemma PlainPasses(p: map<string, string>, r: seq<Row>, q: map<string, string>, t: seq<Row>)
    requires AllPlain(r) && AllPlain(t)
    ensures Passes(AcceptedOf(PlainMatrix(p, r)), AcceptedOf(PlainMatrix(q, t))) <==> PlainRatchet(p, r, q, t)
  {
    PlainAccepted(p, r);
    PlainAccepted(q, t);
    hide *;
    RatchetByRows(AcceptedOf(PlainMatrix(p, r)), p, r, AcceptedOf(PlainMatrix(q, t)), q, t);
  }

  lemma RatchetByRows(a: Accepted, p: map<string, string>, r: seq<Row>, b: Accepted, q: map<string, string>, t: seq<Row>)
    requires Keeps(a, p, r) && Keeps(b, q, t)
    ensures Passes(a, b) <==> PlainRatchet(p, r, q, t)
  {
    hide PinsMatch, Lists, PlainPercent;
  }

  lemma PlainPassesTwice(p0: map<string, string>, r0: seq<Row>, p1: map<string, string>, r1: seq<Row>,
                         p2: map<string, string>, r2: seq<Row>)
    requires AllPlain(r0) && AllPlain(r1) && AllPlain(r2) && KeysOnce(r0) && KeysOnce(r1) && KeysOnce(r2)
    requires PlainRatchet(p0, r0, p1, r1) && PlainRatchet(p1, r1, p2, r2) && !PlainRatchet(p0, r0, p2, r2)
    ensures !RatchetsCompose(p0, p1, p2)
  {
    hide *;
    PlainMeasured(p0, r0);
    PlainMeasured(p1, r1);
    PlainMeasured(p2, r2);
    PlainPasses(p0, r0, p1, r1);
    PlainPasses(p1, r1, p2, r2);
    PlainPasses(p0, r0, p2, r2);
    PlainPins(p0, r0);
    PlainPins(p1, r1);
    PlainPins(p2, r2);
    NotComposed(PlainMatrix(p0, r0), PlainMatrix(p1, r1), PlainMatrix(p2, r2));
  }

  lemma PlainPins(p: map<string, string>, r: seq<Row>)
    ensures PlainMatrix(p, r).pins == p
  {
  }

  lemma NotComposed(m0: Matrix, m1: Matrix, m2: Matrix)
    requires Measured(m0) && Measured(m1) && Measured(m2)
    requires Passes(AcceptedOf(m0), AcceptedOf(m1)) && Passes(AcceptedOf(m1), AcceptedOf(m2)) && !Passes(AcceptedOf(m0), AcceptedOf(m2))
    ensures !RatchetsCompose(m0.pins, m1.pins, m2.pins)
  {
    hide Measured, Passes, AcceptedOf;
    assert PassesTwice(m0, m1, m2, m0.pins, m1.pins, m2.pins);
  }

  /** A covered key that leaves under new pins, which is reported but not fatal, comes
      back uncovered as a key the second record never saw. */
  lemma PinBumpForgetsKey(p0: map<string, string>, p1: map<string, string>, p2: map<string, string>, k: string)
    requires !PinsMatch(p0, p1)
    ensures !RatchetsCompose(p0, p1, p2)
  {
    var r0, r2 := [PlainRow(Covered, k)], [PlainRow(Uncovered, k)];
    assert PlainPercent([]) == 0.0;
    assert Lists(r0, Covered, k) && Lists(r2, Uncovered, k);
    hide PinsMatch, Count, Percent, RatchetsCompose, PlainPercent;
    PlainPassesTwice(p0, r0, p1, [], p2, r2);
  }

  /** Pins that agree from the first record but not from the second hide a falling
      percent from the second step. */
  lemma EmptyPinHidesDrop(p0: map<string, string>, p1: map<string, string>, p2: map<string, string>, k: string, u: string)
    requires PinsMatch(p0, p2) && !PinsMatch(p1, p2) && k != u
    ensures !RatchetsCompose(p0, p1, p2)
  {
    OneOfTwo(k, u);
    hide PinsMatch, Count, Percent, RatchetsCompose, PlainPercent;
    PlainPassesTwice(p0, [PlainRow(Covered, k)], p1, [PlainRow(Covered, k)], p2, [PlainRow(Covered, k), PlainRow(Uncovered, u)]);
  }

  lemma OneOfTwo(k: string, u: string)
    ensures var r, more := [PlainRow(Covered, k)], [PlainRow(Covered, k), PlainRow(Uncovered, u)];
      PlainPercent(r) == 100.0 && PlainPercent(more) < 100.0
  {
    var r, more := [PlainRow(Covered, k)], [PlainRow(Covered, k), PlainRow(Uncovered, u)];
    assert r[..0] == [] && more[..1] == r;
    assert Count(r, Covered) == 1 && Count(r, Uncovered) == 0;
    assert Count(more, Covered) == 1 && Count(more, Uncovered) == 1;
  }

  /** Two ratchets in a row amount to the first one directly if and only if the first
      step kept the pins and the second kept whatever the first would compare. */
  lemma TwoRatchetsExact(p0: map<string, string>, p1: map<string, string>, p2: map<string, string>)
    ensures RatchetsCompose(p0, p1, p2) <==> PinsCompose(p0, p1, p2)
  {
    hide PinsMatch, Passes, Measured, AcceptedOf;
    if PinsCompose(p0, p1, p2) {
      forall m0, m1, m2 | PassesTwice(m0, m1, m2, p0, p1, p2) ensures Passes(AcceptedOf(m0), AcceptedOf(m2)) {
        assert AcceptedOf(m0).pins == p0 && AcceptedOf(m1).pins == p1 && AcceptedOf(m2).pins == p2 by {
          RecordsPins(m0);
          RecordsPins(m1);
          RecordsPins(m2);
        }
        TwoRatchets(AcceptedOf(m0), AcceptedOf(m1), AcceptedOf(m2));
      }
    } else if PinsMatch(p0, p1) {
      EmptyPinHidesDrop(p0, p1, p2, "k", "u");
    } else {
      PinBumpForgetsKey(p0, p1, p2, "k");
    }
  }

  lemma RecordsPins(m: Matrix)
    ensures AcceptedOf(m).pins == m.pins
  {
  }

  /** Overlaying a partial run's record guards every provider: those that ran by the new
      record, the others by the old one. */
  lemma MergeGuards(prev: Record, run: Record, m: Matrix)
    ensures DriftsFor(prev + run, m) == DriftsFor(if m.provider in run then run else prev, m)
    ensures m.provider in prev && NoneFatal(DriftsFor(prev + run, m)) ==>
      Passes(if m.provider in run then run[m.provider] else prev[m.provider], AcceptedOf(m))
  {
    hide ProviderDrifts, AcceptedOf, Passes, NoneFatal;
    RatchetExact(prev + run, m);
  }
}
