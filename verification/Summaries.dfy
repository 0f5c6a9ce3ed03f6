/** internal/coverage/inventory.go, summarize: the headline counts and their splits. */
module Summaries {
  import opened Coverage
  import Lex
  import opened Sorting

  function Count(rows: seq<Row>, b: Bucket): nat {
    if rows == [] then 0
    else Count(rows[..|rows|-1], b) + if rows[|rows|-1].bucket == b then 1 else 0
  }

  function CountUnexplained(rows: seq<Row>): nat {
    if rows == [] then 0
    else
      var r := rows[|rows|-1];
      CountUnexplained(rows[..|rows|-1]) + if r.bucket == DiscoOnly && r.reason == UNEXPLAINED then 1 else 0
  }

  /** The rows of one bucket under one label. */
  function CountAt<L(==)>(rows: seq<Row>, f: Row -> L, b: Bucket, l: L): nat {
    if rows == [] then 0
    else
      var r := rows[|rows|-1];
      CountAt(rows[..|rows|-1], f, b, l) + if r.bucket == b && f(r) == l then 1 else 0
  }

  predicate InDenominator(r: Row) {
    r.bucket == Covered || r.bucket == Uncovered
  }

  predicate HasLabel<L(==)>(rows: seq<Row>, f: Row -> L, l: L) {
    exists r :: r in rows && InDenominator(r) && f(r) == l
  }

  function SplitAt<L(==)>(rows: seq<Row>, f: Row -> L, l: L): Split {
    Split(CountAt(rows, f, Covered, l), CountAt(rows, f, Uncovered, l))
  }

  /** The three labels rows are split by. */
  function DepthOf(r: Row): int { r.depth }

  function RuleOf(r: Row): string { r.rule }

  function ServiceOf(r: Row): string { r.service }

  /** m holds the split of every label that occurs, and no other. */
  ghost predicate Tallied<L(!new)>(m: map<L, Split>, rows: seq<Row>, f: Row -> L) {
    && (forall l :: l in m <==> HasLabel(rows, f, l))
    && (forall l :: l in m ==> m[l] == SplitAt(rows, f, l))
  }

  function SplitFor<L>(m: map<L, Split>, l: L): Split {
    if l in m then m[l] else Split(0, 0)
  }

  function Bumped<L>(m: map<L, Split>, l: L, b: Bucket): map<L, Split> {
    var s := SplitFor(m, l);
    m[l := if b == Covered then Split(s.covered + 1, s.uncovered) else Split(s.covered, s.uncovered + 1)]
  }

  lemma {:induction false} NoLabelNoCount<L(!new)>(rows: seq<Row>, f: Row -> L, b: Bucket, l: L)
    requires !HasLabel(rows, f, l) && (b == Covered || b == Uncovered)
    ensures CountAt(rows, f, b, l) == 0
  {
    if rows != [] {
      var init, r := rows[..|rows|-1], rows[|rows|-1];
      assert r in rows && forall x :: x in init ==> x in rows;
      NoLabelNoCount(init, f, b, l);
    }
  }

  lemma LabelSnoc<L(!new)>(rows: seq<Row>, r: Row, f: Row -> L, l: L)
    ensures HasLabel(rows + [r], f, l) <==> HasLabel(rows, f, l) || (InDenominator(r) && f(r) == l)
    ensures forall b :: CountAt(rows + [r], f, b, l) == CountAt(rows, f, b, l) + if r.bucket == b && f(r) == l then 1 else 0
  {
    assert (rows + [r])[..|rows|] == rows;
    assert forall x :: x in rows + [r] <==> x in rows || x == r;
  }

  lemma TalliedSnoc<L(!new)>(m: map<L, Split>, rows: seq<Row>, r: Row, f: Row -> L)
    requires Tallied(m, rows, f)
    ensures InDenominator(r) ==> Tallied(Bumped(m, f(r), r.bucket), rows + [r], f)
    ensures !InDenominator(r) ==> Tallied(m, rows + [r], f)
  {
    hide CountAt, HasLabel;
    var m' := if InDenominator(r) then Bumped(m, f(r), r.bucket) else m;
    forall l
      ensures l in m' <==> HasLabel(rows + [r], f, l)
      ensures l in m' ==> m'[l] == SplitAt(rows + [r], f, l)
    {
      LabelSnoc(rows, r, f, l);
      if l !in m {
        NoLabelNoCount(rows, f, Covered, l);
        NoLabelNoCount(rows, f, Uncovered, l);
      }
    }
  }

  // ------------------------------------------------------------- the reports

  function LineOf<L>(l: L, s: Split): Line<L> {
    Line(l, s, Percent(s.covered, s.uncovered))
  }

  /** One line per label, each with its split and percent, in the report's order. */
  ghost predicate Report<L(!new)>(rows: seq<Row>, f: Row -> L, less: (Line<L>, Line<L>) -> bool, out: seq<Line<L>>) {
    && SortedBy(less, out)
    && (forall x :: x in out <==> HasLabel(rows, f, x.of) && x == LineOf(x.of, SplitAt(rows, f, x.of)))
  }

  predicate DepthFirst(a: Line<int>, b: Line<int>) {
    a.of < b.of
  }

  /** The biggest slice of the denominator first. */
  predicate BiggestFirst(a: Line<string>, b: Line<string>) {
    var x, y := a.split.covered + a.split.uncovered, b.split.covered + b.split.uncovered;
    x > y || (x == y && Lex.Less(a.of, b.of))
  }

  /** The largest gap first. */
  predicate GapFirst(a: Line<string>, b: Line<string>) {
    a.split.uncovered > b.split.uncovered || (a.split.uncovered == b.split.uncovered && Lex.Less(a.of, b.of))
  }

  /** Lines with different labels are strictly ordered. */
  ghost predicate OrdersLabels<L(!new)>(less: (Line<L>, Line<L>) -> bool) {
    && (forall a, b :: less(a, b) ==> !less(b, a))
    && (forall a: Line<L>, b: Line<L> :: a.of != b.of ==> less(a, b) || less(b, a))
    && (forall a, b, c :: less(a, b) && less(b, c) ==> less(a, c))
  }

  lemma ReportOrders()
    ensures OrdersLabels(DepthFirst) && OrdersLabels(BiggestFirst) && OrdersLabels(GapFirst)
  {
    hide Lex.Less;
    forall a: string, b: string
      ensures !(Lex.Less(a, b) && Lex.Less(b, a))
      ensures a != b ==> Lex.Less(a, b) || Lex.Less(b, a)
    {
      Lex.Asymmetric(a, b);
      Lex.Total(a, b);
    }
    forall a: string, b: string, c: string | Lex.Less(a, b) && Lex.Less(b, c) ensures Lex.Less(a, c) {
      Lex.Transitive(a, b, c);
    }
  }

  /** The lines of a map, read in whatever order it is iterated, then sorted. */
  method Lines<L(==,!new)>(ghost rows: seq<Row>, ghost f: Row -> L, m: map<L, Split>, less: (Line<L>, Line<L>) -> bool)
    returns (out: seq<Line<L>>)
    requires Tallied(m, rows, f) && OrdersLabels(less)
    ensures Report(rows, f, less, out)
  {
    hide Percent, HasLabel, SplitAt;
    out := [];
    var todo := m.Keys;
    while todo != {}
      invariant todo <= m.Keys
      invariant forall x :: x in out <==> x.of in m && x.of !in todo && x == LineOf(x.of, m[x.of])
      invariant forall i, j :: 0 <= i < j < |out| ==> out[i].of != out[j].of
    {
      var l :| l in todo;
      assert forall x :: x in out ==> x.of != l;
      out := out + [LineOf(l, m[l])];
      todo := todo - {l};
    }
    assert OrderOn(less, out) by {
      forall a, b | a in out && b in out ensures a == b || less(a, b) || less(b, a) {
        assert a.of == b.of ==> a == b;
      }
    }
    out := Sort(less, out);
  }

  /** The report does not depend on the order in which the maps are iterated. */
  lemma ReportUnique<L(!new)>(rows: seq<Row>, f: Row -> L, less: (Line<L>, Line<L>) -> bool, a: seq<Line<L>>, b: seq<Line<L>>)
    requires OrdersLabels(less) && Report(rows, f, less, a) && Report(rows, f, less, b)
    ensures a == b
  {
    SortedUnique(less, a, b);
  }

  /** The three reports of a summary, and its counts. */
  ghost predicate Summarizes(rows: seq<Row>, s: Summary, services: seq<Line<string>>) {
    && s.covered == Count(rows, Covered) && s.uncovered == Count(rows, Uncovered)
    && s.attribute == Count(rows, Attribute) && s.excluded == Count(rows, Excluded)
    && s.discoOnly == Count(rows, DiscoOnly) && s.unexplained == CountUnexplained(rows)
    && s.percent == Percent(s.covered, s.uncovered)
    && Report(rows, DepthOf, DepthFirst, s.byDepth)
    && Report(rows, RuleOf, BiggestFirst, s.byRule)
    && Report(rows, ServiceOf, GapFirst, services)
  }

  lemma NothingTallied<L(!new)>(f: Row -> L)
    ensures Tallied(map[], [], f)
  {
  }

  // ------------------------------------------------- what a summary says, plainly

  /** The number of rows with the property. */
  ghost function Card(rows: seq<Row>, has: Row -> bool): nat {
    |set i | 0 <= i < |rows| && has(rows[i])|
  }

  /** In the bucket; left over without an explanation; in the bucket under the name. */
  function Of(b: Bucket): Row -> bool {
    (r: Row) => r.bucket == b
  }

  function LeftUnexplained(): Row -> bool {
    (r: Row) => r.bucket == DiscoOnly && r.reason == "unexplained"
  }

  function Under<L(==)>(name: Row -> L, b: Bucket, l: L): Row -> bool {
    (r: Row) => r.bucket == b && name(r) == l
  }

  /** The cells the reports split by. */
  function Depth(): Row -> int {
    (r: Row) => r.depth
  }

  function Rule(): Row -> string {
    (r: Row) => r.rule
  }

  function Service(): Row -> string {
    (r: Row) => r.service
  }

  lemma CardSnoc(rows: seq<Row>, r: Row, has: Row -> bool)
    ensures Card(rows + [r], has) == Card(rows, has) + if has(r) then 1 else 0
  {
    var n, all := |rows|, rows + [r];
    assert forall i :: 0 <= i < n ==> all[i] == rows[i];
    assert (set i | 0 <= i < |all| && has(all[i])) == (set i | 0 <= i < n && has(rows[i])) + if has(r) then {n} else {};
  }

  lemma CardEmpty(has: Row -> bool)
    ensures Card([], has) == 0
  {
    var rows: seq<Row> := [];
    assert (set i | 0 <= i < |rows| && has(rows[i])) == {};
  }

  lemma {:induction false} CountExact(rows: seq<Row>, b: Bucket)
    ensures Count(rows, b) == Card(rows, Of(b))
  {
    var has := Of(b);
    if rows == [] {
      CardEmpty(has);
    } else {
      var init, r := rows[..|rows|-1], rows[|rows|-1];
      CountExact(init, b);
      CardSnoc(init, r, has);
      assert rows == init + [r];
    }
  }

  lemma {:induction false} UnexplainedExact(rows: seq<Row>)
    ensures CountUnexplained(rows) == Card(rows, LeftUnexplained())
  {
    var has := LeftUnexplained();
    if rows == [] {
      CardEmpty(has);
    } else {
      var init, r := rows[..|rows|-1], rows[|rows|-1];
      UnexplainedExact(init);
      CardSnoc(init, r, has);
      assert rows == init + [r];
    }
  }

  lemma {:induction false} CountAtExact<L(!new)>(rows: seq<Row>, f: Row -> L, b: Bucket, l: L, has: Row -> bool)
    requires forall r :: has(r) <==> r.bucket == b && f(r) == l
    ensures CountAt(rows, f, b, l) == Card(rows, has)
  {
    if rows == [] {
      CardEmpty(has);
    } else {
      var init, r := rows[..|rows|-1], rows[|rows|-1];
      CountAtExact(init, f, b, l, has);
      CardSnoc(init, r, has);
      assert rows == init + [r];
    }
  }

  /** Covered as a share of both, and 0 of nothing. */
  predicate IsPercent(covered: nat, uncovered: nat, percent: real) {
    if covered + uncovered == 0 then percent == 0.0 else percent * (covered + uncovered) as real == 100.0 * covered as real
  }

  lemma PercentExact(covered: nat, uncovered: nat)
    ensures IsPercent(covered, uncovered, Percent(covered, uncovered))
  {
    if covered + uncovered > 0 {
      var c, n := covered as real, (covered + uncovered) as real;
      assert (c / n) * n == c;
    }
  }

  /** One line for every name of a covered or uncovered row, with the numbers of both and
      their share. */
  ghost predicate LinesSay<L(!new)>(rows: seq<Row>, name: Row -> L, lines: seq<Line<L>>) {
    && (forall l :: Listed(lines, l) <==> exists r :: r in rows && r.bucket in {Covered, Uncovered} && name(r) == l)
    && (forall x :: x in lines ==>
          && x.split.covered == Card(rows, Under(name, Covered, x.of))
          && x.split.uncovered == Card(rows, Under(name, Uncovered, x.of))
          && IsPercent(x.split.covered, x.split.uncovered, x.percent))
  }

  ghost predicate Listed<L(!new)>(lines: seq<Line<L>>, l: L) {
    exists x :: x in lines && x.of == l
  }

  lemma ReportSays<L(!new)>(rows: seq<Row>, f: Row -> L, name: Row -> L, less: (Line<L>, Line<L>) -> bool, lines: seq<Line<L>>)
    requires Report(rows, f, less, lines) && forall r :: f(r) == name(r)
    ensures LinesSay(rows, name, lines)
  {
    forall x | x in lines
      ensures x.split.covered == Card(rows, Under(name, Covered, x.of))
      ensures x.split.uncovered == Card(rows, Under(name, Uncovered, x.of))
      ensures IsPercent(x.split.covered, x.split.uncovered, x.percent)
    {
      CountAtExact(rows, f, Covered, x.of, Under(name, Covered, x.of));
      CountAtExact(rows, f, Uncovered, x.of, Under(name, Uncovered, x.of));
      PercentExact(x.split.covered, x.split.uncovered);
    }
    hide Card, CountAt, Percent, IsPercent;
    forall l ensures Listed(lines, l) <==> exists r :: r in rows && r.bucket in {Covered, Uncovered} && name(r) == l {
      if HasLabel(rows, f, l) {
        assert LineOf(l, SplitAt(rows, f, l)) in lines;
      }
    }
  }

  /** The summary in numbers of rows: by bucket, unexplained, and split by depth, by rule
      with the biggest slice first, and by service with the largest gap first. */
  ghost predicate Says(rows: seq<Row>, s: Summary, services: seq<Line<string>>) {
    && s.covered == Card(rows, Of(Covered)) && s.uncovered == Card(rows, Of(Uncovered))
    && s.attribute == Card(rows, Of(Attribute)) && s.excluded == Card(rows, Of(Excluded))
    && s.discoOnly == Card(rows, Of(DiscoOnly))
    && s.unexplained == Card(rows, LeftUnexplained())
    && IsPercent(s.covered, s.uncovered, s.percent)
    && LinesSay(rows, Depth(), s.byDepth) && LinesSay(rows, Rule(), s.byRule)
    && LinesSay(rows, Service(), services)
    && (forall i, j :: 0 <= i < j < |s.byDepth| ==> s.byDepth[i].of < s.byDepth[j].of)
    && (forall i, j :: 0 <= i < j < |s.byRule| ==> Bigger(s.byRule[i], s.byRule[j]))
    && (forall i, j :: 0 <= i < j < |services| ==> Wider(services[i], services[j]))
  }

  predicate Bigger(a: Line<string>, b: Line<string>) {
    var m, n := a.split.covered + a.split.uncovered, b.split.covered + b.split.uncovered;
    if m == n then Lex.Less(a.of, b.of) else m > n
  }

  predicate Wider(a: Line<string>, b: Line<string>) {
    if a.split.uncovered == b.split.uncovered then Lex.Less(a.of, b.of) else a.split.uncovered > b.split.uncovered
  }

  lemma CountsSaid(rows: seq<Row>, s: Summary, services: seq<Line<string>>)
    requires Summarizes(rows, s, services)
    ensures s.covered == Card(rows, Of(Covered)) && s.uncovered == Card(rows, Of(Uncovered))
    ensures s.attribute == Card(rows, Of(Attribute)) && s.excluded == Card(rows, Of(Excluded))
    ensures s.discoOnly == Card(rows, Of(DiscoOnly))
    ensures s.unexplained == Card(rows, LeftUnexplained())
    ensures IsPercent(s.covered, s.uncovered, s.percent)
  {
    CountExact(rows, Covered);
    CountExact(rows, Uncovered);
    CountExact(rows, Attribute);
    CountExact(rows, Excluded);
    CountExact(rows, DiscoOnly);
    UnexplainedExact(rows);
    PercentExact(s.covered, s.uncovered);
  }

  lemma SummarySays(rows: seq<Row>, s: Summary, services: seq<Line<string>>)
    requires Summarizes(rows, s, services)
    ensures Says(rows, s, services)
  {
    CountsSaid(rows, s, services);
    ReportSays(rows, DepthOf, Depth(), DepthFirst, s.byDepth);
    ReportSays(rows, RuleOf, Rule(), BiggestFirst, s.byRule);
    ReportSays(rows, ServiceOf, Service(), GapFirst, services);
    hide Card, Count, CountUnexplained, LinesSay, Percent, IsPercent;
    forall i, j | 0 <= i < j < |s.byDepth| ensures s.byDepth[i].of < s.byDepth[j].of {
      assert DepthFirst(s.byDepth[i], s.byDepth[j]);
    }
    forall i, j | 0 <= i < j < |s.byRule| ensures Bigger(s.byRule[i], s.byRule[j]) {
      assert BiggestFirst(s.byRule[i], s.byRule[j]);
    }
    forall i, j | 0 <= i < j < |services| ensures Wider(services[i], services[j]) {
      assert GapFirst(services[i], services[j]);
    }
  }

  method Summarize(rows: seq<Row>) returns (s: Summary, services: seq<Line<string>>)
    ensures Summarizes(rows, s, services)
    ensures Says(rows, s, services)
  {
    hide Says, Tallied, Percent, Report, OrdersLabels;
    var covered, uncovered, attribute, excluded, discoOnly, unexplained := 0, 0, 0, 0, 0, 0;
    var depth: map<int, Split>, rule: map<string, Split>, svc: map<string, Split> := map[], map[], map[];
    assert rows[..0] == [];
    NothingTallied(DepthOf);
    NothingTallied(RuleOf);
    NothingTallied(ServiceOf);
    for i := 0 to |rows|
      invariant covered == Count(rows[..i], Covered) && uncovered == Count(rows[..i], Uncovered)
      invariant attribute == Count(rows[..i], Attribute) && excluded == Count(rows[..i], Excluded)
      invariant discoOnly == Count(rows[..i], DiscoOnly) && unexplained == CountUnexplained(rows[..i])
      invariant Tallied(depth, rows[..i], DepthOf)
      invariant Tallied(rule, rows[..i], RuleOf)
      invariant Tallied(svc, rows[..i], ServiceOf)
    {
      var r := rows[i];
      assert rows[..i+1][..i] == rows[..i] && rows[..i+1] == rows[..i] + [r];
      TalliedSnoc(depth, rows[..i], r, DepthOf);
      TalliedSnoc(rule, rows[..i], r, RuleOf);
      TalliedSnoc(svc, rows[..i], r, ServiceOf);
      match r.bucket
      case Covered =>
        rule, depth, svc := Bumped(rule, r.rule, Covered), Bumped(depth, r.depth, Covered), Bumped(svc, r.service, Covered);
        covered := covered + 1;
      case Uncovered =>
        rule, depth, svc := Bumped(rule, r.rule, Uncovered), Bumped(depth, r.depth, Uncovered), Bumped(svc, r.service, Uncovered);
        uncovered := uncovered + 1;
      case Attribute =>
        attribute := attribute + 1;
      case Excluded =>
        excluded := excluded + 1;
      case DiscoOnly =>
        discoOnly := discoOnly + 1;
        if r.reason == UNEXPLAINED {
          unexplained := unexplained + 1;
        }
      case RegistryDrift =>
    }
    assert rows[..|rows|] == rows;
    ReportOrders();
    var byDepth := Lines(rows, DepthOf, depth, DepthFirst);
    var byRule := Lines(rows, RuleOf, rule, BiggestFirst);
    services := Lines(rows, ServiceOf, svc, GapFirst);
    s := Summary(covered, uncovered, attribute, excluded, discoOnly, unexplained, Percent(covered, uncovered), byDepth, byRule);
    SummarySays(rows, s, services);
  }

  // -------------------------------------------------------------- conservation

  /** Every row is in exactly one bucket. */
  lemma {:induction false} BucketsSumToRows(rows: seq<Row>)
    ensures Count(rows, Covered) + Count(rows, Uncovered) + Count(rows, Attribute) + Count(rows, Excluded)
      + Count(rows, DiscoOnly) + Count(rows, RegistryDrift) == |rows|
    ensures CountUnexplained(rows) <= Count(rows, DiscoOnly)
  {
    if rows != [] {
      BucketsSumToRows(rows[..|rows|-1]);
    }
  }

  function SumCovered<L>(lines: seq<Line<L>>): nat {
    if lines == [] then 0 else SumCovered(lines[..|lines|-1]) + lines[|lines|-1].split.covered
  }

  function SumUncovered<L>(lines: seq<Line<L>>): nat {
    if lines == [] then 0 else SumUncovered(lines[..|lines|-1]) + lines[|lines|-1].split.uncovered
  }

  /** The counts of the listed labels together. */
  function SumAt<L(==)>(rows: seq<Row>, f: Row -> L, b: Bucket, lines: seq<Line<L>>): nat {
    if lines == [] then 0 else SumAt(rows, f, b, lines[..|lines|-1]) + CountAt(rows, f, b, lines[|lines|-1].of)
  }

  predicate DistinctLabels<L(==)>(lines: seq<Line<L>>) {
    forall i, j :: 0 <= i < j < |lines| ==> lines[i].of != lines[j].of
  }

  predicate Lists<L(==)>(lines: seq<Line<L>>, l: L) {
    exists i :: 0 <= i < |lines| && lines[i].of == l
  }

  lemma {:induction false} SumNothing<L(!new)>(f: Row -> L, b: Bucket, lines: seq<Line<L>>)
    ensures SumAt([], f, b, lines) == 0
  {
    if lines != [] {
      SumNothing(f, b, lines[..|lines|-1]);
    }
  }

  /** One more row raises the sum by one, through the one line that lists its label. */
  lemma {:induction false} SumSnoc<L(!new)>(rows: seq<Row>, r: Row, f: Row -> L, b: Bucket, lines: seq<Line<L>>)
    requires DistinctLabels(lines)
    ensures SumAt(rows + [r], f, b, lines) ==
      SumAt(rows, f, b, lines) + if r.bucket == b && Lists(lines, f(r)) then 1 else 0
  {
    if lines != [] {
      var init, last := lines[..|lines|-1], lines[|lines|-1];
      SumSnoc(rows, r, f, b, init);
      LabelSnoc(rows, r, f, last.of);
      if Lists(init, f(r)) {
        var i :| 0 <= i < |init| && init[i].of == f(r);
        assert lines[i].of == f(r) && lines[i].of != lines[|lines|-1].of;
      }
      if Lists(lines, f(r)) && last.of != f(r) {
        var i :| 0 <= i < |lines| && lines[i].of == f(r);
        assert init[i].of == f(r);
      }
    }
  }

  lemma {:induction false} SumIsCount<L(!new)>(rows: seq<Row>, f: Row -> L, b: Bucket, lines: seq<Line<L>>)
    requires DistinctLabels(lines) && forall r :: r in rows && r.bucket == b ==> Lists(lines, f(r))
    ensures SumAt(rows, f, b, lines) == Count(rows, b)
  {
    if rows == [] {
      SumNothing(f, b, lines);
    } else {
      var init, r := rows[..|rows|-1], rows[|rows|-1];
      assert rows == init + [r] && r in rows && forall x :: x in init ==> x in rows;
      SumIsCount(init, f, b, lines);
      SumSnoc(init, r, f, b, lines);
    }
  }

  lemma {:induction false} LinesSum<L(!new)>(rows: seq<Row>, f: Row -> L, lines: seq<Line<L>>)
    requires forall x :: x in lines ==> x == LineOf(x.of, SplitAt(rows, f, x.of))
    ensures SumCovered(lines) == SumAt(rows, f, Covered, lines)
    ensures SumUncovered(lines) == SumAt(rows, f, Uncovered, lines)
  {
    if lines != [] {
      var init, last := lines[..|lines|-1], lines[|lines|-1];
      assert last in lines && forall x :: x in init ==> x in lines;
      LinesSum(rows, f, init);
    }
  }

  /** The splits of every report sum to the covered and uncovered totals. */
  lemma SplitsConserve<L(!new)>(rows: seq<Row>, f: Row -> L, less: (Line<L>, Line<L>) -> bool, out: seq<Line<L>>)
    requires OrdersLabels(less) && Report(rows, f, less, out)
    ensures SumCovered(out) == Count(rows, Covered) && SumUncovered(out) == Count(rows, Uncovered)
  {
    hide CountAt, Count, SumAt, SumCovered, SumUncovered;
    assert DistinctLabels(out) by {
      forall i, j | 0 <= i < j < |out| ensures out[i].of != out[j].of {
        assert out[i] in out && out[j] in out && less(out[i], out[j]);
      }
    }
    forall r | r in rows && InDenominator(r) ensures Lists(out, f(r)) {
      assert HasLabel(rows, f, f(r));
      assert LineOf(f(r), SplitAt(rows, f, f(r))) in out;
    }
    LinesSum(rows, f, out);
    SumIsCount(rows, f, Covered, out);
    SumIsCount(rows, f, Uncovered, out);
  }

  /** All three splits of one summary sum to its totals, and its buckets to its rows. */
  lemma SummaryConserves(rows: seq<Row>, s: Summary, services: seq<Line<string>>)
    requires Summarizes(rows, s, services)
    ensures SumCovered(s.byDepth) == SumCovered(s.byRule) == SumCovered(services) == s.covered
    ensures SumUncovered(s.byDepth) == SumUncovered(s.byRule) == SumUncovered(services) == s.uncovered
    ensures s.covered + s.uncovered + s.attribute + s.excluded + s.discoOnly + Count(rows, RegistryDrift) == |rows|
    ensures s.unexplained <= s.discoOnly
  {
    hide Report, OrdersLabels;
    ReportOrders();
    SplitsConserve(rows, DepthOf, DepthFirst, s.byDepth);
    SplitsConserve(rows, RuleOf, BiggestFirst, s.byRule);
    SplitsConserve(rows, ServiceOf, GapFirst, services);
    BucketsSumToRows(rows);
  }

  /** The summary is a function of the rows, whatever the iteration order. */
  lemma SummaryUnique(rows: seq<Row>, s: Summary, t: Summary, ss: seq<Line<string>>, ts: seq<Line<string>>)
    requires Summarizes(rows, s, ss) && Summarizes(rows, t, ts)
    ensures s == t && ss == ts
  {
    hide Report, OrdersLabels;
    ReportOrders();
    ReportUnique(rows, DepthOf, DepthFirst, s.byDepth, t.byDepth);
    ReportUnique(rows, RuleOf, BiggestFirst, s.byRule, t.byRule);
    ReportUnique(rows, ServiceOf, GapFirst, ss, ts);
  }
}
