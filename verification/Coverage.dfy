/** The rows and reports that internal/coverage/inventory.go builds and
    internal/coverage/baseline.go compares. */
module Coverage {

  datatype Bucket = Covered | Uncovered | Attribute | Excluded | DiscoOnly | RegistryDrift

  /** One entry in the coverage matrix. */
  datatype Row = Row(service: string, key: string, discoType: string, discoTypes: seq<string>, bucket: Bucket,
                     depth: int, rule: string, reason: string, signals: seq<string>)

  /** The covered and uncovered candidates under one label. */
  datatype Split = Split(covered: nat, uncovered: nat)

  /** One line of a split report. */
  datatype Line<L> = Line(of: L, split: Split, percent: real)

  datatype Summary = Summary(covered: nat, uncovered: nat, attribute: nat, excluded: nat, discoOnly: nat,
                             unexplained: nat, percent: real, byDepth: seq<Line<int>>, byRule: seq<Line<string>>)

  datatype Matrix = Matrix(provider: string, pins: map<string, string>, pairing: bool, summary: Summary,
                           services: seq<Line<string>>, rows: seq<Row>)

  const UNEXPLAINED := "unexplained"

  /** 100 * covered / (covered + uncovered), and 0 for an empty universe. */
  function Percent(covered: nat, uncovered: nat): (p: real)
    ensures 0.0 <= p <= 100.0
    ensures p == 100.0 <==> covered > 0 && uncovered == 0
    ensures p == 0.0 <==> covered == 0
  {
    if covered + uncovered == 0 then 0.0
    else
      var c, n := covered as real, (covered + uncovered) as real;
      assert (c / n) * n == c && 0.0 <= c / n <= 1.0;
      100.0 * (c / n)
  }
}
