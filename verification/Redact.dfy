/** internal/redact/apply.go: replacing the scalars that rule paths reach. */
module Redact {
  import opened Wrappers
  import opened JsonTree

  const PLACEHOLDER := "[REDACTED]"

  datatype Segment = Literal(name: string) | MapWildcard | ArrayWildcard
  datatype Mode = RedactScalar | RedactSubtree
  datatype Rule = Rule(segs: seq<Segment>, mode: Mode)

  // ------------------------------------------------ what the walk computes

  function RedactAllScalars(v: Json): Json {
    match v
    case Obj(fields) => Obj(map k | k in fields :: RedactAllScalars(fields[k]))
    case Arr(items) => Arr(seq(|items|, i requires 0 <= i < |items| => RedactAllScalars(items[i])))
    case Null => Null
    case _ => Str(PLACEHOLDER)
  }

  function RedactTerminal(v: Json, mode: Mode): Json {
    match mode
    case RedactSubtree => RedactAllScalars(v)
    case RedactScalar => if v.Obj? || v.Arr? || v.Null? then v else Str(PLACEHOLDER)
  }

  function Apply(v: Json, segs: seq<Segment>, mode: Mode): Json
    decreases |segs|
  {
    if segs == [] then RedactTerminal(v, mode)
    else
      match segs[0]
      case Literal(name) =>
        if v.Obj? && name in v.fields then Obj(v.fields[name := Apply(v.fields[name], segs[1..], mode)]) else v
      case MapWildcard =>
        if v.Obj? then Obj(map k | k in v.fields :: Apply(v.fields[k], segs[1..], mode)) else v
      case ArrayWildcard =>
        if v.Arr? then
          Arr(seq(|v.items|, i requires 0 <= i < |v.items| => Apply(v.items[i], segs[1..], mode)))
        else v
  }

  function ApplyRules(v: Json, rules: seq<Rule>): Json
    decreases |rules|
  {
    if rules == [] then v else ApplyRules(Apply(v, rules[0].segs, rules[0].mode), rules[1..])
  }

  // ------------------------------------------------------- the loops in place

  method RedactAllScalarsInPlace(v: Json) returns (r: Json)
    ensures r == RedactAllScalars(v)
    decreases v
  {
    match v
    case Obj(fields) =>
      var m, todo := fields, fields.Keys;
      while todo != {}
        invariant todo <= fields.Keys == m.Keys
        invariant forall k :: k in fields ==> m[k] == if k in todo then fields[k] else RedactAllScalars(fields[k])
      {
        var k :| k in todo;
        var c := RedactAllScalarsInPlace(fields[k]);
        m, todo := m[k := c], todo - {k};
      }
      r := Obj(m);
      assert m == (map k | k in fields :: RedactAllScalars(fields[k]));
    case Arr(items) =>
      var a := items;
      for i := 0 to |items|
        invariant |a| == |items|
        invariant forall j :: 0 <= j < |a| ==> a[j] == if j < i then RedactAllScalars(items[j]) else items[j]
      {
        var c := RedactAllScalarsInPlace(items[i]);
        a := a[i := c];
      }
      r := Arr(a);
    case Null => r := Null;
    case _ => r := Str(PLACEHOLDER);
  }

  method ApplyInPlace(v: Json, segs: seq<Segment>, mode: Mode) returns (r: Json)
    ensures r == Apply(v, segs, mode)
    decreases |segs|, 0
  {
    if segs == [] {
      if mode == RedactSubtree {
        r := RedactAllScalarsInPlace(v);
      } else {
        r := if v.Obj? || v.Arr? || v.Null? then v else Str(PLACEHOLDER);
      }
      return;
    }
    var rest := segs[1..];
    r := v;
    match segs[0]
    case Literal(name) =>
      if v.Obj? && name in v.fields {
        var c := ApplyInPlace(v.fields[name], rest, mode);
        r := Obj(v.fields[name := c]);
      }
    case MapWildcard =>
      if v.Obj? {
        r := ApplyToFields(v.fields, rest, mode);
      }
    case ArrayWildcard =>
      if v.Arr? {
        r := ApplyToItems(v.items, rest, mode);
      }
  }

  /** The range loop over a map, in whatever order the keys come. */
  method ApplyToFields(fields: map<string, Json>, rest: seq<Segment>, mode: Mode) returns (r: Json)
    ensures r == Obj(map k | k in fields :: Apply(fields[k], rest, mode))
    decreases |rest|, 1
  {
    var m, todo := fields, fields.Keys;
    while todo != {}
      invariant todo <= fields.Keys == m.Keys
      invariant forall k :: k in fields ==> m[k] == if k in todo then fields[k] else Apply(fields[k], rest, mode)
    {
      var k :| k in todo;
      var c := ApplyInPlace(fields[k], rest, mode);
      m, todo := m[k := c], todo - {k};
    }
    r := Obj(m);
    assert m == (map k | k in fields :: Apply(fields[k], rest, mode));
  }

  method ApplyToItems(items: seq<Json>, rest: seq<Segment>, mode: Mode) returns (r: Json)
    ensures r == Arr(seq(|items|, i requires 0 <= i < |items| => Apply(items[i], rest, mode)))
    decreases |rest|, 1
  {
    var a := items;
    for i := 0 to |items|
      invariant |a| == |items|
      invariant forall j :: 0 <= j < |a| ==> a[j] == if j < i then Apply(items[j], rest, mode) else items[j]
    {
      var c := ApplyInPlace(items[i], rest, mode);
      a := a[i := c];
    }
    r := Arr(a);
  }

  /** The rule loop of applyJSON. */
  method ApplyEachRule(v: Json, rules: seq<Rule>) returns (r: Json)
    ensures r == ApplyRules(v, rules)
  {
    r := v;
    for i := 0 to |rules|
      invariant ApplyRules(r, rules[i..]) == ApplyRules(v, rules)
    {
      assert rules[i..][1..] == rules[i+1..];
      r := ApplyInPlace(r, rules[i].segs, rules[i].mode);
    }
  }

  // ---------------------------------------------- what the walk amounts to

  predicate Matches(seg: Segment, step: Step) {
    match seg
    case Literal(name) => step == Key(name)
    case MapWildcard => step.Key?
    case ArrayWildcard => step.Index?
  }

  /** The rule's path reaches this position, exactly or (subtree mode) from above. */
  predicate Covers(r: Rule, path: Path)
    decreases |r.segs|
  {
    if r.segs == [] then path == [] || r.mode == RedactSubtree
    else path != [] && Matches(r.segs[0], path[0]) && Covers(Rule(r.segs[1..], r.mode), path[1..])
  }

  predicate CoveredBy(rules: seq<Rule>, path: Path) {
    exists r :: r in rules && Covers(r, path)
  }

  /** Only a non-null scalar at a covered position changes. */
  function Mask(h: Option<Head>, covered: bool): Option<Head> {
    if h.Some? && covered && h.value.Scalar() then Some(StrHead(PLACEHOLDER)) else h
  }

  lemma {:induction false} RedactAllAt(v: Json, path: Path)
    ensures HeadAt(RedactAllScalars(v), path) == Mask(HeadAt(v, path), true)
    decreases path
  {
    if path != [] {
      var c := Child(v, path[0]);
      if c.Some? {
        RedactAllAt(c.value, path[1..]);
      }
      assert v.Obj? ==> RedactAllScalars(v).fields.Keys == v.fields.Keys;
    } else {
      assert v.Obj? ==> RedactAllScalars(v).fields.Keys == v.fields.Keys;
    }
  }

  lemma {:induction false} ApplyAt(v: Json, r: Rule, path: Path)
    ensures HeadAt(Apply(v, r.segs, r.mode), path) == Mask(HeadAt(v, path), Covers(r, path))
    decreases |r.segs|
  {
    var w := Apply(v, r.segs, r.mode);
    if r.segs == [] {
      if r.mode == RedactSubtree {
        RedactAllAt(v, path);
      } else if path != [] {
        assert v.Obj? || v.Arr? || (Child(v, path[0]).None? && Child(w, path[0]).None?);
      }
    } else {
      assert v.Obj? ==> w.Obj? && w.fields.Keys == v.fields.Keys;
      if path != [] {
        var c := Child(v, path[0]);
        if c.Some? {
          ApplyAt(c.value, Rule(r.segs[1..], r.mode), path[1..]);
        }
      }
    }
  }

  /** Redaction replaces exactly the non-null scalars covered by some rule, and keeps
      every key, array length, null and uncovered scalar. */
  lemma {:induction false} RedactionExact(v: Json, rules: seq<Rule>, path: Path)
    ensures HeadAt(ApplyRules(v, rules), path) == Mask(HeadAt(v, path), CoveredBy(rules, path))
    ensures HeadAt(ApplyRules(v, rules), path) ==
      match HeadAt(v, path)
      case Some(BoolHead(_)) => if CoveredBy(rules, path) then Some(StrHead("[REDACTED]")) else HeadAt(v, path)
      case Some(NumHead(_)) => if CoveredBy(rules, path) then Some(StrHead("[REDACTED]")) else HeadAt(v, path)
      case Some(StrHead(_)) => if CoveredBy(rules, path) then Some(StrHead("[REDACTED]")) else HeadAt(v, path)
      case _ => HeadAt(v, path)
    decreases rules
  {
    if rules != [] {
      ApplyAt(v, rules[0], path);
      RedactionExact(Apply(v, rules[0].segs, rules[0].mode), rules[1..], path);
      assert CoveredBy(rules, path) <==> Covers(rules[0], path) || CoveredBy(rules[1..], path);
    }
  }

  /** Redaction nests nothing deeper. */
  lemma RedactionKeepsShallow(v: Json, rules: seq<Rule>, depth: nat)
    requires Shallow(v, depth)
    ensures Shallow(ApplyRules(v, rules), depth)
  {
    var w := ApplyRules(v, rules);
    forall path: Path | HeadAt(w, path).Some? && HeadAt(w, path).value.Composite() ensures |path| < depth {
      RedactionExact(v, rules, path);
    }
  }

  /** Two rule lists redact alike whenever they cover the same positions: order and
      repetition of the rules do not matter. */
  lemma RedactionOrderFree(v: Json, rules: seq<Rule>, rules': seq<Rule>)
    requires forall r :: r in rules <==> r in rules'
    ensures ApplyRules(v, rules) == ApplyRules(v, rules')
  {
    forall path: Path
      ensures HeadAt(ApplyRules(v, rules), path) == HeadAt(ApplyRules(v, rules'), path)
    {
      RedactionExact(v, rules, path);
      RedactionExact(v, rules', path);
    }
    Extensional(ApplyRules(v, rules), ApplyRules(v, rules'));
  }

  lemma RedactionIdempotent(v: Json, rules: seq<Rule>)
    ensures ApplyRules(ApplyRules(v, rules), rules) == ApplyRules(v, rules)
  {
    var w := ApplyRules(v, rules);
    forall path: Path
      ensures HeadAt(ApplyRules(w, rules), path) == HeadAt(w, path)
    {
      RedactionExact(v, rules, path);
      RedactionExact(w, rules, path);
    }
    Extensional(ApplyRules(w, rules), w);
  }
}
