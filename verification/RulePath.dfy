/** internal/redact/path.go: compiling a dotted rule path into segments. */
module RulePath {
  import opened Redact

  const STARS := "[*]"

  function SplitDots(s: string): (parts: seq<string>)
    ensures |parts| > 0
    ensures forall p :: p in parts ==> '.' !in p
  {
    if s == "" then [""]
    else
      var r := SplitDots(s[1..]);
      if s[0] == '.' then [""] + r else [[s[0]] + r[0]] + r[1..]
  }

  predicate EndsInStars(p: string) {
    |p| >= 3 && p[|p|-3..] == STARS
  }

  /** p without its trailing [*] tokens, and how many there were. */
  function Strip(p: string): (r: (string, nat))
    ensures |r.0| <= |p| && !EndsInStars(r.0)
    ensures '.' !in p ==> '.' !in r.0
  {
    if EndsInStars(p) then
      var r := Strip(p[..|p|-3]);
      (r.0, r.1 + 1)
    else (p, 0)
  }

  function ArrayWildcards(n: nat): seq<Segment> {
    seq(n, i => ArrayWildcard)
  }

  function CompilePart(p: string): seq<Segment> {
    var r := Strip(p);
    (if r.0 == "*" then [MapWildcard] else if r.0 == "" then [] else [Literal(r.0)]) + ArrayWildcards(r.1)
  }

  function CompileParts(parts: seq<string>): seq<Segment> {
    if parts == [] then [] else CompilePart(parts[0]) + CompileParts(parts[1..])
  }

  function Compile(path: string): seq<Segment> {
    if path == "" then [] else CompileParts(SplitDots(path))
  }

  lemma {:induction false} CompilePartsSnoc(parts: seq<string>, p: string)
    ensures CompileParts(parts + [p]) == CompileParts(parts) + CompilePart(p)
  {
    if parts == [] {
      assert parts + [p] == [p];
      assert CompileParts([p]) == CompilePart(p) + CompileParts([]);
    } else {
      CompilePartsSnoc(parts[1..], p);
      assert (parts + [p])[1..] == parts[1..] + [p];
    }
  }

  /** The loop body: one dot-free part. */
  method AppendPart(part: string, before: seq<Segment>) returns (out: seq<Segment>)
    ensures out == before + CompilePart(part)
  {
    var p, trailing := part, 0;
    while EndsInStars(p)
      invariant Strip(part) == (Strip(p).0, trailing + Strip(p).1)
      decreases |p|
    {
      p, trailing := p[..|p|-3], trailing + 1;
    }
    hide EndsInStars, Strip;
    out := before;
    if p == "*" {
      out := out + [MapWildcard];
    } else if p != "" {
      out := out + [Literal(p)];
    }
    ghost var head := out;
    for j := 0 to trailing
      invariant out == head + ArrayWildcards(j)
    {
      out := out + [ArrayWildcard];
    }
  }

  method CompilePath(path: string) returns (out: seq<Segment>)
    ensures out == Compile(path)
  {
    hide CompileParts, CompilePart, SplitDots;
    if path == "" {
      return [];
    }
    var parts := SplitDots(path);
    out := [];
    CompilePartsNil();
    for i := 0 to |parts|
      invariant out == CompileParts(parts[..i])
    {
      CompilePartsSnoc(parts[..i], parts[i]);
      assert parts[..i] + [parts[i]] == parts[..i+1];
      out := AppendPart(parts[i], out);
    }
    assert parts[..|parts|] == parts;
  }

  lemma CompilePartsNil()
    ensures CompileParts([]) == []
  {
  }

  // ------------------------------------------------------------ round trip

  function Token(seg: Segment): string {
    match seg
    case Literal(name) => name
    case MapWildcard => "*"
    case ArrayWildcard => STARS
  }

  /** The dotted form: array wildcards attach to what precedes them. */
  function Print(segs: seq<Segment>): string {
    if segs == [] then "" else Token(segs[0]) + PrintTail(segs[1..])
  }

  function PrintTail(segs: seq<Segment>): string {
    if segs == [] then ""
    else (if segs[0] == ArrayWildcard then STARS else "." + Token(segs[0])) + PrintTail(segs[1..])
  }

  /** A literal that a dotted path can spell. */
  predicate Spellable(seg: Segment) {
    seg.Literal? ==> seg.name != "" && '.' !in seg.name && seg.name != "*" && !EndsInStars(seg.name)
  }

  predicate AllSpellable(segs: seq<Segment>) {
    forall i :: 0 <= i < |segs| ==> Spellable(segs[i])
  }

  lemma {:induction false} SplitDotsAppend(a: string, b: string)
    requires '.' !in a
    ensures SplitDots(a + b) == [a + SplitDots(b)[0]] + SplitDots(b)[1..]
  {
    if a == "" {
      assert a + b == b;
      var r := SplitDots(b);
      assert "" + r[0] == r[0] && [r[0]] + r[1..] == r;
    } else {
      SplitDotsAppend(a[1..], b);
      assert (a + b)[1..] == a[1..] + b;
      var r := SplitDots(b);
      assert SplitDots(a[1..] + b) == [a[1..] + r[0]] + r[1..];
      assert [a[0]] + (a[1..] + r[0]) == a + r[0];
      assert SplitDots(a[1..] + b)[1..] == r[1..];
    }
  }

  lemma StripStars(x: string)
    ensures Strip(x + STARS) == (Strip(x).0, Strip(x).1 + 1)
    ensures CompilePart(x + STARS) == CompilePart(x) + [ArrayWildcard]
  {
    assert (x + STARS)[|x|..] == STARS && (x + STARS)[..|x|] == x;
    assert EndsInStars(x + STARS);
    hide EndsInStars, Strip;
    var n := Strip(x).1;
    assert ArrayWildcards(n + 1) == ArrayWildcards(n) + [ArrayWildcard];
  }

  lemma CompileToken(seg: Segment)
    requires Spellable(seg)
    ensures CompilePart(Token(seg)) == [seg] && '.' !in Token(seg)
  {
    match seg
    case Literal(name) =>
    case MapWildcard =>
    case ArrayWildcard =>
      assert Token(seg)[..0] == "" && Token(seg)[0..] == STARS;
      assert Strip(STARS) == (Strip("").0, Strip("").1 + 1);
  }

  lemma SplitAtDot(x: string, y: string)
    requires '.' !in x
    ensures SplitDots(x + ("." + y)) == [x] + SplitDots(y)
  {
    hide SplitDots;
    SplitDotsAppend(x, "." + y);
    SplitLeadingDot(y);
    assert x + "" == x;
  }

  lemma SplitLeadingDot(y: string)
    ensures SplitDots("." + y) == [""] + SplitDots(y)
  {
    assert ("." + y)[1..] == y;
  }

  lemma SplitNoDot(x: string)
    requires '.' !in x
    ensures SplitDots(x) == [x]
  {
    SplitDotsAppend(x, "");
    assert x + "" == x;
  }

  lemma CompilePartsCons(x: string, parts: seq<string>)
    ensures CompileParts([x] + parts) == CompilePart(x) + CompileParts(parts)
  {
    assert ([x] + parts)[1..] == parts;
  }

  lemma {:induction false} CompilePrintTail(x: string, segs: seq<Segment>)
    requires '.' !in x && AllSpellable(segs)
    ensures CompileParts(SplitDots(x + PrintTail(segs))) == CompilePart(x) + segs
    decreases |segs|
  {
    hide SplitDots, CompileParts, CompilePart, Token, EndsInStars;
    if segs == [] {
      SplitNoDot(x);
      assert x + "" == x && [x] + [] == [x];
      CompilePartsCons(x, []);
      CompilePartsNil();
    } else {
      var rest := PrintTail(segs[1..]);
      assert segs == [segs[0]] + segs[1..];
      if segs[0] == ArrayWildcard {
        StripStars(x);
        CompilePrintTail(x + STARS, segs[1..]);
        assert x + PrintTail(segs) == x + STARS + rest;
      } else {
        var t := Token(segs[0]);
        CompileToken(segs[0]);
        CompilePrintTail(t, segs[1..]);
        assert x + PrintTail(segs) == x + ("." + (t + rest));
        SplitAtDot(x, t + rest);
        CompilePartsCons(x, SplitDots(t + rest));
      }
    }
  }

  lemma {:induction false} CompiledSpellable(parts: seq<string>)
    requires forall p :: p in parts ==> '.' !in p
    ensures AllSpellable(CompileParts(parts))
  {
    if parts != [] {
      CompiledSpellable(parts[1..]);
    }
  }

  /** Compiling undoes printing exactly for the segment lists a dotted path can spell. */
  lemma CompileUndoesPrint(segs: seq<Segment>)
    ensures Compile(Print(segs)) == segs <==> AllSpellable(segs)
  {
    if segs != [] {
      hide SplitDots, CompileParts, CompilePart, PrintTail, Strip;
      if AllSpellable(segs) {
        CompileToken(segs[0]);
        CompilePrintTail(Token(segs[0]), segs[1..]);
        assert segs == [segs[0]] + segs[1..];
        assert Token(segs[0]) != "";
      } else if Print(segs) != "" {
        CompiledSpellable(SplitDots(Print(segs)));
      }
    }
  }

  // ------------------------------------------------- every path, character by character

  function Stars(n: nat): string {
    if n == 0 then "" else Stars(n - 1) + "[*]"
  }

  function NameOf(name: string): seq<Segment> {
    match name
    case "" => []
    case "*" => [MapWildcard]
    case _ => [Literal(name)]
  }

  /** A part is a name, an asterisk or nothing, with any number of [*] behind it. */
  lemma {:induction false} PartExact(name: string, n: nat)
    requires forall rest :: name != rest + "[*]"
    ensures CompilePart(name + Stars(n)) == NameOf(name) + seq(n, _ => ArrayWildcard)
  {
    hide CompilePart, NameOf;
    if n == 0 {
      BarePart(name);
      assert name + Stars(0) == name;
    } else {
      PartExact(name, n - 1);
      assert name + Stars(n) == name + Stars(n - 1) + "[*]";
      StripStars(name + Stars(n - 1));
      assert seq(n, _ => ArrayWildcard) == seq(n - 1, _ => ArrayWildcard) + [ArrayWildcard];
    }
  }

  lemma BarePart(name: string)
    requires forall rest :: name != rest + "[*]"
    ensures CompilePart(name) == NameOf(name) + seq(0, _ => ArrayWildcard)
  {
    EndsExact(name);
    assert ArrayWildcards(0) == seq(0, _ => ArrayWildcard);
  }

  lemma EndsExact(p: string)
    ensures EndsInStars(p) <==> exists rest :: p == rest + "[*]"
  {
    if EndsInStars(p) {
      assert p == p[..|p|-3] + "[*]";
    }
    if rest :| p == rest + "[*]" {
      assert p[|rest|..] == "[*]";
    }
  }

  function Dotted(parts: seq<string>): string
    requires parts != []
  {
    if |parts| == 1 then parts[0] else parts[0] + "." + Dotted(parts[1..])
  }

  /** A path is compiled part by part between its dots, and the empty path to nothing. */
  lemma {:induction false} PartsExact(parts: seq<string>)
    requires parts != [] && forall p :: p in parts ==> '.' !in p
    ensures SplitDots(Dotted(parts)) == parts
  {
    assert parts[0] in parts && forall p :: p in parts[1..] ==> p in parts;
    hide SplitDots;
    if |parts| == 1 {
      SplitNoDot(parts[0]);
    } else {
      PartsExact(parts[1..]);
      SplitAtDot(parts[0], Dotted(parts[1..]));
      assert parts[0] + "." + Dotted(parts[1..]) == parts[0] + ("." + Dotted(parts[1..]));
    }
  }

  lemma PathExact(parts: seq<string>)
    requires parts != [] && forall p :: p in parts ==> '.' !in p
    ensures Compile(Dotted(parts)) == if Dotted(parts) == "" then [] else CompileParts(parts)
    ensures CompileParts(parts) == CompilePart(parts[0]) + CompileParts(parts[1..]) && CompileParts([]) == []
  {
    PartsExact(parts);
  }
}
