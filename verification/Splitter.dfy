/** store/migrate.go: cutting a SQL script into statements.

    A script is a sequence of bytes. The lexer recognises three things at top
    level: a line comment (-- up to and including the newline), a dollar-quoted
    block ($tag$ up to and including the next $tag$), and a semicolon, which ends
    the statement. Every other byte stands for itself. */
module Splitter {

  newtype byte = x: int | 0 <= x < 0x100
  type Bytes = seq<byte>

  const NEWLINE: byte := 10
  const SEMICOLON: byte := 59
  const DASH: byte := 45
  const DOLLAR: byte := 36

  predicate IsTagByte(b: byte) {
    b == 95 || 65 <= b <= 90 || 97 <= b <= 122 || 48 <= b <= 57
  }

  // ---------------------------------------------------------------- tokens

  /** How a run of bytes leaves the lexer. */
  datatype Mode = Top | InComment | InQuote

  /** The first token of a non-empty script: its length, and the mode it leaves
      the lexer in when the script ends before the token does. */
  datatype Token = Token(length: nat, mode: Mode)

  function TagRun(s: Bytes): (n: nat)
    ensures n <= |s|
    ensures forall i :: 0 <= i < n ==> IsTagByte(s[i])
    ensures n < |s| ==> !IsTagByte(s[n])
  {
    if s == [] || !IsTagByte(s[0]) then 0 else 1 + TagRun(s[1..])
  }

  /** Length of the opening $tag$ at the front of s, or 0. */
  function OpenerLength(s: Bytes): (n: nat)
    ensures n <= |s| && n != 1
  {
    if s == [] || s[0] != DOLLAR then 0
    else
      var n := TagRun(s[1..]);
      if 1 + n < |s| && s[1 + n] == DOLLAR then n + 2 else 0
  }

  predicate StartsComment(s: Bytes) {
    |s| >= 2 && s[0] == DASH && s[1] == DASH
  }

  /** Bytes up to and including the first newline. */
  function LineEnd(s: Bytes): (n: nat)
    ensures n <= |s|
    ensures s != [] ==> n > 0
  {
    if s == [] then 0 else if s[0] == NEWLINE then 1 else 1 + LineEnd(s[1..])
  }

  /** Bytes up to and including the first occurrence of tag; None when there is none. */
  function QuoteEnd(s: Bytes, tag: Bytes): (n: nat)
    ensures n <= |s|
  {
    if s == [] then 0 else if tag <= s then |tag| else 1 + QuoteEnd(s[1..], tag)
  }

  predicate QuoteCloses(s: Bytes, tag: Bytes) {
    s != [] && (tag <= s || QuoteCloses(s[1..], tag))
  }

  function First(s: Bytes): (t: Token)
    requires s != []
    ensures 0 < t.length <= |s|
    ensures t.mode != Top ==> t.length == |s|
  {
    if StartsComment(s) then
      Token(LineEnd(s), if NEWLINE in s then Top else (LineEndOpen(s); InComment))
    else
      var n := OpenerLength(s);
      if n > 0 then
        if QuoteCloses(s[n..], s[..n]) then Token(n + QuoteEnd(s[n..], s[..n]), Top)
        else (QuoteEndOpen(s[n..], s[..n]); Token(|s|, InQuote))
      else Token(1, Top)
  }

  lemma LineEndOpen(s: Bytes)
    requires NEWLINE !in s
    ensures LineEnd(s) == |s|
  {
  }

  lemma QuoteEndOpen(s: Bytes, tag: Bytes)
    requires !QuoteCloses(s, tag)
    ensures QuoteEnd(s, tag) == |s|
  {
  }

  /** Offset of the first semicolon that is at top level, or |s|. */
  function NextCut(s: Bytes): (c: nat)
    ensures c <= |s|
    ensures c < |s| ==> s[c] == SEMICOLON
  {
    if s == [] || s[0] == SEMICOLON then 0
    else var e := First(s).length; e + NextCut(s[e..])
  }

  /** The mode the lexer is in after the whole of s. */
  function EndMode(s: Bytes): Mode {
    if s == [] then Top
    else
      var t := First(s);
      if t.mode != Top then t.mode else EndMode(s[t.length..])
  }

  // ------------------------------------------------------------- trimming

  /** One white-space character in UTF-8, the set of Go's unicode.IsSpace. */
  predicate IsSpace(u: Bytes) {
    || (|u| == 1 && (9 <= u[0] <= 13 || u[0] == 32))
    || (|u| == 2 && u[0] == 0xC2 && (u[1] == 0x85 || u[1] == 0xA0))
    || (|u| == 3 && u[0] == 0xE1 && u[1] == 0x9A && u[2] == 0x80)
    || (|u| == 3 && u[0] == 0xE2 && u[1] == 0x80 && (0x80 <= u[2] <= 0x8A || u[2] == 0xA8 || u[2] == 0xA9 || u[2] == 0xAF))
    || (|u| == 3 && u[0] == 0xE2 && u[1] == 0x81 && u[2] == 0x9F)
    || (|u| == 3 && u[0] == 0xE3 && u[1] == 0x80 && u[2] == 0x80)
  }

  function SpaceAtFront(s: Bytes): (n: nat)
    ensures n <= |s| && n <= 3
  {
    if |s| >= 1 && IsSpace(s[..1]) then 1
    else if |s| >= 2 && IsSpace(s[..2]) then 2
    else if |s| >= 3 && IsSpace(s[..3]) then 3
    else 0
  }

  function SpaceAtBack(s: Bytes): (n: nat)
    ensures n <= |s| && n <= 3
  {
    if |s| >= 1 && IsSpace(s[|s|-1..]) then 1
    else if |s| >= 2 && IsSpace(s[|s|-2..]) then 2
    else if |s| >= 3 && IsSpace(s[|s|-3..]) then 3
    else 0
  }

  function TrimLeft(s: Bytes): (r: Bytes)
    ensures |r| <= |s|
  {
    var n := SpaceAtFront(s);
    if n == 0 then s else TrimLeft(s[n..])
  }

  function TrimRight(s: Bytes): (r: Bytes)
    ensures r <= s
  {
    var n := SpaceAtBack(s);
    if n == 0 then s else TrimRight(s[..|s|-n])
  }

  function Trim(s: Bytes): (r: Bytes)
    ensures |r| <= |s|
  {
    TrimRight(TrimLeft(s))
  }

  // ----------------------------------------------------------- statements

  function Lines(s: Bytes): (ls: seq<Bytes>)
  {
    var n := LineEnd(s);
    if NEWLINE in s then [s[..n-1]] + Lines(s[n..]) else [s]
  }

  predicate IsCommentLine(line: Bytes) {
    var t := Trim(line);
    t == [] || (|t| >= 2 && t[0] == DASH && t[1] == DASH)
  }

  predicate AllComment(s: Bytes) {
    forall l :: l in Lines(s) ==> IsCommentLine(l)
  }

  /** What one chunk contributes: its trimmed text, unless blank or comment-only. */
  function Flush(chunk: Bytes): (out: seq<Bytes>)
    ensures |out| <= 1
  {
    var t := Trim(chunk);
    if t == [] || AllComment(t) then [] else [t]
  }

  /** The chunks between top-level semicolons. */
  function Pieces(s: Bytes): (ps: seq<Bytes>)
    ensures |ps| > 0
    decreases |s|
  {
    var c := NextCut(s);
    if c == |s| then [s] else [s[..c]] + Pieces(s[c+1..])
  }

  function FlushAll(ps: seq<Bytes>): seq<Bytes> {
    if ps == [] then [] else Flush(ps[0]) + FlushAll(ps[1..])
  }

  function Statements(s: Bytes): seq<Bytes> {
    FlushAll(Pieces(s))
  }

  function Join(ps: seq<Bytes>, sep: Bytes): Bytes {
    if ps == [] then [] else if |ps| == 1 then ps[0] else ps[0] + sep + Join(ps[1..], sep)
  }

  // --------------------------------------------------- white space, plainly

  /** The UTF-8 encoding of a code point (section 3 of RFC 3629). */
  function Utf8(c: nat): Bytes
    requires c < 0x10000
  {
    if c < 0x80 then [c as byte]
    else if c < 0x800 then [(0xC0 + c / 64) as byte, (0x80 + c % 64) as byte]
    else [(0xE0 + c / 4096) as byte, (0x80 + c / 64 % 64) as byte, (0x80 + c % 64) as byte]
  }

  /** The code points with Unicode's White_Space property. */
  predicate WhiteSpace(c: nat) {
    9 <= c <= 13 || 0x2000 <= c <= 0x200A || c in {0x20, 0x85, 0xA0, 0x1680, 0x2028, 0x2029, 0x202F, 0x205F, 0x3000}
  }

  lemma IsSpaceExact(u: Bytes)
    ensures IsSpace(u) <==> exists c: nat :: c < 0x10000 && WhiteSpace(c) && u == Utf8(c)
  {
    if IsSpace(u) {
      var c := SpacePoint(u);
    }
  }

  lemma SpacePoint(u: Bytes) returns (c: nat)
    requires IsSpace(u)
    ensures c < 0x10000 && WhiteSpace(c) && u == Utf8(c)
  {
    c := if |u| == 1 then u[0] as nat
         else if |u| == 2 then (u[0] as nat - 0xC0) * 64 + (u[1] as nat - 0x80)
         else (u[0] as nat - 0xE0) * 4096 + (u[1] as nat - 0x80) * 64 + (u[2] as nat - 0x80);
  }

  /** A run of white-space characters. */
  ghost predicate AllSpace(u: Bytes)
    decreases |u|
  {
    u == [] || exists n :: 0 < n <= |u| && IsSpace(u[..n]) && AllSpace(u[n..])
  }

  lemma {:induction false} AllSpaceJoin(u: Bytes, v: Bytes)
    requires AllSpace(u) && AllSpace(v)
    ensures AllSpace(u + v)
    decreases |u|
  {
    hide IsSpace;
    if u == [] {
      assert u + v == v;
    } else {
      var n :| 0 < n <= |u| && IsSpace(u[..n]) && AllSpace(u[n..]);
      AllSpaceJoin(u[n..], v);
      assert (u + v)[..n] == u[..n] && (u + v)[n..] == u[n..] + v;
    }
  }

  lemma AllSpaceOne(u: Bytes)
    requires IsSpace(u)
    ensures AllSpace(u)
  {
    var n := |u|;
    assert u[..n] == u && u[n..] == [];
  }

  lemma NoSpaceAtEnds(s: Bytes)
    ensures SpaceAtFront(s) == 0 ==> forall n :: 0 <= n <= |s| ==> !IsSpace(s[..n])
    ensures SpaceAtBack(s) == 0 ==> forall n :: 0 <= n <= |s| ==> !IsSpace(s[n..])
  {
    LongIsNoSpace();
    hide IsSpace;
    forall n | SpaceAtBack(s) == 0 && 0 <= n <= |s| ensures !IsSpace(s[n..]) {
      assert |s| - n == 1 ==> s[n..] == s[|s|-1..];
      assert |s| - n == 2 ==> s[n..] == s[|s|-2..];
      assert |s| - n == 3 ==> s[n..] == s[|s|-3..];
    }
  }

  lemma LongIsNoSpace()
    ensures forall u :: IsSpace(u) ==> 1 <= |u| <= 3
  {
  }

  lemma {:induction false} TrimLeftExact(s: Bytes)
    ensures var k := |s| - |TrimLeft(s)|; TrimLeft(s) == s[k..] && AllSpace(s[..k])
    ensures forall n :: 0 <= n <= |TrimLeft(s)| ==> !IsSpace(TrimLeft(s)[..n])
  {
    hide IsSpace;
    var n := SpaceAtFront(s);
    if n == 0 {
      NoSpaceAtEnds(s);
      assert s[..0] == [] && s[0..] == s;
    } else {
      TrimLeftExact(s[n..]);
      var k := |s| - |TrimLeft(s)|;
      AllSpaceOne(s[..n]);
      AllSpaceJoin(s[..n], s[n..][..k-n]);
      assert s[..k] == s[..n] + s[n..][..k-n];
    }
  }

  lemma {:induction false} TrimRightExact(s: Bytes)
    ensures TrimRight(s) <= s && AllSpace(s[|TrimRight(s)|..])
    ensures forall n :: 0 <= n <= |TrimRight(s)| ==> !IsSpace(TrimRight(s)[n..])
  {
    hide IsSpace;
    var n := SpaceAtBack(s);
    if n == 0 {
      NoSpaceAtEnds(s);
    } else {
      var q := s[..|s|-n];
      TrimRightExact(q);
      var k := |TrimRight(s)|;
      AllSpaceOne(s[|s|-n..]);
      AllSpaceJoin(q[k..], s[|s|-n..]);
      assert s[k..] == q[k..] + s[|s|-n..];
    }
  }

  /** Trimming takes white space from both ends and leaves none at either end. */
  lemma TrimExact(s: Bytes)
    ensures exists i, j :: 0 <= i <= j <= |s| && Trim(s) == s[i..j] && AllSpace(s[..i]) && AllSpace(s[j..])
    ensures forall n :: 0 <= n <= |Trim(s)| ==> !IsSpace(Trim(s)[..n]) && !IsSpace(Trim(s)[n..])
  {
    hide IsSpace, AllSpace, TrimLeft, TrimRight;
    TrimLeftExact(s);
    var q := TrimLeft(s);
    TrimRightExact(q);
    var i, t := |s| - |q|, TrimRight(q);
    assert t == s[i..i+|t|] && s[i+|t|..] == q[|t|..];
    forall n | 0 <= n <= |t| ensures !IsSpace(t[..n]) && !IsSpace(t[n..]) {
      assert t[..n] == q[..n];
    }
  }

  // --------------------------------------------------- what is dropped, plainly

  /** t[a..b] is one line of t: a longest stretch without a newline. */
  ghost predicate LineAt(t: Bytes, a: int, b: int) {
    && 0 <= a <= b <= |t| && NEWLINE !in t[a..b]
    && (a == 0 || t[a-1] == NEWLINE) && (b == |t| || t[b] == NEWLINE)
  }

  /** The first newline of s is its n-th byte. */
  ghost predicate FirstNewline(s: Bytes, n: nat) {
    0 < n <= |s| && s[n-1] == NEWLINE && NEWLINE !in s[..n-1]
  }

  lemma {:induction false} LineEndExact(s: Bytes, n: nat)
    ensures NEWLINE in s && LineEnd(s) == n <==> FirstNewline(s, n)
  {
    if s != [] && s[0] != NEWLINE && n > 0 {
      LineEndExact(s[1..], n - 1);
      assert s == [s[0]] + s[1..];
      hide LineEnd;
      assert 1 < n <= |s| ==> s[..n-1] == [s[0]] + s[1..][..n-2];
    } else if s != [] && s[0] == NEWLINE {
      assert 1 < n <= |s| ==> s[..n-1][0] == NEWLINE;
    }
  }

  lemma LineShift(s: Bytes, n: nat, a: int, b: int)
    requires FirstNewline(s, n)
    ensures a >= n ==> (LineAt(s, a, b) <==> LineAt(s[n..], a - n, b - n))
    ensures a < n ==> (LineAt(s, a, b) <==> a == 0 && b == n - 1)
  {
    var r := s[n..];
    if n <= a <= b <= |s| {
      assert s[a..b] == r[a-n..b-n];
      assert a > n ==> s[a-1] == r[a-1-n];
      assert b < |s| ==> s[b] == r[b-n];
    }
    if 0 <= a < n && a <= b <= |s| {
      assert b >= n ==> s[a..b][n-1-a] == NEWLINE;
      assert a > 0 ==> s[..n-1][a-1] == s[a-1];
      assert b < n - 1 ==> s[..n-1][b] == s[b];
      assert b == n - 1 && a == 0 ==> s[a..b] == s[..n-1];
    }
  }

  /** The lines are the longest stretches without a newline. */
  lemma {:induction false} LinesExact(s: Bytes, l: Bytes)
    ensures l in Lines(s) <==> exists a, b :: LineAt(s, a, b) && l == s[a..b]
    decreases |s|
  {
    var n := LineEnd(s);
    if NEWLINE in s {
      LineEndExact(s, n);
      LinesExact(s[n..], l);
      hide LineEnd, LineAt;
      forall a: int, b: int
        ensures a >= n ==> (LineAt(s, a, b) <==> LineAt(s[n..], a - n, b - n))
        ensures a < n ==> (LineAt(s, a, b) <==> a == 0 && b == n - 1)
      {
        LineShift(s, n, a, b);
      }
      LaterLines(s, n, l);
    } else {
      assert LineAt(s, 0, |s|) && s[0..|s|] == s;
    }
  }

  lemma LaterLines(s: Bytes, n: nat, l: Bytes)
    requires 0 < n <= |s|
    requires forall a, b :: a >= n ==> (LineAt(s, a, b) <==> LineAt(s[n..], a - n, b - n))
    requires forall a, b :: a < n ==> (LineAt(s, a, b) <==> a == 0 && b == n - 1)
    ensures (exists a, b :: LineAt(s, a, b) && l == s[a..b]) <==>
      l == s[..n-1] || exists a, b :: LineAt(s[n..], a, b) && l == s[n..][a..b]
  {
    if a, b :| LineAt(s, a, b) && l == s[a..b] {
      if a >= n {
        assert LineAt(s[n..], a - n, b - n) && s[n..][a-n..b-n] == l by { Inside(s, a, b); }
      }
    }
    if a, b :| LineAt(s[n..], a, b) && l == s[n..][a..b] {
      Inside(s[n..], a, b);
      assert LineAt(s, a + n, b + n) && s[a+n..b+n] == l;
    }
    assert LineAt(s, 0, n - 1);
  }

  lemma Inside(t: Bytes, a: int, b: int)
    requires LineAt(t, a, b)
    ensures 0 <= a <= b <= |t|
  {
  }

  /** A chunk that contributes nothing: blank, or every line of it, trimmed, is empty or
      starts with two dashes. */
  ghost predicate Dropped(chunk: Bytes) {
    var t := Trim(chunk);
    t == [] || forall a, b :: LineAt(t, a, b) ==> Trim(t[a..b]) == [] || [DASH, DASH] <= Trim(t[a..b])
  }

  lemma CommentLines(t: Bytes)
    ensures AllComment(t) <==> forall a, b :: LineAt(t, a, b) ==> Trim(t[a..b]) == [] || [DASH, DASH] <= Trim(t[a..b])
  {
    hide Lines, Trim;
    forall l ensures l in Lines(t) <==> exists a, b :: LineAt(t, a, b) && l == t[a..b] {
      LinesExact(t, l);
    }
    if AllComment(t) {
      forall a, b | LineAt(t, a, b) ensures Trim(t[a..b]) == [] || [DASH, DASH] <= Trim(t[a..b]) {
        assert t[a..b] in Lines(t);
      }
    }
  }

  /** A chunk contributes its trimmed text or nothing, and nothing exactly when it is
      blank or only comments. */
  lemma FlushExact(chunk: Bytes)
    ensures Flush(chunk) == if Dropped(chunk) then [] else [Trim(chunk)]
  {
    CommentLines(Trim(chunk));
    hide AllComment, LineAt, Trim;
  }

  /** out holds, in order, the trimmed text of exactly the chunks that are not dropped;
      at are their positions. */
  ghost predicate EmittedFrom(chunks: seq<Bytes>, out: seq<Bytes>, at: seq<nat>) {
    && |at| == |out| && (forall j, k :: 0 <= j < k < |at| ==> at[j] < at[k])
    && (forall k :: 0 <= k < |at| ==> at[k] < |chunks| && out[k] == Trim(chunks[at[k]]))
    && (forall i: nat :: i < |chunks| ==> (i in at <==> !Dropped(chunks[i])))
  }

  lemma {:induction false} FlushAllExact(chunks: seq<Bytes>) returns (at: seq<nat>)
    ensures EmittedFrom(chunks, FlushAll(chunks), at)
  {
    hide Flush, Dropped, Trim;
    if chunks == [] {
      at := [];
    } else {
      var later := FlushAllExact(chunks[1..]);
      FlushExact(chunks[0]);
      at := Moved(later);
      MovedOn(chunks, later);
      assert FlushAll(chunks) == Flush(chunks[0]) + FlushAll(chunks[1..]);
      hide FlushAll, EmittedFrom, EmittedLater;
      if Dropped(chunks[0]) {
        assert [] + FlushAll(chunks[1..]) == FlushAll(chunks[1..]);
        EmitsLater(chunks, FlushAll(chunks[1..]), at);
      } else {
        EmitsFirst(chunks, FlushAll(chunks[1..]), at);
        at := [0] + at;
      }
    }
  }

  /** The same of the chunks but the first. */
  ghost predicate EmittedLater(chunks: seq<Bytes>, out: seq<Bytes>, at: seq<nat>) {
    && |at| == |out| && (forall j, k :: 0 <= j < k < |at| ==> at[j] < at[k])
    && (forall k :: 0 <= k < |at| ==> 0 < at[k] < |chunks| && out[k] == Trim(chunks[at[k]]))
    && (forall i: nat :: i < |chunks| ==> (i in at <==> i > 0 && !Dropped(chunks[i])))
  }

  lemma EmitsLater(chunks: seq<Bytes>, out: seq<Bytes>, at: seq<nat>)
    requires chunks != [] && EmittedLater(chunks, out, at) && Dropped(chunks[0])
    ensures EmittedFrom(chunks, out, at)
  {
    hide Dropped, Trim;
  }

  lemma EmitsFirst(chunks: seq<Bytes>, out: seq<Bytes>, at: seq<nat>)
    requires chunks != [] && EmittedLater(chunks, out, at) && !Dropped(chunks[0])
    ensures EmittedFrom(chunks, [Trim(chunks[0])] + out, [0] + at)
  {
    hide Dropped, Trim;
    var more := [0] + at;
    forall i: nat | i < |chunks| ensures i in more <==> !Dropped(chunks[i]) {
      assert i in more <==> i == 0 || i in at;
    }
  }

  function Moved(at: seq<nat>): seq<nat> {
    seq(|at|, k requires 0 <= k < |at| => at[k] + 1)
  }

  lemma MovedOn(chunks: seq<Bytes>, later: seq<nat>)
    requires chunks != [] && EmittedFrom(chunks[1..], FlushAll(chunks[1..]), later)
    ensures EmittedLater(chunks, FlushAll(chunks[1..]), Moved(later))
  {
    hide FlushAll, Dropped, Trim;
    var at := Moved(later);
    forall i: nat | i < |chunks| ensures i in at <==> i > 0 && !Dropped(chunks[i]) {
      if i > 0 {
        assert chunks[i] == chunks[1..][i-1];
        if i - 1 in later {
          var k :| 0 <= k < |later| && later[k] == i - 1;
          assert at[k] == i;
        }
      }
      if i in at {
        var k :| 0 <= k < |at| && at[k] == i;
        assert later[k] in later;
      }
    }
  }

  // ------------------------------------------------------ the loop itself

  /** Distance from a point in the given mode to the next cut. */
  ghost function RestCut(mode: Mode, tag: Bytes, s: Bytes): nat {
    match mode
    case Top => NextCut(s)
    case InComment => LineEnd(s) + NextCut(s[LineEnd(s)..])
    case InQuote => QuoteEnd(s, tag) + NextCut(s[QuoteEnd(s, tag)..])
  }

  method IsAllComment(stmt: Bytes) returns (all: bool)
    ensures all == AllComment(stmt)
    ensures all <==> forall a, b :: LineAt(stmt, a, b) ==> Trim(stmt[a..b]) == [] || [DASH, DASH] <= Trim(stmt[a..b])
  {
    CommentLines(stmt);
    var lines := Lines(stmt);
    hide Lines, IsCommentLine, LineAt, Trim;
    all := true;
    for k := 0 to |lines|
      invariant all
      invariant forall j :: 0 <= j < k ==> IsCommentLine(lines[j])
    {
      if !IsCommentLine(lines[k]) {
        return false;
      }
    }
  }

  method FlushBuffer(buf: Bytes, stmts: seq<Bytes>) returns (out: seq<Bytes>)
    ensures out == stmts + Flush(buf)
    ensures out == if Dropped(buf) then stmts else stmts + [Trim(buf)]
  {
    FlushExact(buf);
    hide Dropped;
    var stmt := Trim(buf);
    if stmt == [] {
      return stmts;
    }
    var allComment := IsAllComment(stmt);
    out := if allComment then stmts else stmts + [stmt];
  }

  lemma StepComment(tag: Bytes, s: Bytes)
    requires s != []
    ensures RestCut(InComment, tag, s) == 1 + RestCut(if s[0] == NEWLINE then Top else InComment, tag, s[1..])
  {
    assert s[LineEnd(s)..] == s[1..][LineEnd(s)-1..];
  }

  lemma StepQuote(tag: Bytes, s: Bytes)
    requires s != [] && tag != []
    ensures RestCut(InQuote, tag, s) == if tag <= s then |tag| + NextCut(s[|tag|..]) else 1 + RestCut(InQuote, tag, s[1..])
  {
    if !(tag <= s) {
      assert s[QuoteEnd(s, tag)..] == s[1..][QuoteEnd(s[1..], tag)..];
    }
  }

  lemma StepOpensComment(s: Bytes)
    requires StartsComment(s)
    ensures RestCut(Top, [], s) == 1 + RestCut(InComment, [], s[1..])
  {
    StepComment([], s);
  }

  lemma StepOpensQuote(s: Bytes)
    requires OpenerLength(s) > 0
    ensures OpenerLength(s) >= 2 && s[0] == DOLLAR
    ensures RestCut(Top, [], s) == OpenerLength(s) + RestCut(InQuote, s[..OpenerLength(s)], s[OpenerLength(s)..])
  {
    var n := OpenerLength(s);
    assert n >= 2 && s[0] == DOLLAR;
    hide OpenerLength, QuoteEnd, QuoteCloses, LineEnd, TagRun;
    var body, tag := s[n..], s[..n];
    var t := First(s);
    assert t.length == if QuoteCloses(body, tag) then n + QuoteEnd(body, tag) else |s|;
    assert NextCut(s) == t.length + NextCut(s[t.length..]);
    hide NextCut, First;
    if !QuoteCloses(body, tag) {
      QuoteEndOpen(body, tag);
    }
    assert s[n + QuoteEnd(body, tag)..] == body[QuoteEnd(body, tag)..];
  }

  lemma NoComment(s: Bytes)
    ensures StartsComment(s) <==> |s| >= 2 && s[0] == DASH && s[1] == DASH
  {
  }

  lemma NoOpener(s: Bytes)
    requires s != [] && s[0] != DOLLAR
    ensures OpenerLength(s) == 0
  {
  }

  lemma StepPlain(s: Bytes)
    requires s != [] && !StartsComment(s) && OpenerLength(s) == 0 && s[0] != SEMICOLON
    ensures RestCut(Top, [], s) == 1 + RestCut(Top, [], s[1..])
  {
  }

  lemma StepSemicolon(s: Bytes)
    requires s != [] && s[0] == SEMICOLON
    ensures RestCut(Top, [], s) == 0
  {
  }

  lemma StepEnd(mode: Mode, tag: Bytes)
    ensures RestCut(mode, tag, []) == 0
  {
  }

  lemma StepStart(s: Bytes)
    ensures RestCut(Top, [], s) == NextCut(s)
  {
  }

  lemma StepLast(s: Bytes)
    requires NextCut(s) == |s|
    ensures Statements(s) == Flush(s)
  {
    hide NextCut, Flush;
    assert Pieces(s) == [s];
    assert FlushAll([s]) == Flush(s) + FlushAll([]);
  }

  lemma StepFlush(s: Bytes)
    requires NextCut(s) < |s|
    ensures Statements(s) == Flush(s[..NextCut(s)]) + Statements(s[NextCut(s)+1..])
  {
    hide NextCut, Flush;
    var c := NextCut(s);
    assert Pieces(s) == [s[..c]] + Pieces(s[c+1..]);
    assert ([s[..c]] + Pieces(s[c+1..]))[1..] == Pieces(s[c+1..]);
  }

  /** The scan for an opening tag at script[i]: its length, or 0. */
  method FindOpener(script: Bytes, i: nat) returns (n: nat)
    requires i < |script| && script[i] == DOLLAR
    ensures n == OpenerLength(script[i..])
    ensures i + n <= |script|
  {
    var j := i + 1;
    assert script[i..][1..] == script[i+1..];
    while j < |script| && IsTagByte(script[j])
      invariant i + 1 <= j <= |script|
      invariant TagRun(script[i+1..]) == j - (i + 1) + TagRun(script[j..])
    {
      assert script[j..][1..] == script[j+1..];
      j := j + 1;
    }
    n := if j < |script| && script[j] == DOLLAR then j + 1 - i else 0;
  }

  /** Consuming k bytes at i: the buffer grows by them, the rest shrinks by them. */
  lemma Consume(s: Bytes, start: nat, i: nat, k: nat)
    requires start <= i <= i + k <= |s|
    ensures s[i..][..k] == s[i..i+k]
    ensures s[start..i] + s[i..i+k] == s[start..i+k]
    ensures k == 1 ==> s[start..i] + [s[i]] == s[start..i+1]
    ensures s[i..][k..] == s[i+k..]
  {
  }

  lemma PrefixAt(s: Bytes, i: nat, tag: Bytes)
    requires i <= |s|
    ensures tag <= s[i..] <==> i + |tag| <= |s| && s[i..i+|tag|] == tag
  {
  }

  /** One step of the scan at script[i], anything but a top-level semicolon: the
      number of bytes copied, and the state after them. */
  method LexStep(script: Bytes, i: nat, mode: Mode, dqTag: Bytes) returns (k: nat, mode': Mode, dqTag': Bytes)
    requires i < |script|
    requires if mode == InQuote then |dqTag| >= 2 && dqTag[0] == DOLLAR else dqTag == []
    requires !(mode == Top && script[i] == SEMICOLON)
    ensures 0 < k <= |script| - i
    ensures if mode' == InQuote then |dqTag'| >= 2 && dqTag'[0] == DOLLAR else dqTag' == []
    ensures RestCut(mode, dqTag, script[i..]) == k + RestCut(mode', dqTag', script[i+k..])
  {
    hide *;
    var c := script[i];
    ghost var rest := script[i..];
    Consume(script, i, i, 1);
    k, mode', dqTag' := 1, mode, dqTag;
    if mode == InComment {
      StepComment(dqTag, rest);
      if c == NEWLINE {
        mode' := Top;
      }
    } else if mode == InQuote {
      StepQuote(dqTag, rest);
      PrefixAt(script, i, dqTag);
      if c == DOLLAR && i + |dqTag| - 1 < |script| && script[i..i+|dqTag|] == dqTag {
        Consume(script, i, i, |dqTag|);
        StepStart(script[i+|dqTag|..]);
        k, mode', dqTag' := |dqTag|, Top, [];
      }
    } else if c == DASH && i + 1 < |script| && script[i+1] == DASH {
      NoComment(rest);
      StepOpensComment(rest);
      mode' := InComment;
    } else {
      NoComment(rest);
      var n := 0;
      if c == DOLLAR {
        n := FindOpener(script, i);
      } else {
        NoOpener(rest);
      }
      if n > 0 {
        Consume(script, i, i, n);
        StepOpensQuote(rest);
        k, mode', dqTag' := n, InQuote, script[i..i+n];
      } else {
        StepPlain(rest);
      }
    }
  }

  lemma StatementCut(script: Bytes, start: nat, i: nat)
    requires start <= i < |script| && script[i] == SEMICOLON
    requires NextCut(script[start..]) == i - start + RestCut(Top, [], script[i..])
    ensures Statements(script[start..]) == Flush(script[start..i]) + Statements(script[i+1..])
  {
    hide *;
    Consume(script, start, start, i - start);
    Consume(script, start, start, i - start + 1);
    StepSemicolon(script[i..]);
    StepFlush(script[start..]);
  }

  method SplitStatements(script: Bytes) returns (stmts: seq<Bytes>)
    ensures stmts == Statements(script)
    ensures exists at :: EmittedFrom(Pieces(script), stmts, at)
  {
    hide *;
    stmts := [];
    var buf: Bytes := [];
    var mode, dqTag := Top, [];
    var i := 0;
    ghost var start := 0;
    assert script[0..] == script;
    StepStart(script);
    while i < |script|
      invariant 0 <= start <= i <= |script|
      invariant buf == script[start..i]
      invariant if mode == InQuote then |dqTag| >= 2 && dqTag[0] == DOLLAR else dqTag == []
      invariant NextCut(script[start..]) == i - start + RestCut(mode, dqTag, script[i..])
      invariant stmts + Statements(script[start..]) == Statements(script)
    {
      if mode == Top && script[i] == SEMICOLON {
        StatementCut(script, start, i);
        stmts := FlushBuffer(buf, stmts);
        buf, start, i := [], i + 1, i + 1;
        StepStart(script[i..]);
      } else {
        var k;
        k, mode, dqTag := LexStep(script, i, mode, dqTag);
        Consume(script, start, i, k);
        buf := buf + script[i..i+k];
        i := i + k;
      }
    }
    assert script[start..] == script[start..i] && script[i..] == [];
    StepEnd(mode, dqTag);
    StepLast(script[start..]);
    stmts := FlushBuffer(buf, stmts);
    StatementsEmitted(script);
  }

  lemma StatementsEmitted(script: Bytes)
    ensures exists at :: EmittedFrom(Pieces(script), Statements(script), at)
  {
    var at := FlushAllExact(Pieces(script));
    assert EmittedFrom(Pieces(script), Statements(script), at);
  }

  // ------------------------------------- cutting exactly at the semicolons

  /** Appending bytes that cannot extend a token leaves a closed first token alone. */
  predicate Inert(x: Bytes) {
    x == [] || (x[0] != DASH && x[0] != DOLLAR && !IsTagByte(x[0]))
  }

  lemma {:induction false} TagRunAppend(p: Bytes, x: Bytes)
    requires Inert(x)
    ensures TagRun(p + x) == TagRun(p)
  {
    if p != [] && IsTagByte(p[0]) {
      TagRunAppend(p[1..], x);
      assert (p + x)[1..] == p[1..] + x;
    }
  }

  lemma OpenerAppend(p: Bytes, x: Bytes)
    requires p != [] && Inert(x)
    ensures OpenerLength(p + x) == OpenerLength(p)
  {
    TagRunAppend(p[1..], x);
    assert (p + x)[1..] == p[1..] + x;
  }

  lemma {:induction false} LineEndAppend(p: Bytes, x: Bytes)
    ensures LineEnd(p + x) == if NEWLINE in p then LineEnd(p) else |p| + LineEnd(x)
  {
    if p == [] {
      assert p + x == x;
    } else if p[0] != NEWLINE {
      LineEndAppend(p[1..], x);
      assert (p + x)[1..] == p[1..] + x;
      assert p == [p[0]] + p[1..];
    }
  }

  lemma {:induction false} QuoteAppend(p: Bytes, x: Bytes, tag: Bytes)
    requires QuoteCloses(p, tag)
    ensures QuoteCloses(p + x, tag) && QuoteEnd(p + x, tag) == QuoteEnd(p, tag)
  {
    if tag <= p {
      assert tag <= p + x;
    } else {
      QuoteAppend(p[1..], x, tag);
      assert (p + x)[1..] == p[1..] + x;
      FitsWithin(p, tag);
      PrefixShrink(p, x, tag);
    }
  }

  lemma PrefixShrink(p: Bytes, x: Bytes, tag: Bytes)
    ensures |tag| <= |p| ==> (tag <= p + x <==> tag <= p)
  {
    if |tag| <= |p| {
      assert (p + x)[..|tag|] == p[..|tag|];
    }
  }

  lemma {:induction false} FitsWithin(p: Bytes, tag: Bytes)
    requires QuoteCloses(p, tag)
    ensures |tag| <= |p|
  {
    if !(tag <= p) {
      FitsWithin(p[1..], tag);
    }
  }

  /** A quote left open stays open over bytes without a dollar sign. */
  lemma {:induction false} QuoteStaysOpen(p: Bytes, x: Bytes, tag: Bytes)
    requires tag != [] && tag[|tag|-1] == DOLLAR && DOLLAR !in x
    requires !QuoteCloses(p, tag)
    ensures !QuoteCloses(p + x, tag)
  {
    PrefixShrink(p, x, tag);
    assert |p| < |tag| <= |p + x| ==> (p + x)[|tag|-1] == x[|tag|-1-|p|];
    if p == [] {
      NoQuoteEnd(x, tag);
      assert p + x == x;
    } else {
      QuoteStaysOpen(p[1..], x, tag);
      assert (p + x)[1..] == p[1..] + x;
    }
  }

  lemma {:induction false} NoQuoteEnd(x: Bytes, tag: Bytes)
    requires tag != [] && tag[|tag|-1] == DOLLAR && DOLLAR !in x
    ensures !QuoteCloses(x, tag)
  {
    if x != [] {
      NoQuoteEnd(x[1..], tag);
      assert |tag| <= |x| ==> x[|tag|-1] in x;
    }
  }

  lemma OpenerEnds(s: Bytes)
    requires OpenerLength(s) > 0
    ensures s[OpenerLength(s) - 1] == DOLLAR && s[0] == DOLLAR
    ensures SEMICOLON !in s[..OpenerLength(s)]
  {
    var n := OpenerLength(s);
    forall i | 0 <= i < n
      ensures s[i] != SEMICOLON
    {
      if 0 < i < n - 1 {
        assert IsTagByte(s[1..][i-1]);
      }
    }
  }

  lemma FirstAppend(p: Bytes, x: Bytes)
    requires p != [] && Inert(x) && First(p).mode == Top
    ensures First(p + x) == First(p)
  {
    OpenerAppend(p, x);
    LineEndAppend(p, x);
    var n := OpenerLength(p);
    assert StartsComment(p + x) == StartsComment(p);
    assert (p + x)[..n] == p[..n] && (p + x)[n..] == p[n..] + x;
    if !StartsComment(p) && n > 0 {
      QuoteAppend(p[n..], x, p[..n]);
    }
  }

  /** Text with no exposed semicolon that leaves the lexer at top level composes
      with whatever follows. */
  lemma {:induction false} CutAppend(p: Bytes, x: Bytes)
    requires NextCut(p) == |p| && EndMode(p) == Top && Inert(x)
    ensures NextCut(p + x) == |p| + NextCut(x)
    ensures EndMode(p + x) == EndMode(x)
  {
    hide TagRun, LineEnd, QuoteEnd, QuoteCloses, OpenerLength;
    if p == [] {
      assert p + x == x;
    } else {
      FirstAppend(p, x);
      var e := First(p).length;
      assert (p + x)[e..] == p[e..] + x;
      CutAppend(p[e..], x);
    }
  }

  lemma {:induction false} LineEndTake(s: Bytes, k: nat)
    requires LineEnd(s) <= k <= |s|
    ensures LineEnd(s[..k]) == LineEnd(s)
    ensures NEWLINE in s ==> NEWLINE in s[..k]
  {
    if s != [] {
      if s[0] == NEWLINE {
        assert s[..k][0] == NEWLINE;
      } else {
        LineEndTake(s[1..], k - 1);
        assert s[..k][1..] == s[1..][..k-1];
        assert s == [s[0]] + s[1..] && s[..k] == [s[0]] + s[..k][1..];
      }
    }
  }

  lemma {:induction false} QuoteTake(s: Bytes, tag: Bytes, k: nat)
    requires tag != [] && QuoteCloses(s, tag) && QuoteEnd(s, tag) <= k <= |s|
    ensures QuoteCloses(s[..k], tag) && QuoteEnd(s[..k], tag) == QuoteEnd(s, tag)
  {
    if tag <= s {
      assert s[..k][..|tag|] == s[..|tag|] == tag;
    } else {
      QuoteTake(s[1..], tag, k - 1);
      assert s[..k][1..] == s[1..][..k-1];
      FitsWithin(s[1..][..k-1], tag);
      PrefixShrink(s[..k], s[k..], tag);
      assert s == s[..k] + s[k..];
    }
  }

  lemma {:induction false} TagRunExtends(p: Bytes, x: Bytes)
    requires TagRun(p) < |p|
    ensures TagRun(p + x) == TagRun(p)
  {
    if IsTagByte(p[0]) {
      TagRunExtends(p[1..], x);
      assert (p + x)[1..] == p[1..] + x;
    }
  }

  lemma OpenerExtends(p: Bytes, x: Bytes)
    requires OpenerLength(p) > 0
    ensures OpenerLength(p + x) == OpenerLength(p)
  {
    TagRunExtends(p[1..], x);
    assert (p + x)[1..] == p[1..] + x;
  }

  lemma {:induction false} TagRunTake(s: Bytes, k: nat)
    requires TagRun(s) < k <= |s|
    ensures TagRun(s[..k]) == TagRun(s)
  {
    if IsTagByte(s[0]) {
      TagRunTake(s[1..], k - 1);
      assert s[..k][1..] == s[1..][..k-1];
    }
  }

  lemma OpenerTake(s: Bytes, k: nat)
    requires 0 < k <= |s| && OpenerLength(s) <= k
    ensures OpenerLength(s[..k]) == OpenerLength(s)
  {
    var n := OpenerLength(s);
    assert s == s[..k] + s[k..];
    assert s[..k][1..] == s[1..][..k-1];
    if n > 0 {
      TagRunTake(s[1..], k - 1);
    } else if OpenerLength(s[..k]) > 0 {
      OpenerExtends(s[..k], s[k..]);
    }
  }

  lemma FirstTake(s: Bytes, k: nat)
    requires s != [] && First(s).mode == Top && First(s).length <= k <= |s|
    ensures First(s[..k]) == First(s)
  {
    hide TagRun, LineEnd, QuoteEnd, QuoteCloses, OpenerLength;
    if StartsComment(s) {
      LineEndTake(s, k);
      CommentLength(s);
      assert StartsComment(s[..k]);
    } else {
      var n := OpenerLength(s);
      OpenerTake(s, k);
      if n > 0 {
        OpenerEnds(s);
        QuoteTake(s[n..], s[..n], k - n);
        assert s[..k][..n] == s[..n] && s[..k][n..] == s[n..][..k-n];
      }
      assert !StartsComment(s[..k]);
    }
  }

  lemma CommentLength(s: Bytes)
    requires StartsComment(s)
    ensures LineEnd(s) >= 2
  {
    assert LineEnd(s) == 1 + LineEnd(s[1..]);
  }

  /** The chunk before an exposed semicolon has none itself and ends at top level. */
  lemma {:induction false} ChunkClosed(s: Bytes)
    requires NextCut(s) < |s|
    ensures NextCut(s[..NextCut(s)]) == NextCut(s)
    ensures EndMode(s[..NextCut(s)]) == Top
  {
    hide First, TagRun, LineEnd, QuoteEnd, QuoteCloses, OpenerLength;
    var c := NextCut(s);
    var p, x := s[..c], s[c..];
    if c > 0 {
      var t := First(s);
      var e := t.length;
      ChunkClosed(s[e..]);
      assert s[e..][..NextCut(s[e..])] == p[e..];
      assert t.mode == Top;
      FirstTake(s, c);
    }
  }

  lemma {:induction false} NoSemicolon(s: Bytes)
    requires SEMICOLON !in s
    ensures NextCut(s) == |s|
  {
    hide First, TagRun, LineEnd, QuoteEnd, QuoteCloses, OpenerLength;
    if s != [] {
      NoSemicolon(s[First(s).length..]);
    }
  }

  /** The first token of a text cut short inside that token. */
  lemma FirstCutShort(s: Bytes, k: nat)
    requires s != [] && 0 < k < First(s).length
    ensures SEMICOLON !in s[..k] || (First(s[..k]).length == k && s[0] != SEMICOLON)
  {
    if StartsComment(s) {
      CommentCutShort(s, k);
    } else {
      QuoteCutShort(s, k);
    }
  }

  lemma CommentCutShort(s: Bytes, k: nat)
    requires StartsComment(s) && 0 < k < First(s).length
    ensures SEMICOLON !in s[..k] || (First(s[..k]).length == k && s[0] != SEMICOLON)
  {
    hide TagRun, LineEnd, QuoteEnd, QuoteCloses, OpenerLength;
    var p, x := s[..k], s[k..];
    assert s == p + x;
    LineEndAppend(p, x);
    if k > 1 {
      assert StartsComment(p);
      if NEWLINE !in p {
        LineEndOpen(p);
      }
    }
  }

  lemma QuoteCutShort(s: Bytes, k: nat)
    requires s != [] && !StartsComment(s) && 0 < k < First(s).length
    ensures SEMICOLON !in s[..k] || (First(s[..k]).length == k && s[0] != SEMICOLON)
  {
    hide TagRun, LineEnd, QuoteEnd, QuoteCloses, OpenerLength;
    var p := s[..k];
    var n := OpenerLength(s);
    OpenerEnds(s);
    if k < n {
      assert p == s[..n][..k];
    } else {
      OpenerTake(s, k);
      var body, tag := s[n..], s[..n];
      assert p[..n] == tag && p[n..] == body[..k-n];
      assert body == body[..k-n] + body[k-n..];
      if QuoteCloses(body[..k-n], tag) {
        QuoteAppend(body[..k-n], body[k-n..], tag);
      } else {
        QuoteEndOpen(body[..k-n], tag);
      }
      assert !StartsComment(p);
    }
  }

  /** A text with no exposed semicolon has none in any prefix either. */
  lemma {:induction false} PrefixUncut(s: Bytes, k: nat)
    requires NextCut(s) == |s| && k <= |s|
    ensures NextCut(s[..k]) == k
  {
    hide First, TagRun, LineEnd, QuoteEnd, QuoteCloses, OpenerLength;
    if k == |s| {
      assert s[..k] == s;
    } else if k > 0 {
      var e := First(s).length;
      if e <= k {
        FirstTake(s, k);
        PrefixUncut(s[e..], k - e);
        assert s[..k][e..] == s[e..][..k-e];
      } else {
        FirstCutShort(s, k);
        if SEMICOLON !in s[..k] {
          NoSemicolon(s[..k]);
        } else {
          assert s[..k][k..] == [];
        }
      }
    }
  }

  /** i is the offset of the separator between two neighbouring pieces. */
  predicate CutAt(ps: seq<Bytes>, i: int) {
    |ps| > 1 && (i == |ps[0]| || (i > |ps[0]| && CutAt(ps[1..], i - |ps[0]| - 1)))
  }

  /** The script is cut at i exactly when i holds a semicolon and the text before it
      leaves the lexer outside every comment and dollar-quoted block. */
  lemma {:induction false} CutsExactlyAtExposedSemicolons(s: Bytes, i: int)
    requires 0 <= i < |s|
    ensures CutAt(Pieces(s), i) <==> s[i] == SEMICOLON && EndMode(s[..i]) == Top
    decreases |s|
  {
    hide NextCut, EndMode;
    var c := NextCut(s);
    if c < |s| {
      ChunkClosed(s);
    }
    if i < c {
      assert s[..c][..i] == s[..i];
      if c == |s| { assert s[..c] == s; }
      PrefixUncut(s[..c], i);
      if s[i] == SEMICOLON && EndMode(s[..i]) == Top {
        CutAppend(s[..i], s[i..]);
        assert s[..i] + s[i..] == s;
        SemicolonCuts(s[i..]);
        assert false;
      }
    } else if i > c {
      CutsExactlyAtExposedSemicolons(s[c+1..], i - c - 1);
      CutAppend(s[..c], s[c..i]);
      SemicolonCuts(s[c..i]);
      assert s[..c] + s[c..i] == s[..i];
      assert s[c..i][1..] == s[c+1..][..i-c-1];
    }
  }

  lemma SemicolonCuts(s: Bytes)
    requires s != [] && s[0] == SEMICOLON
    ensures NextCut(s) == 0 && EndMode(s) == EndMode(s[1..])
  {
  }

  // ------------------------------------------------------- tokens, plainly

  lemma TagBytes(b: byte)
    ensures IsTagByte(b) <==> var c := b as char; 'a' <= c <= 'z' || 'A' <= c <= 'Z' || '0' <= c <= '9' || c == '_'
  {
  }

  /** s opens with a tag of n bytes: word characters between two dollar signs. */
  ghost predicate OpensWith(s: Bytes, n: nat) {
    2 <= n <= |s| && s[0] == DOLLAR && s[n-1] == DOLLAR && forall i :: 0 < i < n - 1 ==> IsTagByte(s[i])
  }

  lemma OpenerExact(s: Bytes, n: nat)
    requires n > 0
    ensures OpenerLength(s) == n <==> OpensWith(s, n)
  {
    if s != [] && s[0] == DOLLAR {
      var r := TagRun(s[1..]);
      assert forall i :: 0 < i <= r ==> s[i] == s[1..][i-1];
      assert 1 + r < |s| ==> s[1+r] == s[1..][r];
      hide TagRun;
      assert !IsTagByte(DOLLAR);
      if OpensWith(s, n) {
        TagEndsRun(s, n, r);
      }
    }
  }

  lemma TagEndsRun(s: Bytes, n: nat, r: nat)
    requires OpensWith(s, n) && r < |s|
    requires forall i :: 0 < i <= r ==> IsTagByte(s[i])
    requires 1 + r < |s| ==> !IsTagByte(s[1+r])
    ensures n == r + 2
  {
    assert !IsTagByte(DOLLAR);
  }

  ghost predicate TagAt(s: Bytes, tag: Bytes, i: nat) {
    i + |tag| <= |s| && s[i..i+|tag|] == tag
  }

  /** The first time tag occurs in s it ends at e. */
  ghost predicate FirstEnd(s: Bytes, tag: Bytes, e: nat) {
    |tag| <= e && TagAt(s, tag, e - |tag|) && forall i: nat :: i < e - |tag| ==> !TagAt(s, tag, i)
  }

  lemma TagAtShift(s: Bytes, tag: Bytes, i: nat)
    requires s != []
    ensures TagAt(s, tag, 0) <==> tag <= s
    ensures i > 0 ==> (TagAt(s, tag, i) <==> TagAt(s[1..], tag, i - 1))
  {
    assert |tag| <= |s| ==> s[0..0+|tag|] == s[..|tag|];
    assert i > 0 && i + |tag| <= |s| ==> s[i..i+|tag|] == s[1..][i-1..i-1+|tag|];
  }

  lemma {:induction false} QuoteEndExact(s: Bytes, tag: Bytes, e: nat)
    requires tag != []
    ensures QuoteCloses(s, tag) && QuoteEnd(s, tag) == e <==> FirstEnd(s, tag, e)
  {
    if s != [] {
      forall i: nat
        ensures TagAt(s, tag, 0) <==> tag <= s
        ensures i > 0 ==> (TagAt(s, tag, i) <==> TagAt(s[1..], tag, i - 1))
      {
        TagAtShift(s, tag, i);
      }
      if tag <= s {
        hide TagAt;
      } else if e > 0 {
        QuoteEndExact(s[1..], tag, e - 1);
        FirstEndShift(s, tag, e);
      }
    }
  }

  lemma FirstEndShift(s: Bytes, tag: Bytes, e: nat)
    requires s != [] && e > 0 && !TagAt(s, tag, 0)
    requires forall i: nat :: i > 0 ==> (TagAt(s, tag, i) <==> TagAt(s[1..], tag, i - 1))
    ensures FirstEnd(s, tag, e) <==> FirstEnd(s[1..], tag, e - 1)
  {
    hide TagAt;
    if FirstEnd(s, tag, e) {
      forall i: nat | i < e - 1 - |tag| ensures !TagAt(s[1..], tag, i) {
        assert !TagAt(s, tag, i + 1);
      }
    }
  }

  /** The first n bytes of s are one complete token: a comment with its newline, a
      dollar-quoted block with its closing tag, or any other single byte. */
  ghost predicate TokenIs(s: Bytes, n: nat) {
    && 0 < n <= |s|
    && if [DASH, DASH] <= s then FirstNewline(s, n)
       else if exists k: nat :: OpensWith(s, k) then exists k: nat :: OpensWith(s, k) && n >= k && FirstEnd(s[k..], s[..k], n - k)
       else n == 1
  }

  lemma FirstExact(s: Bytes, n: nat)
    requires s != []
    ensures First(s) == Token(n, Top) <==> TokenIs(s, n)
  {
    assert StartsComment(s) <==> [DASH, DASH] <= s;
    if StartsComment(s) {
      LineEndExact(s, n);
      LineEndExact(s, LineEnd(s));
    } else {
      var k := OpenerLength(s);
      forall m: nat ensures OpensWith(s, m) <==> m > 0 && m == k {
        if m > 0 {
          OpenerExact(s, m);
        }
      }
      if k > 0 {
        QuotedExact(s, k, n);
      }
      hide OpenerLength, OpensWith, LineEnd, QuoteEnd, QuoteCloses, FirstEnd;
      assert k > 0 ==> OpensWith(s, k);
    }
  }

  lemma QuotedExact(s: Bytes, k: nat, n: nat)
    requires k == OpenerLength(s) > 0 && !StartsComment(s)
    ensures First(s) == Token(n, Top) <==> n >= k && FirstEnd(s[k..], s[..k], n - k)
    ensures First(s) == Token(n, Top) ==> 0 < n <= |s|
  {
    hide OpenerLength, LineEnd;
    if n >= k {
      QuoteEndExact(s[k..], s[..k], n - k);
    }
    hide QuoteEnd, QuoteCloses, FirstEnd;
  }

  /** s is a list of complete tokens. */
  ghost predicate Tokens(s: Bytes)
    decreases |s|
  {
    s == [] || exists n: nat :: TokenIs(s, n) && Tokens(s[n..])
  }

  lemma {:induction false} EndModeExact(s: Bytes)
    ensures EndMode(s) == Top <==> Tokens(s)
    decreases |s|
  {
    hide First, TokenIs;
    if s != [] {
      var t := First(s);
      forall n: nat ensures t == Token(n, Top) <==> TokenIs(s, n) {
        FirstExact(s, n);
      }
      if t.mode == Top {
        EndModeExact(s[t.length..]);
      }
      assert (exists n: nat :: TokenIs(s, n) && Tokens(s[n..])) <==> t.mode == Top && Tokens(s[t.length..]) by {
        assert t.mode == Top ==> TokenIs(s, t.length);
      }
    }
  }

  /** So the script is cut at exactly the semicolons that stand after a list of complete
      comments, dollar-quoted blocks and single bytes. */
  lemma CutsBetweenTokens(s: Bytes, i: int)
    requires 0 <= i < |s|
    ensures CutAt(Pieces(s), i) <==> s[i] == SEMICOLON && Tokens(s[..i])
  {
    CutsExactlyAtExposedSemicolons(s, i);
    EndModeExact(s[..i]);
  }

  lemma Characters()
    ensures NEWLINE as char == '\n' && SEMICOLON as char == ';' && DASH as char == '-' && DOLLAR as char == '$'
  {
  }

  /** Nothing is lost or added between the cuts. */
  lemma {:induction false} PiecesJoin(s: Bytes)
    ensures Join(Pieces(s), [SEMICOLON]) == s
    decreases |s|
  {
    hide NextCut;
    var c := NextCut(s);
    if c < |s| {
      PiecesJoin(s[c+1..]);
      assert Pieces(s)[1..] == Pieces(s[c+1..]);
      assert s == s[..c] + [SEMICOLON] + s[c+1..];
    }
  }

  // ------------------------------------------------- stability of splitting

  predicate Blank(x: Bytes) {
    forall i :: 0 <= i < |x| ==> 9 <= x[i] <= 13 || x[i] == 32 || x[i] >= 0x80
  }

  lemma BlankIsInert(x: Bytes)
    requires Blank(x)
    ensures Inert(x) && DOLLAR !in x
  {
  }

  lemma SpaceIsBlank(u: Bytes)
    requires IsSpace(u)
    ensures Blank(u) && u != []
  {
  }

  lemma BlankFirst(s: Bytes)
    requires s != [] && (9 <= s[0] <= 13 || s[0] == 32 || s[0] >= 0x80)
    ensures First(s) == Token(1, Top) && s[0] != SEMICOLON
  {
  }

  lemma {:induction false} BlankFront(s: Bytes, n: nat)
    requires n <= |s| && Blank(s[..n])
    ensures NextCut(s) == n + NextCut(s[n..])
    ensures EndMode(s) == EndMode(s[n..])
    decreases n
  {
    if n > 0 {
      assert s[..n][0] == s[0];
      BlankFirst(s);
      hide First, IsTagByte;
      assert s[1..][..n-1] == s[..n][1..];
      BlankFront(s[1..], n - 1);
      assert s[1..][n-1..] == s[n..];
    } else {
      assert s[n..] == s;
    }
  }

  lemma {:induction false} TrimLeftUncut(s: Bytes)
    requires NextCut(s) == |s|
    ensures NextCut(TrimLeft(s)) == |TrimLeft(s)|
    ensures EndMode(TrimLeft(s)) == EndMode(s)
    ensures SpaceAtFront(TrimLeft(s)) == 0
  {
    hide NextCut, EndMode;
    var n := SpaceAtFront(s);
    if n > 0 {
      SpaceIsBlank(s[..n]);
      BlankFront(s, n);
      TrimLeftUncut(s[n..]);
    }
  }

  lemma {:induction false} BlankTailKeepsQuote(q: Bytes, x: Bytes)
    requires Blank(x) && EndMode(q) == InQuote
    ensures EndMode(q + x) == InQuote
  {
    hide TagRun, LineEnd, QuoteEnd, QuoteCloses, OpenerLength, IsTagByte;
    BlankIsInert(x);
    var t := First(q);
    if t.mode == Top {
      FirstAppend(q, x);
      BlankTailKeepsQuote(q[t.length..], x);
      assert (q + x)[t.length..] == q[t.length..] + x;
    } else {
      OpenerAppend(q, x);
      var n := OpenerLength(q);
      OpenerEnds(q);
      QuoteStaysOpen(q[n..], x, q[..n]);
      assert (q + x)[..n] == q[..n] && (q + x)[n..] == q[n..] + x;
      assert !StartsComment(q + x);
    }
  }

  lemma BackSpaceIsBlank(s: Bytes)
    requires SpaceAtBack(s) > 0
    ensures Blank(s[|s|-SpaceAtBack(s)..])
  {
    hide IsSpace, Blank;
    SpaceIsBlank(s[|s|-SpaceAtBack(s)..]);
  }

  lemma {:induction false} TrimRightKeeps(s: Bytes)
    ensures EndMode(s) != InQuote ==> EndMode(TrimRight(s)) != InQuote
    ensures SpaceAtBack(TrimRight(s)) == 0
  {
    hide EndMode, SpaceAtBack, Blank;
    var n := SpaceAtBack(s);
    if n > 0 {
      var q, x := s[..|s|-n], s[|s|-n..];
      BackSpaceIsBlank(s);
      assert s == q + x;
      TrimRightKeeps(q);
      if EndMode(q) == InQuote {
        BlankTailKeepsQuote(q, x);
      }
    }
  }

  lemma FrontOfPrefix(r: Bytes, q: Bytes)
    requires r <= q && SpaceAtFront(q) == 0
    ensures SpaceAtFront(r) == 0
  {
    assert forall n :: 0 <= n <= |r| ==> r[..n] == q[..n];
  }

  /** A statement the splitter can emit: trimmed, not blank, not comment-only, and
      with no exposed semicolon. */
  predicate Kept(t: Bytes) {
    Trim(t) == t && t != [] && !AllComment(t) && NextCut(t) == |t|
  }

  /** Lists of statements the splitter can emit: only the last one may leave a
      dollar-quoted block open. */
  predicate WellFormed(out: seq<Bytes>) {
    && (forall i :: 0 <= i < |out| ==> Kept(out[i]))
    && (forall i :: 0 <= i < |out| - 1 ==> EndMode(out[i]) != InQuote)
  }

  lemma FlushKept(p: Bytes)
    requires NextCut(p) == |p|
    ensures WellFormed(Flush(p))
    ensures EndMode(p) == Top ==> forall t :: t in Flush(p) ==> EndMode(t) != InQuote
  {
    hide NextCut, EndMode, AllComment, SpaceAtFront, SpaceAtBack;
    TrimLeftUncut(p);
    var q := TrimLeft(p);
    var t := TrimRight(q);
    TrimRightKeeps(q);
    FrontOfPrefix(t, q);
    PrefixUncut(q, |t|);
    assert q[..|t|] == t;
    assert TrimLeft(t) == t && TrimRight(t) == t;
  }

  lemma {:induction false} StatementsWellFormed(s: Bytes)
    ensures WellFormed(Statements(s))
    decreases |s|
  {
    hide NextCut, EndMode, Flush, WellFormed;
    var c := NextCut(s);
    if c == |s| {
      FlushKept(s);
      StepLast(s);
    } else {
      ChunkClosed(s);
      FlushKept(s[..c]);
      StatementsWellFormed(s[c+1..]);
      StepFlush(s);
      ClosedFirst(Flush(s[..c]), Statements(s[c+1..]));
    }
  }

  lemma ClosedFirst(a: seq<Bytes>, b: seq<Bytes>)
    requires WellFormed(a) && WellFormed(b) && forall t :: t in a ==> EndMode(t) != InQuote
    ensures WellFormed(a + b)
  {
    hide Kept, EndMode;
    forall i | 0 <= i < |a + b| - 1 ensures EndMode((a + b)[i]) != InQuote {
      assert i < |a| ==> (a + b)[i] in a;
    }
  }

  lemma {:induction false} NewlineCloses(p: Bytes)
    requires NextCut(p) == |p| && EndMode(p) != InQuote
    ensures NextCut(p + [NEWLINE]) == |p| + 1
    ensures EndMode(p + [NEWLINE]) == Top
  {
    hide First, TagRun, LineEnd, QuoteEnd, QuoteCloses, OpenerLength;
    var x := [NEWLINE];
    if p == [] {
      assert p + x == x;
      BlankFront(x, 1);
    } else {
      var t := First(p);
      if t.mode == Top {
        FirstAppend(p, x);
        NewlineCloses(p[t.length..]);
        assert (p + x)[t.length..] == p[t.length..] + x;
      } else {
        OpenComment(p);
        NewlineEndsComment(p);
      }
    }
  }

  lemma OpenComment(p: Bytes)
    requires p != [] && First(p).mode != Top && EndMode(p) != InQuote
    ensures StartsComment(p) && NEWLINE !in p
  {
    hide TagRun, LineEnd, QuoteEnd, QuoteCloses, OpenerLength;
  }

  lemma NewlineEndsComment(p: Bytes)
    requires StartsComment(p) && NEWLINE !in p
    ensures NextCut(p + [NEWLINE]) == |p| + 1
    ensures EndMode(p + [NEWLINE]) == Top
  {
    var s := p + [NEWLINE];
    LineEndAppend(p, [NEWLINE]);
    NewlineAlone();
    hide TagRun, LineEnd, QuoteEnd, QuoteCloses, OpenerLength;
    assert StartsComment(s) && NEWLINE in s;
    assert First(s) == Token(|s|, Top);
    hide First;
    assert s[|s|..] == [];
  }

  lemma NewlineAlone()
    ensures LineEnd([NEWLINE]) == 1
  {
  }

  lemma TrimPadded(a: Bytes, t: Bytes, b: Bytes)
    requires Trim(t) == t && t != []
    requires a in {[], [NEWLINE]} && b in {[], [NEWLINE]}
    ensures Trim(a + t + b) == t
  {
    hide IsSpace, SpaceAtFront, SpaceAtBack, TrimLeft, TrimRight;
    TrimFixed(t);
    FrontUnpadded(t, b);
    FrontPadded(a, t + b);
    BackPadded(t, b);
    assert a + t + b == a + (t + b);
  }

  lemma TrimFixed(t: Bytes)
    requires Trim(t) == t
    ensures SpaceAtFront(t) == 0 && SpaceAtBack(t) == 0
  {
    assert |TrimLeft(t)| == |t|;
  }

  lemma FrontUnpadded(t: Bytes, b: Bytes)
    requires t != [] && SpaceAtFront(t) == 0 && b in {[], [NEWLINE]}
    ensures SpaceAtFront(t + b) == 0
  {
    hide IsSpace;
    assert forall n :: 0 <= n <= |t| ==> (t + b)[..n] == t[..n];
    assert forall n :: |t| < n <= |t + b| ==> (t + b)[..n] == t + b && (t + b)[n-1] == NEWLINE;
    if b != [] {
      NoSpaceEndsInNewline(t + b);
    }
  }

  lemma NoSpaceEndsInNewline(u: Bytes)
    requires |u| > 1 && u[|u|-1] == NEWLINE
    ensures !IsSpace(u)
  {
  }

  lemma FrontPadded(a: Bytes, s: Bytes)
    requires a in {[], [NEWLINE]} && SpaceAtFront(s) == 0
    ensures TrimLeft(a + s) == s
  {
    if a == [] {
      assert a + s == s;
    } else {
      assert (a + s)[..1] == [NEWLINE] && (a + s)[1..] == s;
      assert SpaceAtFront(a + s) == 1;
    }
  }

  lemma BackPadded(t: Bytes, b: Bytes)
    requires b in {[], [NEWLINE]} && SpaceAtBack(t) == 0
    ensures TrimRight(t + b) == t
  {
    if b == [] {
      assert t + b == t;
    } else {
      assert (t + b)[|t|..] == b && (t + b)[..|t|] == t;
      assert SpaceAtBack(t + b) == 1;
    }
  }

  const SEPARATOR: Bytes := [NEWLINE, SEMICOLON, NEWLINE]

  lemma SeparatorBlank(a: Bytes)
    requires a in {[], [NEWLINE]}
    ensures Blank(a)
  {
  }

  lemma {:induction false} SplitJoinPadded(a: Bytes, out: seq<Bytes>)
    requires WellFormed(out) && out != []
    requires a in {[], [NEWLINE]}
    ensures Statements(a + Join(out, SEPARATOR)) == out
    decreases |out|
  {
    hide NextCut, EndMode, Trim, AllComment, Statements, Pieces, FlushAll, Blank;
    var t := out[0];
    SeparatorBlank(a);
    BlankFront(a + t, |a|);
    assert (a + t)[|a|..] == t && (a + t)[..|a|] == a;
    if |out| == 1 {
      TrimPadded(a, t, []);
      assert a + t + [] == a + t;
      StepLast(a + t);
    } else {
      NewlineCloses(a + t);
      TrimPadded(a, t, [NEWLINE]);
      var chunk := a + t + [NEWLINE];
      var rest := [NEWLINE] + Join(out[1..], SEPARATOR);
      var s := a + Join(out, SEPARATOR);
      assert s == chunk + ([SEMICOLON] + rest);
      SemicolonCuts([SEMICOLON] + rest);
      CutAppend(chunk, [SEMICOLON] + rest);
      assert s[..|chunk|] == chunk && s[|chunk|+1..] == rest;
      StepFlush(s);
      SplitJoinPadded([NEWLINE], out[1..]);
      assert out == [t] + out[1..];
    }
  }

  /** Splitting a joined list gives the list back exactly when the splitter could
      have emitted that list. */
  lemma SplitJoin(out: seq<Bytes>)
    ensures Statements(Join(out, SEPARATOR)) == out <==> WellFormed(out)
  {
    hide NextCut, EndMode, Kept;
    StatementsWellFormed(Join(out, SEPARATOR));
    if out == [] {
      assert Statements([]) == [];
    } else if WellFormed(out) {
      SplitJoinPadded([], out);
      assert [] + Join(out, SEPARATOR) == Join(out, SEPARATOR);
    }
  }

  /** Splitting is stable: the emitted statements joined again split into
      themselves, and each of them alone is one statement. */
  lemma SplittingIsStable(script: Bytes)
    ensures Statements(Join(Statements(script), SEPARATOR)) == Statements(script)
    ensures forall t :: t in Statements(script) ==> Statements(t) == [t]
  {
    hide Statements, Kept, EndMode;
    StatementsWellFormed(script);
    SplitJoin(Statements(script));
    forall t | t in Statements(script)
      ensures Statements(t) == [t]
    {
      assert WellFormed([t]);
      SplitJoin([t]);
    }
  }
}
