/** JSON texts at the store boundary: the rewrites of internal/redact and
    internal/volatile on stored text, and the comparison of
    store/resources_versioning.go. Parsing and printing themselves are abstract. */
module JsonText {
  import opened Wrappers
  import opened JsonTree
  import opened Redact
  import opened Volatile

  predicate IsSpaceChar(c: char) {
    c in {'\t', '\n', '\U{0B}', '\U{0C}', '\r', ' ', '\U{85}', '\U{A0}', '\U{1680}', '\U{2028}', '\U{2029}',
          '\U{202F}', '\U{205F}', '\U{3000}'}
    || '\U{2000}' <= c <= '\U{200A}'
  }

  /** The first character left after trimming is a brace or a bracket. */
  predicate LooksEmbedded(t: string) {
    t != [] && if IsSpaceChar(t[0]) then LooksEmbedded(t[1..]) else t[0] == '{' || t[0] == '['
  }

  lemma SpaceChars(c: char)
    ensures var n := c as int; IsSpaceChar(c) <==>
      9 <= n <= 13 || 0x2000 <= n <= 0x200A || n in {0x20, 0x85, 0xA0, 0x1680, 0x2028, 0x2029, 0x202F, 0x205F, 0x3000}
  {
  }

  /** A brace or bracket at i, and white space before it. */
  ghost predicate OpensAt(t: string, i: int) {
    0 <= i < |t| && t[i] in "{[" && forall j :: 0 <= j < i ==> IsSpaceChar(t[j])
  }

  lemma {:induction false} LooksExact(t: string)
    ensures LooksEmbedded(t) <==> exists i :: OpensAt(t, i)
  {
    hide IsSpaceChar;
    if t != [] {
      SpaceChars(t[0]);
      if IsSpaceChar(t[0]) {
        LooksExact(t[1..]);
        forall i ensures OpensAt(t, i) <==> OpensAt(t[1..], i - 1) {
          SpaceFirst(t, i);
        }
        hide OpensAt;
        assert forall i :: OpensAt(t[1..], i) ==> OpensAt(t, i + 1);
      } else if t[0] in "{[" {
        assert OpensAt(t, 0);
      }
    }
  }

  lemma SpaceFirst(t: string, i: int)
    requires t != [] && IsSpaceChar(t[0]) && t[0] !in "{["
    ensures OpensAt(t, i) <==> OpensAt(t[1..], i - 1)
  {
    hide IsSpaceChar;
    var r := t[1..];
    assert forall j :: 0 < j < |t| ==> t[j] == r[j-1];
    if 0 < i < |t| && OpensAt(r, i - 1) {
      forall j | 0 <= j < i ensures IsSpaceChar(t[j]) {
        assert j > 0 ==> t[j] == r[j-1];
      }
    }
    if OpensAt(t, i) {
      forall j | 0 <= j < i - 1 ensures IsSpaceChar(r[j]) {
        assert r[j] == t[j+1];
      }
    }
  }

  /** Every string leaf is shorter than n characters. */
  predicate LeavesShorter(v: Json, n: nat) {
    match v
    case Str(s) => |s| < n
    case Arr(items) => forall i :: 0 <= i < |items| ==> LeavesShorter(items[i], n)
    case Obj(fields) => forall k :: k in fields ==> LeavesShorter(fields[k], n)
    case _ => true
  }

  /** json.Unmarshal into any, and json.Marshal; the parser refuses documents nested
      more than maxDepth deep. */
  datatype Codec = Codec(parse: string -> Option<Json>, print_: Json -> string, maxDepth: nat)
  {
    /** What the model assumes of the two: printing is undone by parsing up to that
        depth, the empty text does not parse, a string leaf is shorter than the text that
        spells it, and exactly the texts of objects and arrays start with a brace or
        bracket. CodecExists shows the assumptions can be met. */
    ghost predicate Valid() {
      && parse("") == None
      && (forall v: Json :: Shallow(v, maxDepth) ==> parse(print_(v)) == Some(v))
      && (forall t: string :: parse(t).Some? ==> Shallow(parse(t).value, maxDepth))
      && (forall t: string :: parse(t).Some? ==> LeavesShorter(parse(t).value, |t|))
      && (forall t: string :: parse(t).Some? ==> (LooksEmbedded(t) <==> parse(t).value.Obj? || parse(t).value.Arr?))
    }

    predicate Embeds(t: string) {
      LooksEmbedded(t) && parse(t).Some?
    }
  }

  /** A string is taken for a document exactly when it spells an object or an array. */
  lemma EmbedsExact(c: Codec, t: string)
    requires c.Valid()
    ensures c.Embeds(t) <==> c.parse(t).Some? && (c.parse(t).value.Obj? || c.parse(t).value.Arr?)
  {
  }

  // ------------------------------------------------------- canonical form

  /** canonicalizeJSONValue; n bounds the string leaves and bounds the recursion. */
  function Canon(c: Codec, v: Json, n: nat): Json
    requires c.Valid() && LeavesShorter(v, n)
    decreases n, v
  {
    match v
    case Obj(fields) => Obj(map k | k in fields :: Canon(c, fields[k], n))
    case Arr(items) => Arr(seq(|items|, i requires 0 <= i < |items| => Canon(c, items[i], n)))
    case Str(t) => if c.Embeds(t) then Str(c.print_(Canon(c, c.parse(t).value, |t|))) else v
    case _ => v
  }

  predicate JsonEqual(c: Codec, a: string, b: string)
    requires c.Valid()
  {
    a == b ||
    (a != "" && b != "" && c.parse(a).Some? && c.parse(b).Some? &&
     c.print_(Canon(c, c.parse(a).value, |a|)) == c.print_(Canon(c, c.parse(b).value, |b|)))
  }

  /** The same document, where a string that spells an object or array counts as the
      document it spells, at every nesting level. */
  ghost predicate SameDocument(c: Codec, v: Json, n: nat, w: Json, m: nat)
    requires c.Valid() && LeavesShorter(v, n) && LeavesShorter(w, m)
    decreases n, v
  {
    match v
    case Obj(fields) =>
      w.Obj? && fields.Keys == w.fields.Keys && forall k :: k in fields ==> SameDocument(c, fields[k], n, w.fields[k], m)
    case Arr(items) =>
      w.Arr? && |items| == |w.items| && forall i :: 0 <= i < |items| ==> SameDocument(c, items[i], n, w.items[i], m)
    case Str(t) =>
      w.Str? &&
      if c.Embeds(t) && c.Embeds(w.s) then SameDocument(c, c.parse(t).value, |t|, c.parse(w.s).value, |w.s|) else t == w.s
    case _ => v == w
  }

  lemma CanonShape(c: Codec, v: Json, n: nat)
    requires c.Valid() && LeavesShorter(v, n)
    ensures Canon(c, v, n).Obj? == v.Obj? && Canon(c, v, n).Arr? == v.Arr?
    ensures v.Obj? ==> Canon(c, v, n).fields.Keys == v.fields.Keys
  {
  }

  lemma {:induction false} CanonAt(c: Codec, v: Json, n: nat, path: Path)
    requires c.Valid() && LeavesShorter(v, n)
    requires HeadAt(Canon(c, v, n), path).Some? && HeadAt(Canon(c, v, n), path).value.Composite()
    ensures HeadAt(v, path).Some? && HeadAt(v, path).value.Composite()
    decreases path
  {
    hide Codec.Valid, Canon, LeavesShorter;
    if path == [] {
      CanonShape(c, v, n);
    } else {
      CanonChild(c, v, n, path[0]);
      CanonAt(c, Child(v, path[0]).value, n, path[1..]);
    }
  }

  lemma CanonChild(c: Codec, v: Json, n: nat, step: Step)
    requires c.Valid() && LeavesShorter(v, n)
    ensures var child := Child(v, step);
      if child.None? then Child(Canon(c, v, n), step).None?
      else LeavesShorter(child.value, n) && Child(Canon(c, v, n), step) == Some(Canon(c, child.value, n))
  {
    hide Codec.Valid;
    CanonShape(c, v, n);
  }

  /** The canonical form is nested no deeper. */
  lemma CanonKeepsShallow(c: Codec, v: Json, n: nat)
    requires c.Valid() && LeavesShorter(v, n) && Shallow(v, c.maxDepth)
    ensures Shallow(Canon(c, v, n), c.maxDepth)
    ensures c.parse(c.print_(Canon(c, v, n))) == Some(Canon(c, v, n))
  {
    var w := Canon(c, v, n);
    forall path: Path | HeadAt(w, path).Some? && HeadAt(w, path).value.Composite() ensures |path| < c.maxDepth {
      CanonAt(c, v, n, path);
    }
  }

  /** Canonical forms are equal exactly for the same document. */
  lemma {:induction false} CanonDecides(c: Codec, v: Json, n: nat, w: Json, m: nat)
    requires c.Valid() && LeavesShorter(v, n) && LeavesShorter(w, m)
    ensures Canon(c, v, n) == Canon(c, w, m) <==> SameDocument(c, v, n, w, m)
    decreases n, v
  {
    match v
    case Obj(fields) =>
      CanonShape(c, w, m);
      if w.Obj? && fields.Keys == w.fields.Keys {
        forall k | k in fields
          ensures Canon(c, v, n).fields[k] == Canon(c, w, m).fields[k] <==> SameDocument(c, fields[k], n, w.fields[k], m)
        {
          CanonDecides(c, fields[k], n, w.fields[k], m);
        }
        CanonShape(c, v, n);
        MapsEqual(Canon(c, v, n).fields, Canon(c, w, m).fields);
      } else {
        CanonShape(c, v, n);
      }
    case Arr(items) =>
      CanonShape(c, w, m);
      if w.Arr? && |items| == |w.items| {
        forall i | 0 <= i < |items|
          ensures Canon(c, v, n).items[i] == Canon(c, w, m).items[i] <==> SameDocument(c, items[i], n, w.items[i], m)
        {
          CanonDecides(c, items[i], n, w.items[i], m);
        }
      }
    case Str(t) =>
      if w.Str? {
        CanonDecidesStrings(c, t, n, w.s, m);
      }
    case _ =>
  }

  lemma MapsEqual<K, V>(a: map<K, V>, b: map<K, V>)
    requires a.Keys == b.Keys
    ensures a == b <==> forall k :: k in a ==> a[k] == b[k]
  {
  }

  lemma CanonDecidesStrings(c: Codec, t: string, n: nat, u: string, m: nat)
    requires c.Valid() && |t| < n && |u| < m
    ensures Canon(c, Str(t), n) == Canon(c, Str(u), m) <==> SameDocument(c, Str(t), n, Str(u), m)
    decreases n, Str(t), 0
  {
    if c.Embeds(t) && c.Embeds(u) {
      var v, w := c.parse(t).value, c.parse(u).value;
      CanonDecides(c, v, |t|, w, |u|);
      CanonKeepsShallow(c, v, |t|);
      CanonKeepsShallow(c, w, |u|);
    } else if c.Embeds(t) {
      CanonEmbeds(c, t);
    } else if c.Embeds(u) {
      CanonEmbeds(c, u);
    }
  }

  lemma CanonEmbeds(c: Codec, t: string)
    requires c.Valid() && c.Embeds(t)
    ensures c.Embeds(c.print_(Canon(c, c.parse(t).value, |t|)))
  {
    var v := c.parse(t).value;
    CanonShape(c, v, |t|);
    CanonKeepsShallow(c, v, |t|);
  }

  /** Two stored texts compare equal exactly when they are the same text or spell the
      same document. */
  lemma JsonEqualExact(c: Codec, a: string, b: string)
    requires c.Valid()
    ensures JsonEqual(c, a, b) <==>
      a == b || (c.parse(a).Some? && c.parse(b).Some? && SameDocument(c, c.parse(a).value, |a|, c.parse(b).value, |b|))
  {
    if c.parse(a).Some? && c.parse(b).Some? {
      CanonDecides(c, c.parse(a).value, |a|, c.parse(b).value, |b|);
      CanonKeepsShallow(c, c.parse(a).value, |a|);
      CanonKeepsShallow(c, c.parse(b).value, |b|);
    }
  }

  lemma {:induction false} SameDocumentReflexive(c: Codec, v: Json, n: nat, m: nat)
    requires c.Valid() && LeavesShorter(v, n) && LeavesShorter(v, m)
    ensures SameDocument(c, v, n, v, m)
    decreases n, v
  {
    match v
    case Obj(fields) =>
      forall k | k in fields ensures SameDocument(c, fields[k], n, fields[k], m) {
        SameDocumentReflexive(c, fields[k], n, m);
      }
    case Arr(items) =>
      forall i | 0 <= i < |items| ensures SameDocument(c, items[i], n, items[i], m) {
        SameDocumentReflexive(c, items[i], n, m);
      }
    case Str(t) =>
      if c.Embeds(t) {
        SameDocumentReflexive(c, c.parse(t).value, |t|, |t|);
      }
    case _ =>
  }

  /** The comparison is an equivalence. */
  lemma JsonEqualTransitive(c: Codec, a: string, b: string, d: string)
    requires c.Valid() && JsonEqual(c, a, b) && JsonEqual(c, b, d)
    ensures JsonEqual(c, a, d) && JsonEqual(c, b, a)
  {
  }

  // --------------------------------------------------- rewrites on text

  function RedactText(c: Codec, rules: seq<Rule>, raw: string): string {
    if raw == "" || rules == [] || c.parse(raw).None? then raw
    else c.print_(ApplyRules(c.parse(raw).value, rules))
  }

  function VolatileText(c: Codec, paths: seq<KeyPath>, raw: string): string {
    if raw == "" || paths == [] || c.parse(raw).None? then raw
    else c.print_(DropAll(c.parse(raw).value, paths))
  }

  function NormaliseText(c: Codec, rules: seq<Rule>, paths: seq<KeyPath>, raw: string): string {
    VolatileText(c, paths, RedactText(c, rules, raw))
  }

  lemma NormaliseTextParses(c: Codec, rules: seq<Rule>, paths: seq<KeyPath>, raw: string)
    requires c.Valid()
    ensures c.parse(raw).None? ==> NormaliseText(c, rules, paths, raw) == raw
    ensures c.parse(raw).Some? ==>
      c.parse(NormaliseText(c, rules, paths, raw)) == Some(Normalise(c.parse(raw).value, rules, paths))
    ensures c.parse(raw).Some? && (rules != [] || paths != []) ==>
      NormaliseText(c, rules, paths, raw) == c.print_(Normalise(c.parse(raw).value, rules, paths))
    ensures rules == [] && paths == [] ==> NormaliseText(c, rules, paths, raw) == raw
  {
    if c.parse(raw).Some? {
      var v := c.parse(raw).value;
      RedactionKeepsShallow(v, rules, c.maxDepth);
      DropKeepsShallow(v, paths, c.maxDepth);
      DropKeepsShallow(ApplyRules(v, rules), paths, c.maxDepth);
    }
  }

  /** Rewriting stored text a second time changes nothing. */
  lemma NormaliseTextIdempotent(c: Codec, rules: seq<Rule>, paths: seq<KeyPath>, raw: string)
    requires c.Valid()
    ensures NormaliseText(c, rules, paths, NormaliseText(c, rules, paths, raw)) == NormaliseText(c, rules, paths, raw)
  {
    var t := NormaliseText(c, rules, paths, raw);
    NormaliseTextParses(c, rules, paths, raw);
    NormaliseTextParses(c, rules, paths, t);
    if c.parse(raw).Some? {
      NormaliseIdempotent(c.parse(raw).value, rules, paths);
    }
  }

  /** Payloads that differ only at volatile paths and in redacted scalars are stored as
      texts that compare equal. */
  lemma HiddenDifferencesCompareEqual(c: Codec, rules: seq<Rule>, paths: seq<KeyPath>, a: string, b: string)
    requires c.Valid() && c.parse(a).Some? && c.parse(b).Some?
    requires DifferOnlyHidden(c.parse(a).value, c.parse(b).value, rules, paths)
    ensures JsonEqual(c, NormaliseText(c, rules, paths, a), NormaliseText(c, rules, paths, b))
  {
    var ta, tb := NormaliseText(c, rules, paths, a), NormaliseText(c, rules, paths, b);
    NormaliseTextParses(c, rules, paths, a);
    NormaliseTextParses(c, rules, paths, b);
    StoredAlike(c.parse(a).value, c.parse(b).value, rules, paths);
    SameDocumentReflexive(c, c.parse(ta).value, |ta|, |tb|);
    JsonEqualExact(c, ta, tb);
  }
}
