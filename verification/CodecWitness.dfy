/** A codec that meets every assumption JsonText makes of JSON parsing and printing, at
    any nesting limit: documents are spelt in a prefix-free notation, and parsing is the
    inverse of spelling. */
module CodecWitness {
  import opened Wrappers
  import opened JsonTree
  import opened JsonText

  // --------------------------------------------------------------- spelling

  /** n in unary, closed by a dot. */
  function Unary(n: nat): string {
    if n == 0 then "." else "u" + Unary(n - 1)
  }

  function Text(s: string): string {
    Unary(|s|) + s
  }

  ghost function Spell(v: Json): string
    decreases v, 1, 0
  {
    match v
    case Null => "n"
    case Bool(b) => if b then "t" else "f"
    case Num(n) => "#" + Unary(n)
    case Str(s) => "'" + Text(s)
    case Arr(items) => "[" + SpellItems(v, 0)
    case Obj(fields) => "{" + SpellFields(v, fields.Keys)
  }

  ghost function SpellItems(v: Json, i: nat): string
    requires v.Arr? && i <= |v.items|
    decreases v, 0, |v.items| - i
  {
    if i == |v.items| then "." else ":" + Spell(v.items[i]) + SpellItems(v, i + 1)
  }

  ghost function SpellFields(v: Json, keys: set<string>): string
    requires v.Obj? && keys <= v.fields.Keys
    decreases v, 0, |keys|
  {
    if keys == {} then "."
    else
      var k :| k in keys;
      ":" + Text(k) + Spell(v.fields[k]) + SpellFields(v, keys - {k})
  }

  // ---------------------------------------------------- spelling is prefix-free

  lemma {:induction false} UnaryUnique(n: nat, m: nat, x: string, y: string)
    requires Unary(n) + x == Unary(m) + y
    ensures n == m && x == y
  {
    assert (Unary(n) + x)[0] == Unary(n)[0] && (Unary(m) + y)[0] == Unary(m)[0];
    if n > 0 && m > 0 {
      assert (Unary(n) + x)[1..] == Unary(n - 1) + x;
      assert (Unary(m) + y)[1..] == Unary(m - 1) + y;
      UnaryUnique(n - 1, m - 1, x, y);
    } else if n == 0 && m == 0 {
      assert (Unary(n) + x)[1..] == x && (Unary(m) + y)[1..] == y;
    }
  }

  lemma TextUnique(s: string, t: string, x: string, y: string)
    requires Text(s) + x == Text(t) + y
    ensures s == t && x == y
  {
    assert Text(s) + x == Unary(|s|) + (s + x);
    assert Text(t) + y == Unary(|t|) + (t + y);
    UnaryUnique(|s|, |t|, s + x, t + y);
    assert (s + x)[..|s|] == s && (t + y)[..|t|] == t;
    assert (s + x)[|s|..] == x && (t + y)[|t|..] == y;
  }

  lemma {:induction false} SpellUnique(v: Json, w: Json, x: string, y: string)
    requires Spell(v) + x == Spell(w) + y
    ensures v == w && x == y
    decreases v, 1, 0
  {
    hide Text, Unary, SpellItems, SpellFields;
    assert (Spell(v) + x)[0] == Spell(v)[0] && (Spell(w) + y)[0] == Spell(w)[0];
    assert (Spell(v) + x)[1..] == Spell(v)[1..] + x && (Spell(w) + y)[1..] == Spell(w)[1..] + y;
    match v
    case Num(n) => UnaryUnique(n, w.n, x, y);
    case Str(s) => TextUnique(s, w.s, x, y);
    case Arr(items) =>
      ItemsUnique(v, w, 0, x, y);
      assert items == w.items;
    case Obj(fields) =>
      FieldsUnique(v, w, fields.Keys, w.fields.Keys, x, y);
      assert fields == w.fields;
    case _ =>
  }

  lemma {:induction false} ItemsUnique(v: Json, w: Json, i: nat, x: string, y: string)
    requires v.Arr? && w.Arr? && i <= |v.items| && i <= |w.items|
    requires SpellItems(v, i) + x == SpellItems(w, i) + y
    ensures v.items[i..] == w.items[i..] && x == y
    decreases v, 0, |v.items| - i
  {
    ItemMark(v, i, x);
    ItemMark(w, i, y);
    if i < |v.items| && i < |w.items| {
      hide SpellItems, Spell;
      SpellUnique(v.items[i], w.items[i], SpellItems(v, i + 1) + x, SpellItems(w, i + 1) + y);
      ItemsUnique(v, w, i + 1, x, y);
      assert v.items[i..] == [v.items[i]] + v.items[i+1..];
      assert w.items[i..] == [w.items[i]] + w.items[i+1..];
    }
  }

  lemma ItemMark(v: Json, i: nat, x: string)
    requires v.Arr? && i <= |v.items|
    ensures SpellItems(v, i) + x != "" && ((SpellItems(v, i) + x)[0] == '.' <==> i == |v.items|)
    ensures i == |v.items| ==> (SpellItems(v, i) + x)[1..] == x
    ensures i < |v.items| ==> (SpellItems(v, i) + x)[1..] == Spell(v.items[i]) + (SpellItems(v, i + 1) + x)
  {
    hide Spell;
    assert (SpellItems(v, i) + x)[0] == SpellItems(v, i)[0];
    if i < |v.items| {
      assert SpellItems(v, i)[1..] == Spell(v.items[i]) + SpellItems(v, i + 1);
      assert (SpellItems(v, i) + x)[1..] == SpellItems(v, i)[1..] + x;
    }
  }

  lemma {:induction false} FieldsUnique(v: Json, w: Json, ks: set<string>, ls: set<string>, x: string, y: string)
    requires v.Obj? && w.Obj? && ks <= v.fields.Keys && ls <= w.fields.Keys
    requires SpellFields(v, ks) + x == SpellFields(w, ls) + y
    ensures ks == ls && (forall k :: k in ks ==> v.fields[k] == w.fields[k]) && x == y
    decreases v, 0, |ks|
  {
    FirstMark(v, ks, x);
    FirstMark(w, ls, y);
    if ks != {} && ls != {} {
      var k := FirstField(v, ks, x);
      var l := FirstField(w, ls, y);
      hide *;
      var a, b := SpellFields(v, ks - {k}), SpellFields(w, ls - {l});
      TextUnique(k, l, Spell(v.fields[k]) + (a + x), Spell(w.fields[l]) + (b + y));
      SpellUnique(v.fields[k], w.fields[l], a + x, b + y);
      FieldsUnique(v, w, ks - {k}, ls - {l}, x, y);
    }
  }

  lemma FirstMark(v: Json, keys: set<string>, x: string)
    requires v.Obj? && keys <= v.fields.Keys
    ensures SpellFields(v, keys) + x != "" && ((SpellFields(v, keys) + x)[0] == '.' <==> keys == {})
    ensures keys == {} ==> (SpellFields(v, keys) + x)[1..] == x
  {
    hide Spell;
    assert (SpellFields(v, keys) + x)[0] == SpellFields(v, keys)[0];
  }

  lemma FirstField(v: Json, keys: set<string>, x: string) returns (k: string)
    requires v.Obj? && keys <= v.fields.Keys && keys != {}
    ensures k in keys && SpellFields(v, keys) == ":" + Text(k) + Spell(v.fields[k]) + SpellFields(v, keys - {k})
    ensures (SpellFields(v, keys) + x)[1..] == Text(k) + (Spell(v.fields[k]) + (SpellFields(v, keys - {k}) + x))
  {
    k :| k in keys && SpellFields(v, keys) == ":" + Text(k) + Spell(v.fields[k]) + SpellFields(v, keys - {k});
    Regroup(":", Text(k), Spell(v.fields[k]), SpellFields(v, keys - {k}), x);
  }

  lemma Regroup(mark: string, a: string, b: string, d: string, x: string)
    requires |mark| == 1
    ensures ((mark + a + b + d) + x)[1..] == a + (b + (d + x))
  {
  }

  // ------------------------------------------------------ leaves are shorter

  lemma {:induction false} LeavesWiden(v: Json, n: nat, m: nat)
    requires LeavesShorter(v, n) && n <= m
    ensures LeavesShorter(v, m)
  {
    match v
    case Arr(items) =>
      forall i | 0 <= i < |items| ensures LeavesShorter(items[i], m) { LeavesWiden(items[i], n, m); }
    case Obj(fields) =>
      forall k | k in fields ensures LeavesShorter(fields[k], m) { LeavesWiden(fields[k], n, m); }
    case _ =>
  }

  lemma {:induction false} SpeltLonger(v: Json)
    ensures LeavesShorter(v, |Spell(v)|)
    decreases v, 1, 0
  {
    match v
    case Arr(items) => ItemsLonger(v, 0);
      forall i | 0 <= i < |items| ensures LeavesShorter(items[i], |Spell(v)|) {
        LeavesWiden(items[i], |SpellItems(v, 0)|, |Spell(v)|);
      }
    case Obj(fields) => FieldsLonger(v, fields.Keys);
      forall k | k in fields ensures LeavesShorter(fields[k], |Spell(v)|) {
        LeavesWiden(fields[k], |SpellFields(v, fields.Keys)|, |Spell(v)|);
      }
    case _ =>
  }

  lemma {:induction false} ItemsLonger(v: Json, i: nat)
    requires v.Arr? && i <= |v.items|
    ensures forall j :: i <= j < |v.items| ==> LeavesShorter(v.items[j], |SpellItems(v, i)|)
    decreases v, 0, |v.items| - i
  {
    if i < |v.items| {
      SpeltLonger(v.items[i]);
      ItemsLonger(v, i + 1);
      forall j | i <= j < |v.items| ensures LeavesShorter(v.items[j], |SpellItems(v, i)|) {
        LeavesWiden(v.items[j], if j == i then |Spell(v.items[i])| else |SpellItems(v, i + 1)|, |SpellItems(v, i)|);
      }
    }
  }

  lemma {:induction false} FieldsLonger(v: Json, keys: set<string>)
    requires v.Obj? && keys <= v.fields.Keys
    ensures forall k :: k in keys ==> LeavesShorter(v.fields[k], |SpellFields(v, keys)|)
    decreases v, 0, |keys|
  {
    if keys != {} {
      var first := FirstField(v, keys, "");
      SpeltLonger(v.fields[first]);
      FieldsLonger(v, keys - {first});
      forall k | k in keys ensures LeavesShorter(v.fields[k], |SpellFields(v, keys)|) {
        LeavesWiden(v.fields[k], if k == first then |Spell(v.fields[k])| else |SpellFields(v, keys - {first})|,
                    |SpellFields(v, keys)|);
      }
    }
  }

  // --------------------------------------------------------------- the codec

  ghost function Unspell(t: string, depth: nat): Option<Json> {
    if exists v: Json :: Shallow(v, depth) && Spell(v) == t then
      var v: Json :| Shallow(v, depth) && Spell(v) == t;
      Some(v)
    else None
  }

  lemma UnspellExact(v: Json, t: string, depth: nat)
    ensures Unspell(t, depth) == Some(v) <==> Shallow(v, depth) && Spell(v) == t
  {
    if Shallow(v, depth) && Spell(v) == t {
      var w := Unspell(t, depth).value;
      SpellUnique(v, w, "", "");
    }
  }

  lemma SpellLooks(v: Json)
    ensures Spell(v) != "" && (LooksEmbedded(Spell(v)) <==> v.Obj? || v.Arr?)
  {
  }

  /** At every nesting limit some codec meets all the assumptions. */
  lemma CodecExists(depth: nat)
    ensures exists c: Codec :: c.Valid() && c.maxDepth == depth
  {
    ghost var c := Codec(t => Unspell(t, depth), v => Spell(v), depth);
    assert c.parse("") == None by {
      if c.parse("").Some? {
        UnspellExact(c.parse("").value, "", depth);
        SpellLooks(c.parse("").value);
      }
    }
    forall v: Json | Shallow(v, depth) ensures c.parse(c.print_(v)) == Some(v) {
      UnspellExact(v, Spell(v), depth);
    }
    forall t: string | c.parse(t).Some?
      ensures Shallow(c.parse(t).value, depth) && LeavesShorter(c.parse(t).value, |t|)
      ensures LooksEmbedded(t) <==> c.parse(t).value.Obj? || c.parse(t).value.Arr?
    {
      UnspellExact(c.parse(t).value, t, depth);
      SpellLooks(c.parse(t).value);
      SpeltLonger(c.parse(t).value);
    }
    assert c.Valid();
  }
}
