/** Decoded JSON, and the positions inside it. */
module JsonTree {
  import opened Wrappers

  /** A finite float64, by its bit pattern; both zeros are kept apart, as JSON text does. */
  type Float64 = n: nat | n < 0x7FF0_0000_0000_0000 || 0x8000_0000_0000_0000 <= n < 0xFFF0_0000_0000_0000

  datatype Json =
    | Null
    | Bool(b: bool)
    | Num(n: Float64)
    | Str(s: string)
    | Arr(items: seq<Json>)
    | Obj(fields: map<string, Json>)

  datatype Step = Key(k: string) | Index(i: nat)
  type Path = seq<Step>

  /** What one node of a JSON tree shows of itself, its children left out. */
  datatype Head =
    | NullHead
    | BoolHead(b: bool)
    | NumHead(n: Float64)
    | StrHead(s: string)
    | ArrHead(length: nat)
    | ObjHead(keys: set<string>)
  {
    predicate Scalar() {
      BoolHead? || NumHead? || StrHead?
    }

    predicate Composite() {
      ArrHead? || ObjHead?
    }
  }

  function HeadOf(v: Json): Head {
    match v
    case Null => NullHead
    case Bool(b) => BoolHead(b)
    case Num(n) => NumHead(n)
    case Str(s) => StrHead(s)
    case Arr(items) => ArrHead(|items|)
    case Obj(fields) => ObjHead(fields.Keys)
  }

  function Child(v: Json, step: Step): Option<Json> {
    match step
    case Key(k) => if v.Obj? && k in v.fields then Some(v.fields[k]) else None
    case Index(i) => if v.Arr? && i < |v.items| then Some(v.items[i]) else None
  }

  function At(v: Json, path: Path): Option<Json> {
    if path == [] then Some(v)
    else
      var c := Child(v, path[0]);
      if c.None? then None else At(c.value, path[1..])
  }

  function HeadAt(v: Json, path: Path): Option<Head> {
    var a := At(v, path);
    if a.None? then None else Some(HeadOf(a.value))
  }

  /** Objects and arrays are nested at most depth deep. */
  ghost predicate Shallow(v: Json, depth: nat) {
    forall path: Path :: HeadAt(v, path).Some? && HeadAt(v, path).value.Composite() ==> |path| < depth
  }

  lemma HeadUnder(v: Json, step: Step, path: Path)
    ensures HeadAt(v, [step] + path) == if Child(v, step).None? then None else HeadAt(Child(v, step).value, path)
  {
    assert ([step] + path)[1..] == path;
  }

  ghost predicate SameEverywhere(v: Json, w: Json) {
    forall path: Path :: HeadAt(v, path) == HeadAt(w, path)
  }

  /** A JSON value is determined by what it shows at every position. */
  lemma {:induction false} Extensional(v: Json, w: Json)
    requires SameEverywhere(v, w)
    ensures v == w
    decreases v
  {
    assert HeadAt(v, []) == HeadAt(w, []);
    match v
    case Arr(items) =>
      forall i | 0 <= i < |items|
        ensures items[i] == w.items[i]
      {
        ChildrenAgree(v, w, Index(i));
        Extensional(items[i], w.items[i]);
      }
      assert items == w.items;
    case Obj(fields) =>
      forall k | k in fields
        ensures fields[k] == w.fields[k]
      {
        ChildrenAgree(v, w, Key(k));
        Extensional(fields[k], w.fields[k]);
      }
      assert fields == w.fields;
    case _ =>
  }

  lemma ChildrenAgree(v: Json, w: Json, step: Step)
    requires SameEverywhere(v, w)
    requires Child(v, step).Some? && Child(w, step).Some?
    ensures SameEverywhere(Child(v, step).value, Child(w, step).value)
  {
    forall path: Path
      ensures HeadAt(Child(v, step).value, path) == HeadAt(Child(w, step).value, path)
    {
      HeadUnder(v, step, path);
      HeadUnder(w, step, path);
      assert HeadAt(v, [step] + path) == HeadAt(w, [step] + path);
    }
  }
}
