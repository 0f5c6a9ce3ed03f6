/** internal/volatile/volatile.go: deleting the fields that churn on every read. */
module Volatile {
  import opened Wrappers
  import opened JsonTree
  import opened Redact

  type KeyPath = seq<string>

  function Drop(v: Json, segs: KeyPath): Json {
    if !v.Obj? || segs == [] then v
    else if |segs| == 1 then Obj(v.fields - {segs[0]})
    else if segs[0] in v.fields then Obj(v.fields[segs[0] := Drop(v.fields[segs[0]], segs[1..])])
    else v
  }

  function DropAll(v: Json, paths: seq<KeyPath>): Json
    decreases |paths|
  {
    if paths == [] then v else DropAll(Drop(v, paths[0]), paths[1..])
  }

  /** Apply's loop over the registered paths. */
  method DropEachPath(v: Json, paths: seq<KeyPath>) returns (r: Json)
    ensures r == DropAll(v, paths)
  {
    r := v;
    for i := 0 to |paths|
      invariant DropAll(r, paths[i..]) == DropAll(v, paths)
    {
      assert paths[i..][1..] == paths[i+1..];
      r := Drop(r, paths[i]);
    }
  }

  /** The position lies at or below the named field. */
  predicate Under(segs: KeyPath, path: Path) {
    0 < |segs| <= |path| && forall i :: 0 <= i < |segs| ==> path[i] == Key(segs[i])
  }

  predicate IsVolatile(paths: seq<KeyPath>, path: Path) {
    exists p :: p in paths && Under(p, path)
  }

  /** What is left to see at a position: nothing at or below a volatile field, and
      objects without the keys of volatile fields. */
  function Prune(h: Option<Head>, paths: seq<KeyPath>, path: Path): Option<Head> {
    if IsVolatile(paths, path) then None
    else if h.Some? && h.value.ObjHead? then
      Some(ObjHead(set k | k in h.value.keys && !IsVolatile(paths, path + [Key(k)])))
    else h
  }

  lemma UnderTail(segs: KeyPath, path: Path)
    requires segs != [] && path != []
    ensures Under(segs, path) <==> path[0] == Key(segs[0]) && (|segs| == 1 || Under(segs[1..], path[1..]))
  {
    if Under(segs, path) {
      assert path[0] == Key(segs[0]);
      forall i | 0 <= i < |segs| - 1
        ensures path[1..][i] == Key(segs[1..][i])
      {
        assert path[i+1] == Key(segs[i+1]);
      }
    }
    if path[0] == Key(segs[0]) && (|segs| == 1 || Under(segs[1..], path[1..])) {
      assert forall i :: 1 <= i < |segs| ==> path[i] == path[1..][i-1] && segs[i] == segs[1..][i-1];
    }
  }

  lemma Singleton(segs: KeyPath, path: Path)
    ensures IsVolatile([segs], path) <==> Under(segs, path)
  {
    assert segs in [segs];
  }

  lemma {:induction false} DropAt(v: Json, segs: KeyPath, path: Path)
    ensures HeadAt(Drop(v, segs), path) == Prune(HeadAt(v, path), [segs], path)
    decreases |segs|
  {
    var w := Drop(v, segs);
    Singleton(segs, path);
    forall k: string
      ensures IsVolatile([segs], path + [Key(k)]) <==> Under(segs, path + [Key(k)])
    {
      Singleton(segs, path + [Key(k)]);
    }
    if path == [] {
      RootKeys(v, segs);
    } else {
      var c := Child(v, path[0]);
      if segs != [] {
        UnderTail(segs, path);
        if c.Some? {
          DropBelow(v, segs, path);
        }
      } else if c.Some? && HeadAt(v, path).Some? && HeadAt(v, path).value.ObjHead? {
        var keys := HeadAt(v, path).value.keys;
        assert keys == set k | k in keys && !IsVolatile([segs], path + [Key(k)]);
      }
    }
  }

  lemma RootKeys(v: Json, segs: KeyPath)
    ensures HeadAt(Drop(v, segs), []) == Prune(HeadAt(v, []), [segs], [])
  {
    Singleton(segs, []);
    if v.Obj? {
      forall k | k in v.fields
        ensures IsVolatile([segs], [] + [Key(k)]) <==> |segs| == 1 && segs[0] == k
      {
        Singleton(segs, [] + [Key(k)]);
      }
      var keys := set k | k in v.fields && !IsVolatile([segs], [] + [Key(k)]);
      assert Drop(v, segs).fields.Keys == keys;
    }
  }

  lemma DropBelow(v: Json, segs: KeyPath, path: Path)
    requires segs != [] && path != [] && Child(v, path[0]).Some?
    ensures HeadAt(Drop(v, segs), path) == Prune(HeadAt(v, path), [segs], path)
    decreases |segs|, 0
  {
    var c := Child(v, path[0]).value;
    var w := Drop(v, segs);
    var rest := path[1..];
    UnderTail(segs, path);
    Singleton(segs, path);
    forall k: string
      ensures IsVolatile([segs], path + [Key(k)]) <==>
        path[0] == Key(segs[0]) && (|segs| == 1 || IsVolatile([segs[1..]], rest + [Key(k)]))
    {
      Singleton(segs, path + [Key(k)]);
      UnderTail(segs, path + [Key(k)]);
      Singleton(segs[1..], rest + [Key(k)]);
      assert (path + [Key(k)])[1..] == rest + [Key(k)];
    }
    if v.Obj? && path[0] == Key(segs[0]) && |segs| > 1 {
      DropAt(c, segs[1..], rest);
      Singleton(segs[1..], rest);
      assert Child(w, path[0]).value == Drop(c, segs[1..]);
      var h := HeadAt(v, path);
      if h.Some? && h.value.ObjHead? {
        assert (set k | k in h.value.keys && !IsVolatile([segs], path + [Key(k)]))
            == (set k | k in h.value.keys && !IsVolatile([segs[1..]], rest + [Key(k)]));
      }
    } else if path[0] != Key(segs[0]) {
      assert Child(w, path[0]) == Child(v, path[0]);
      var h := HeadAt(v, path);
      if h.Some? && h.value.ObjHead? {
        assert h.value.keys == set k | k in h.value.keys && !IsVolatile([segs], path + [Key(k)]);
      }
    }
  }

  lemma VolatileCons(paths: seq<KeyPath>, path: Path)
    requires paths != []
    ensures IsVolatile(paths, path) <==> IsVolatile([paths[0]], path) || IsVolatile(paths[1..], path)
  {
    Singleton(paths[0], path);
    if IsVolatile(paths, path) {
      var p :| p in paths && Under(p, path);
      assert p == paths[0] || p in paths[1..];
    }
  }

  /** Dropping removes exactly what lies at or below a registered path. */
  lemma {:induction false} DropExact(v: Json, paths: seq<KeyPath>, path: Path)
    ensures HeadAt(DropAll(v, paths), path) == Prune(HeadAt(v, path), paths, path)
    decreases paths
  {
    var h := HeadAt(v, path);
    if paths == [] {
      if h.Some? && h.value.ObjHead? {
        assert h.value.keys == set k | k in h.value.keys && !IsVolatile([], path + [Key(k)]);
      }
    } else {
      DropAt(v, paths[0], path);
      DropExact(Drop(v, paths[0]), paths[1..], path);
      VolatileCons(paths, path);
      if h.Some? && h.value.ObjHead? {
        forall k: string
          ensures IsVolatile(paths, path + [Key(k)]) <==>
            IsVolatile([paths[0]], path + [Key(k)]) || IsVolatile(paths[1..], path + [Key(k)])
        {
          VolatileCons(paths, path + [Key(k)]);
        }
        var once := set k | k in h.value.keys && !IsVolatile([paths[0]], path + [Key(k)]);
        assert (set k | k in once && !IsVolatile(paths[1..], path + [Key(k)]))
            == (set k | k in h.value.keys && !IsVolatile(paths, path + [Key(k)]));
      }
    }
  }

  /** Dropping nests nothing deeper. */
  lemma DropKeepsShallow(v: Json, paths: seq<KeyPath>, depth: nat)
    requires Shallow(v, depth)
    ensures Shallow(DropAll(v, paths), depth)
  {
    var w := DropAll(v, paths);
    forall path: Path | HeadAt(w, path).Some? && HeadAt(w, path).value.Composite() ensures |path| < depth {
      DropExact(v, paths, path);
    }
  }

  /** What the store keeps of a payload: redacted, then stripped of volatile fields. */
  function Normalise(v: Json, rules: seq<Rule>, paths: seq<KeyPath>): Json {
    DropAll(ApplyRules(v, rules), paths)
  }

  /** Redacting and dropping commute. */
  lemma RedactionCommutesWithDrop(v: Json, rules: seq<Rule>, paths: seq<KeyPath>)
    ensures DropAll(ApplyRules(v, rules), paths) == ApplyRules(DropAll(v, paths), rules)
  {
    forall path: Path
      ensures HeadAt(DropAll(ApplyRules(v, rules), paths), path) == HeadAt(ApplyRules(DropAll(v, paths), rules), path)
    {
      RedactionExact(v, rules, path);
      RedactionExact(DropAll(v, paths), rules, path);
      DropExact(v, paths, path);
      DropExact(ApplyRules(v, rules), paths, path);
    }
    Extensional(DropAll(ApplyRules(v, rules), paths), ApplyRules(DropAll(v, paths), rules));
  }

  lemma DropIdempotent(v: Json, paths: seq<KeyPath>)
    ensures DropAll(DropAll(v, paths), paths) == DropAll(v, paths)
  {
    var w := DropAll(v, paths);
    forall path: Path
      ensures HeadAt(DropAll(w, paths), path) == HeadAt(w, path)
    {
      DropExact(v, paths, path);
      DropExact(w, paths, path);
      var h := HeadAt(w, path);
      if h.Some? && h.value.ObjHead? {
        assert h.value.keys == set k | k in h.value.keys && !IsVolatile(paths, path + [Key(k)]);
      }
    }
    Extensional(DropAll(w, paths), w);
  }

  lemma NormaliseIdempotent(v: Json, rules: seq<Rule>, paths: seq<KeyPath>)
    ensures Normalise(Normalise(v, rules, paths), rules, paths) == Normalise(v, rules, paths)
  {
    var w := ApplyRules(v, rules);
    RedactionCommutesWithDrop(w, rules, paths);
    RedactionIdempotent(v, rules);
    DropIdempotent(w, paths);
  }

  /** The two payloads differ only below volatile paths and in the values of covered
      scalars. */
  ghost predicate DifferOnlyHidden(v: Json, w: Json, rules: seq<Rule>, paths: seq<KeyPath>) {
    forall path: Path :: !IsVolatile(paths, path) ==>
      AgreeAt(HeadAt(v, path), HeadAt(w, path), rules, paths, path)
  }

  predicate AgreeAt(a: Option<Head>, b: Option<Head>, rules: seq<Rule>, paths: seq<KeyPath>, path: Path) {
    || a == b
    || (a.Some? && b.Some? && a.value.Scalar() && b.value.Scalar() && CoveredBy(rules, path))
    || (a.Some? && b.Some? && a.value.ObjHead? && b.value.ObjHead? &&
        (set k | k in a.value.keys && !IsVolatile(paths, path + [Key(k)])) ==
        (set k | k in b.value.keys && !IsVolatile(paths, path + [Key(k)])))
  }

  /** Two payloads are stored alike exactly when they differ only where they may. */
  lemma StoredAlike(v: Json, w: Json, rules: seq<Rule>, paths: seq<KeyPath>)
    ensures Normalise(v, rules, paths) == Normalise(w, rules, paths) <==> DifferOnlyHidden(v, w, rules, paths)
  {
    var nv, nw := Normalise(v, rules, paths), Normalise(w, rules, paths);
    forall path: Path
      ensures HeadAt(nv, path) == HeadAt(nw, path) <==>
        (IsVolatile(paths, path) || AgreeAt(HeadAt(v, path), HeadAt(w, path), rules, paths, path))
    {
      RedactionExact(v, rules, path);
      RedactionExact(w, rules, path);
      DropExact(ApplyRules(v, rules), paths, path);
      DropExact(ApplyRules(w, rules), paths, path);
    }
    if DifferOnlyHidden(v, w, rules, paths) {
      Extensional(nv, nw);
    }
  }
}
