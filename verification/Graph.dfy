/** store/graph.go: what the graph queries share. */
module Graph {
  import opened Wrappers
  import opened EdgeReads

  datatype Resource = Resource(id: string, typ: string, region: Option<string>, managed: bool)

  /** The current resources by id, and the relationships table. */
  datatype Graph = Graph(nodes: map<string, Resource>, rels: set<Rel>)
  {
    ghost predicate Valid() {
      UniqueKeys(rels) && forall id :: id in nodes ==> nodes[id].id == id
    }
  }

  datatype GraphNode = GraphNode(resource: Resource, depth: nat)
  datatype GraphEdge = GraphEdge(from: string, to: string, kind: string)

  datatype Filter = Filter(includeManaged: bool, excludeTypes: seq<string>, excludeRegions: seq<string>)

  /** "" stands for "both". */
  function ParseDirection(s: string): Option<Direction> {
    if s == "out" then Some(Out) else if s == "in" then Some(In) else if s == "both" || s == "" then Some(Both) else None
  }

  predicate MatchesPattern(p: string, t: string) {
    p != "" && if p[|p|-1] == '*' then p[..|p|-1] <= t else p == t
  }

  /** matchTypeGlob's scan of the patterns. */
  method MatchTypeGlob(patterns: seq<string>, t: string) returns (hit: bool)
    ensures hit <==> exists p :: p in patterns && MatchesPattern(p, t)
  {
    for i := 0 to |patterns|
      invariant forall j :: 0 <= j < i ==> !MatchesPattern(patterns[j], t)
    {
      if MatchesPattern(patterns[i], t) {
        return true;
      }
    }
    hit := false;
  }

  predicate ExcludedType(f: Filter, r: Resource) {
    exists p :: p in f.excludeTypes && MatchesPattern(p, r.typ)
  }

  predicate Excluded(f: Filter, r: Resource) {
    ExcludedType(f, r) || (r.region.Some? && r.region.value in f.excludeRegions)
  }

  method IsExcluded(f: Filter, r: Resource) returns (b: bool)
    ensures b == Excluded(f, r)
  {
    b := MatchTypeGlob(f.excludeTypes, r.typ);
    if !b {
      b := r.region.Some? && r.region.value in f.excludeRegions;
    }
  }

  /** A node a search may go through. */
  predicate Passable(g: Graph, f: Filter, id: string) {
    id in g.nodes && !Excluded(f, g.nodes[id]) && (f.includeManaged || !g.nodes[id].managed)
  }

  predicate HopIs(rels: set<Rel>, dir: Direction, kinds: seq<string>, u: string, v: string, r: Rel) {
    Follows(rels, dir, kinds, Hop(u, r, v))
  }

  /** Some edge of the asked kinds leads from u to v in the asked direction. */
  ghost predicate Joined(rels: set<Rel>, dir: Direction, kinds: seq<string>, u: string, v: string) {
    exists r :: HopIs(rels, dir, kinds, u, v, r)
  }

  /** The edge, as returned, is one that leads from u to v. */
  ghost predicate EdgeJoins(rels: set<Rel>, dir: Direction, kinds: seq<string>, u: string, v: string, e: GraphEdge) {
    exists r :: HopIs(rels, dir, kinds, u, v, r) && e == GraphEdge(r.from, r.to, r.kind)
  }

  // --------------------------------------------------- as the options say it

  /** The relationship leads from u to v for the kinds and the direction as given: no kinds
      are all kinds, and no direction is both. */
  predicate Leads(rels: set<Rel>, direction: string, kinds: seq<string>, r: Rel, u: string, v: string) {
    && r in rels && (|kinds| > 0 ==> r.kind in kinds)
    && ((direction in {"out", "both", ""} && r.from == u && r.to == v) || (direction in {"in", "both", ""} && r.to == u && r.from == v))
  }

  /** Some relationship does; and the edge returned for it. */
  ghost predicate Connected(rels: set<Rel>, direction: string, kinds: seq<string>, u: string, v: string) {
    exists r :: Leads(rels, direction, kinds, r, u, v)
  }

  ghost predicate ConnectedBy(rels: set<Rel>, direction: string, kinds: seq<string>, u: string, v: string, e: GraphEdge) {
    exists r :: Leads(rels, direction, kinds, r, u, v) && e == GraphEdge(r.from, r.to, r.kind)
  }

  lemma ConnectedExact(rels: set<Rel>, direction: string, kinds: seq<string>, u: string, v: string)
    requires ParseDirection(direction).Some?
    ensures Joined(rels, ParseDirection(direction).value, kinds, u, v) <==> Connected(rels, direction, kinds, u, v)
    ensures forall e :: EdgeJoins(rels, ParseDirection(direction).value, kinds, u, v, e) <==> ConnectedBy(rels, direction, kinds, u, v, e)
  {
    forall r
      ensures HopIs(rels, ParseDirection(direction).value, kinds, u, v, r) <==> Leads(rels, direction, kinds, r, u, v)
    {
      LeadsExact(rels, direction, kinds, r, u, v);
    }
    hide HopIs, Leads, ParseDirection;
  }

  lemma DirectionsExact(s: string)
    ensures ParseDirection(s).Some? <==> s in {"out", "in", "both", ""}
    ensures ParseDirection(s).Some? ==> (ParseDirection(s).value != In <==> s in {"out", "both", ""})
    ensures ParseDirection(s).Some? ==> (ParseDirection(s).value != Out <==> s in {"in", "both", ""})
  {
  }

  lemma LeadsExact(rels: set<Rel>, direction: string, kinds: seq<string>, r: Rel, u: string, v: string)
    requires ParseDirection(direction).Some?
    ensures HopIs(rels, ParseDirection(direction).value, kinds, u, v, r) <==> Leads(rels, direction, kinds, r, u, v)
  {
    DirectionsExact(direction);
    hide ParseDirection;
  }

  /** An exclusion names the resource: its type literally, by a stem before a final
      asterisk, or its region. */
  ghost predicate Names(f: Filter, r: Resource) {
    || (exists p :: p in f.excludeTypes && TypeFits(p, r.typ))
    || (exists region :: region in f.excludeRegions && r.region == Some(region))
  }

  ghost predicate TypeFits(p: string, t: string) {
    if exists stem :: p == stem + "*" then exists stem :: p == stem + "*" && stem <= t else p != "" && p == t
  }

  lemma MatchesExact(p: string, t: string)
    ensures MatchesPattern(p, t) <==> TypeFits(p, t)
  {
    if p != "" && p[|p|-1] == '*' {
      assert p == p[..|p|-1] + "*";
      forall stem | p == stem + "*" ensures stem == p[..|p|-1] {
      }
    } else {
      forall stem ensures p != stem + "*" {
        assert (stem + "*")[|stem + "*"|-1] == '*';
      }
    }
  }

  lemma ExcludedExact(f: Filter, r: Resource)
    ensures Excluded(f, r) <==> Names(f, r)
    ensures ExcludedType(f, r) <==> exists p :: p in f.excludeTypes && TypeFits(p, r.typ)
  {
    forall p ensures MatchesPattern(p, r.typ) <==> TypeFits(p, r.typ) {
      MatchesExact(p, r.typ);
    }
    hide MatchesPattern, TypeFits;
  }
}
