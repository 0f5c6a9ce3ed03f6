/** store/graph.go: GraphPath, the shortest path between two resources. */
module GraphPath {
  import opened EdgeReads
  import opened Graph
  import Lex

  const DEPTH_CAP: nat := 64

  datatype PathOpts = PathOpts(maxDepth: int, kinds: seq<string>, direction: string, filter: Filter)

  datatype PathResult =
    | Found(nodes: seq<GraphNode>, edges: seq<GraphEdge>)
    | NoPath
    | NotFound(id: string)
    | BadDirection

  function DepthLimit(maxDepth: int): nat {
    if maxDepth <= 0 || maxDepth > DEPTH_CAP then DEPTH_CAP else maxDepth
  }

  /** A query after its defaults: the graph, the way edges are followed, the endpoints. */
  datatype Query = Query(g: Graph, dir: Direction, kinds: seq<string>, filter: Filter, from: string, to: string)
  {
    ghost predicate Valid() {
      g.Valid() && from in g.nodes && to in g.nodes && from != to
    }

    ghost predicate Step(u: string, v: string) {
      Joined(g.rels, dir, kinds, u, v)
    }

    /** A node whose edges the search follows. */
    predicate Open(u: string) {
      u == from || Passable(g, filter, u)
    }
  }

  /** Edges of the asked kinds and direction join consecutive nodes, every node exists,
      and the nodes in between are neither excluded nor (unless included) managed. */
  ghost predicate Admissible(q: Query, p: seq<string>) {
    && |p| >= 1 && p[0] == q.from && p[|p|-1] == q.to
    && (forall i :: 0 <= i < |p| ==> p[i] in q.g.nodes)
    && (forall i :: 0 <= i < |p| - 1 ==> q.Step(p[i], p[i+1]))
    && (forall i :: 1 <= i < |p| - 1 ==> Passable(q.g, q.filter, p[i]))
  }

  /** The result reads as an admissible path, with the edges that join its nodes. */
  ghost predicate IsRoute(q: Query, nodes: seq<GraphNode>, edges: seq<GraphEdge>) {
    && |nodes| == |edges| + 1
    && (forall i :: 0 <= i < |nodes| ==> nodes[i].depth == i && IsNode(q.g, nodes[i].resource))
    && Admissible(q, Ids(nodes))
    && (forall i :: 0 <= i < |edges| ==>
          EdgeJoins(q.g.rels, q.dir, q.kinds, nodes[i].resource.id, nodes[i+1].resource.id, edges[i]))
  }

  predicate IsNode(g: Graph, r: Resource) {
    r.id in g.nodes && g.nodes[r.id] == r
  }

  function Ids(nodes: seq<GraphNode>): seq<string> {
    seq(|nodes|, i requires 0 <= i < |nodes| => nodes[i].resource.id)
  }

  // --------------------------------------------------- as the options say it

  /** A path through stored resources along relationships the options allow, whose inner
      nodes are not excluded and, unless included, not provider-managed. */
  ghost predicate PathOf(g: Graph, from: string, to: string, opts: PathOpts, p: seq<string>) {
    && |p| >= 1 && p[0] == from && p[|p|-1] == to
    && (forall i :: 0 <= i < |p| ==> p[i] in g.nodes)
    && (forall i :: 0 <= i < |p| - 1 ==> Connected(g.rels, opts.direction, opts.kinds, p[i], p[i+1]))
    && (forall i :: 0 < i < |p| - 1 ==> !Names(opts.filter, g.nodes[p[i]]) && (opts.filter.includeManaged || !g.nodes[p[i]].managed))
  }

  /** The result spells such a path: its nodes with their distances, and the relationships
      between them. */
  ghost predicate Spells(g: Graph, from: string, to: string, opts: PathOpts, nodes: seq<GraphNode>, edges: seq<GraphEdge>) {
    && |nodes| == |edges| + 1 && PathOf(g, from, to, opts, Ids(nodes))
    && (forall i :: 0 <= i < |nodes| ==> nodes[i].depth == i && IsNode(g, nodes[i].resource))
    && (forall i :: 0 <= i < |edges| ==>
          ConnectedBy(g.rels, opts.direction, opts.kinds, nodes[i].resource.id, nodes[i+1].resource.id, edges[i]))
  }

  function QueryOf(g: Graph, from: string, to: string, opts: PathOpts): Query
    requires ParseDirection(opts.direction).Some?
  {
    Query(g, ParseDirection(opts.direction).value, opts.kinds, opts.filter, from, to)
  }

  lemma PassableExact(g: Graph, f: Filter, id: string)
    ensures Passable(g, f, id) <==> id in g.nodes && !Names(f, g.nodes[id]) && (f.includeManaged || !g.nodes[id].managed)
  {
    if id in g.nodes {
      ExcludedExact(f, g.nodes[id]);
    }
    hide Excluded, Names;
  }

  lemma AdmissibleExact(g: Graph, from: string, to: string, opts: PathOpts, p: seq<string>)
    requires ParseDirection(opts.direction).Some?
    ensures Admissible(QueryOf(g, from, to, opts), p) <==> PathOf(g, from, to, opts, p)
  {
    forall i: int | 0 <= i < |p| - 1
      ensures QueryOf(g, from, to, opts).Step(p[i], p[i+1]) <==> Connected(g.rels, opts.direction, opts.kinds, p[i], p[i+1])
    {
      ConnectedExact(g.rels, opts.direction, opts.kinds, p[i], p[i+1]);
    }
    forall i: int | 0 <= i < |p|
      ensures Passable(g, opts.filter, p[i]) <==>
        p[i] in g.nodes && !Names(opts.filter, g.nodes[p[i]]) && (opts.filter.includeManaged || !g.nodes[p[i]].managed)
    {
      PassableExact(g, opts.filter, p[i]);
    }
    hide Passable, Names, Connected, Joined, ParseDirection;
  }

  lemma RouteExact(g: Graph, from: string, to: string, opts: PathOpts, nodes: seq<GraphNode>, edges: seq<GraphEdge>)
    requires ParseDirection(opts.direction).Some?
    ensures IsRoute(QueryOf(g, from, to, opts), nodes, edges) <==> Spells(g, from, to, opts, nodes, edges)
  {
    AdmissibleExact(g, from, to, opts, Ids(nodes));
    forall i: int | 0 <= i < |edges| && |nodes| == |edges| + 1
      ensures EdgeJoins(g.rels, QueryOf(g, from, to, opts).dir, opts.kinds, nodes[i].resource.id, nodes[i+1].resource.id, edges[i]) <==>
        ConnectedBy(g.rels, opts.direction, opts.kinds, nodes[i].resource.id, nodes[i+1].resource.id, edges[i])
    {
      ConnectedExact(g.rels, opts.direction, opts.kinds, nodes[i].resource.id, nodes[i+1].resource.id);
    }
    hide Admissible, EdgeJoins, ConnectedBy, ParseDirection, PathOf, Ids;
  }

  // ------------------------------------------------------ the search state

  datatype BfsEdge = BfsEdge(parent: string, kind: string, from: string, to: string)

  type Parents = map<string, BfsEdge>
  type Levels = map<string, nat>

  function EdgeOf(h: Hop): BfsEdge {
    BfsEdge(h.origin, h.rel.kind, h.rel.from, h.rel.to)
  }

  ghost predicate PointsBack(q: Query, e: BfsEdge, u: string, v: string) {
    e.parent == u && EdgeJoins(q.g.rels, q.dir, q.kinds, u, v, GraphEdge(e.from, e.to, e.kind))
  }

  /** A node and its parent pointer, one level below its parent. */
  ghost predicate Hangs(q: Query, parent: Parents, lev: Levels, v: string)
    requires v in lev && v in parent
  {
    && v in q.g.nodes
    && parent[v].parent in lev && lev[v] == lev[parent[v].parent] + 1 && q.Open(parent[v].parent)
    && PointsBack(q, parent[v], parent[v].parent, v)
  }

  /** The parent pointers of the levelled nodes form a tree rooted at the start. */
  ghost predicate Tree(q: Query, parent: Parents, lev: Levels) {
    && q.from in lev && lev[q.from] == 0
    && forall v :: v in lev && v != q.from ==> v in parent && Hangs(q, parent, lev, v)
  }

  /** Every neighbour of an expanded node was kept at most one level below it, unless it
      is excluded. */
  ghost predicate Complete(q: Query, lev: Levels, d: nat) {
    forall u, v :: u in lev && lev[u] < d && q.Open(u) && q.Step(u, v) && v in q.g.nodes ==>
      (v in lev && lev[v] <= lev[u] + 1) || (Excluded(q.filter, q.g.nodes[v]) && v != q.to)
  }

  ghost predicate FrontierIs(q: Query, lev: Levels, frontier: seq<string>, d: nat) {
    forall u :: u in frontier <==> u in lev && lev[u] == d && q.Open(u)
  }

  /** The state before the layer at depth d is expanded. */
  ghost predicate Searching(q: Query, parent: Parents, lev: Levels, frontier: seq<string>, d: nat) {
    && parent.Keys == lev.Keys && q.to !in lev
    && Tree(q, parent, lev) && Complete(q, lev, d) && FrontierIs(q, lev, frontier, d)
    && Within(lev, d)
  }

  ghost predicate Within(lev: Levels, d: nat) {
    forall v :: v in lev ==> lev[v] <= d
  }

  // ---------------------------------------- what the levels say about paths

  /** Until the goal is hit, every prefix of an admissible path lies within its levels. */
  lemma {:induction false} PrefixLevelled(q: Query, lev: Levels, d: nat, p: seq<string>, i: nat)
    requires q.from in lev && lev[q.from] == 0 && Complete(q, lev, d)
    requires Admissible(q, p) && i < |p| - 1 && i <= d
    ensures p[i] in lev && lev[p[i]] <= i && q.Open(p[i])
    decreases i
  {
    hide Excluded, Joined;
    if i > 0 {
      PrefixLevelled(q, lev, d, p, i - 1);
      assert q.Step(p[i-1], p[i-1+1]);
    }
  }

  /** While the goal has no level, every admissible path is longer than the levels
      searched. */
  lemma PathsAreLonger(q: Query, lev: Levels, d: nat, p: seq<string>)
    requires q.Valid() && q.from in lev && lev[q.from] == 0 && Complete(q, lev, d) && q.to !in lev
    requires Admissible(q, p)
    ensures |p| - 1 > d
  {
    hide Excluded, Joined;
    var k := |p| - 1;
    assert k > 0;
    assert q.Step(p[k-1], p[k-1+1]);
    if k <= d {
      PrefixLevelled(q, lev, d, p, k - 1);
    }
  }

  /** An exhausted frontier leaves nothing to find at any depth. */
  lemma ExhaustedIsComplete(q: Query, parent: Parents, lev: Levels, d: nat, d': nat)
    requires Searching(q, parent, lev, [], d)
    ensures Complete(q, lev, d')
  {
    hide Excluded, Joined, Tree;
    forall u | u in lev && q.Open(u)
      ensures lev[u] < d
    {
      assert u !in [];
    }
  }

  // ------------------------------------------------------ one layer

  /** graphPathRecordFrontier: first-wins parent pointers for the unseen neighbours. */
  method RecordFrontier(hops: seq<Hop>, parent: Parents) returns (parent': Parents, next: set<string>)
    ensures parent'.Keys == parent.Keys + next && next !! parent.Keys
    ensures forall v :: v in parent ==> parent'[v] == parent[v]
    ensures forall h :: h in hops ==> h.neighbour in parent'
    ensures forall v :: v in next ==> exists h :: h in hops && h.neighbour == v && parent'[v] == EdgeOf(h)
  {
    parent', next := parent, {};
    for i := 0 to |hops|
      invariant parent'.Keys == parent.Keys + next && next !! parent.Keys
      invariant forall v :: v in parent ==> parent'[v] == parent[v]
      invariant forall j :: 0 <= j < i ==> hops[j].neighbour in parent'
      invariant forall v :: v in next ==> exists h :: h in hops && h.neighbour == v && parent'[v] == EdgeOf(h)
    {
      var nb := hops[i].neighbour;
      if nb !in parent' {
        parent', next := parent'[nb := EdgeOf(hops[i])], next + {nb};
      }
    }
  }

  /** A node the search drops again: missing, or excluded. */
  predicate Dropped(q: Query, id: string) {
    id !in q.g.nodes || Excluded(q.filter, q.g.nodes[id])
  }

  /** The filtering half of graphPathExpandStep, up to the goal if it is met. */
  method FilterLayer(q: Query, ids: seq<string>, parent: Parents) returns (parent': Parents, nextIds: seq<string>, hit: bool)
    requires q.Valid() && Lex.Increasing(ids) && forall v :: v in ids ==> v in parent
    ensures hit <==> q.to in ids
    ensures parent'.Keys <= parent.Keys && forall v :: v in parent' ==> parent'[v] == parent[v]
    ensures forall v :: v in parent && (v !in ids || v == q.to) ==> v in parent'
    ensures !hit ==> forall v :: v in ids ==> (v in parent' <==> !Dropped(q, v))
    ensures !hit ==> forall v :: v in nextIds <==> v in ids && Passable(q.g, q.filter, v)
  {
    hide Excluded;
    parent', nextIds, hit := parent, [], false;
    for i := 0 to |ids|
      invariant parent'.Keys <= parent.Keys && forall v :: v in parent' ==> parent'[v] == parent[v]
      invariant forall v :: v in parent && (v !in ids[..i] || v == q.to) ==> v in parent'
      invariant q.to !in ids[..i]
      invariant forall v :: v in ids[..i] ==> (v in parent' <==> !Dropped(q, v))
      invariant forall v :: v in nextIds <==> v in ids[..i] && Passable(q.g, q.filter, v)
    {
      var id := ids[i];
      assert ids[..i+1] == ids[..i] + [id];
      NotSeenBefore(ids, i);
      if id in q.g.nodes && id == q.to {
        hit := true;
        return;
      }
      var dropped := true;
      if id in q.g.nodes {
        dropped := IsExcluded(q.filter, q.g.nodes[id]);
      }
      if dropped {
        parent' := parent' - {id};
      } else if q.filter.includeManaged || !q.g.nodes[id].managed {
        nextIds := nextIds + [id];
      }
    }
    assert ids[..|ids|] == ids;
  }

  lemma NotSeenBefore(ids: seq<string>, i: nat)
    requires Lex.Increasing(ids) && i < |ids|
    ensures ids[i] !in ids[..i]
  {
    forall j | 0 <= j < i ensures ids[j] != ids[i] {
      Lex.Irreflexive(ids[i]);
    }
  }

  ghost function Deepen(lev: Levels, kept: set<string>, d: nat): Levels {
    map v | v in lev.Keys + kept :: if v in lev then lev[v] else d
  }

  /** The new parent pointers come from edges of the frontier. */
  ghost predicate Recorded(q: Query, frontier: seq<string>, parent: Parents, next: set<string>, parent': Parents) {
    && parent'.Keys == parent.Keys + next && next !! parent.Keys
    && (forall v :: v in parent ==> parent'[v] == parent[v])
    && (forall v :: v in next ==> parent'[v].parent in frontier && PointsBack(q, parent'[v], parent'[v].parent, v))
    && (forall u, v :: u in frontier && q.Step(u, v) ==> v in parent')
  }

  lemma HopsRecorded(q: Query, frontier: seq<string>, hops: seq<Hop>, parent: Parents, next: set<string>, parent': Parents)
    requires q.Valid() && hops == Hops(q.g.rels, frontier, q.dir, q.kinds)
    requires parent'.Keys == parent.Keys + next && next !! parent.Keys
    requires forall v :: v in parent ==> parent'[v] == parent[v]
    requires forall h :: h in hops ==> h.neighbour in parent'
    requires forall v :: v in next ==> exists h :: h in hops && h.neighbour == v && parent'[v] == EdgeOf(h)
    ensures Recorded(q, frontier, parent, next, parent')
  {
    forall v | v in next
      ensures parent'[v].parent in frontier && PointsBack(q, parent'[v], parent'[v].parent, v)
    {
      var h :| h in hops && h.neighbour == v && parent'[v] == EdgeOf(h);
      HopsExact(q.g.rels, frontier, q.dir, q.kinds, h);
      assert HopIs(q.g.rels, q.dir, q.kinds, h.origin, v, h.rel);
    }
    forall u, v | u in frontier && q.Step(u, v)
      ensures v in parent'
    {
      var r :| HopIs(q.g.rels, q.dir, q.kinds, u, v, r);
      HopsExact(q.g.rels, frontier, q.dir, q.kinds, Hop(u, r, v));
    }
  }

  /** A node kept from the layer hangs from the frontier. */
  lemma KeptHangs(q: Query, frontier: seq<string>, parent: Parents, lev: Levels, next: set<string>, parent': Parents,
                  d: nat, kept: set<string>, parent'': Parents, v: string)
    requires FrontierIs(q, lev, frontier, d) && parent.Keys == lev.Keys
    requires Recorded(q, frontier, parent, next, parent')
    requires kept <= next && v in kept && v in q.g.nodes
    requires v in parent'' && parent''[v] == parent'[v]
    ensures v !in lev && Hangs(q, parent'', Deepen(lev, kept, d + 1), v)
  {
    hide PointsBack, Query.Open;
    assert v in next;
    assert parent''[v].parent in frontier;
  }

  lemma OldHangs(q: Query, parent: Parents, lev: Levels, d: nat, kept: set<string>, parent'': Parents, v: string)
    requires Tree(q, parent, lev) && v in lev && v != q.from
    requires v in parent'' && parent''[v] == parent[v]
    ensures Hangs(q, parent'', Deepen(lev, kept, d + 1), v)
  {
    hide PointsBack, Query.Open;
  }

  /** Hanging levelled nodes one level below the frontier keeps the tree. */
  lemma TreeGrows(q: Query, frontier: seq<string>, parent: Parents, lev: Levels, next: set<string>, parent': Parents,
                  d: nat, kept: set<string>, parent'': Parents)
    requires Tree(q, parent, lev) && FrontierIs(q, lev, frontier, d) && parent.Keys == lev.Keys
    requires Recorded(q, frontier, parent, next, parent')
    requires kept <= next && forall v :: v in kept ==> v in q.g.nodes
    requires forall v :: v in lev.Keys + kept ==> v in parent'' && parent''[v] == parent'[v]
    ensures Tree(q, parent'', Deepen(lev, kept, d + 1))
  {
    hide FrontierIs, Query.Open, PointsBack;
    var lev' := Deepen(lev, kept, d + 1);
    forall v | v in lev' && v != q.from ensures v in parent'' && Hangs(q, parent'', lev', v) {
      if v in lev {
        OldHangs(q, parent, lev, d, kept, parent'', v);
      } else {
        KeptHangs(q, frontier, parent, lev, next, parent', d, kept, parent'', v);
      }
    }
  }

  lemma CompleteGrows(q: Query, frontier: seq<string>, parent: Parents, lev: Levels, next: set<string>, parent': Parents,
                      d: nat, kept: set<string>)
    requires q.Valid() && Complete(q, lev, d) && FrontierIs(q, lev, frontier, d) && parent.Keys == lev.Keys
    requires Within(lev, d) && q.to !in next && q.to !in lev
    requires Recorded(q, frontier, parent, next, parent')
    requires forall v :: v in kept <==> v in next && !Dropped(q, v)
    ensures Complete(q, Deepen(lev, kept, d + 1), d + 1)
  {
    hide PointsBack, Joined, Excluded;
    var lev' := Deepen(lev, kept, d + 1);
    forall u, v | u in lev' && lev'[u] < d + 1 && q.Open(u) && q.Step(u, v) && v in q.g.nodes
      ensures (v in lev' && lev'[v] <= lev'[u] + 1) || (Excluded(q.filter, q.g.nodes[v]) && v != q.to)
    {
      assert u in lev;
      if lev[u] == d {
        assert u in frontier;
        assert v in parent';
      }
    }
  }

  lemma FrontierGrows(q: Query, lev: Levels, d: nat, next: set<string>, kept: set<string>, nextIds: seq<string>)
    requires Within(lev, d) && q.from in lev && next !! lev.Keys
    requires forall v :: v in kept <==> v in next && !Dropped(q, v)
    requires forall v :: v in nextIds <==> v in next && Passable(q.g, q.filter, v)
    ensures FrontierIs(q, Deepen(lev, kept, d + 1), nextIds, d + 1)
    ensures Within(Deepen(lev, kept, d + 1), d + 1)
  {
    hide Excluded;
  }

  /** What one layer leaves when the goal was not met. */
  lemma LayerDone(q: Query, frontier: seq<string>, parent: Parents, lev: Levels, d: nat,
                  next: set<string>, recorded: Parents, kept: set<string>, parent': Parents, nextIds: seq<string>)
    requires q.Valid() && Searching(q, parent, lev, frontier, d) && Recorded(q, frontier, parent, next, recorded)
    requires q.to !in next && forall v :: v in kept <==> v in next && !Dropped(q, v)
    requires parent'.Keys == parent.Keys + kept && forall v :: v in parent' ==> v in recorded && parent'[v] == recorded[v]
    requires forall v :: v in nextIds <==> v in next && Passable(q.g, q.filter, v)
    ensures Searching(q, parent', Deepen(lev, kept, d + 1), nextIds, d + 1)
  {
    hide Tree, Complete, FrontierIs, Excluded, Passable, Within;
    assert next !! parent.Keys;
    TreeGrows(q, frontier, parent, lev, next, recorded, d, kept, parent');
    CompleteGrows(q, frontier, parent, lev, next, recorded, d, kept);
    StartLevelled(q, parent, lev);
    FrontierGrows(q, lev, d, next, kept, nextIds);
  }

  /** What one layer leaves when it met the goal. */
  lemma LayerHit(q: Query, frontier: seq<string>, parent: Parents, lev: Levels, d: nat,
                 next: set<string>, recorded: Parents, parent': Parents)
    requires q.Valid() && Searching(q, parent, lev, frontier, d) && Recorded(q, frontier, parent, next, recorded)
    requires q.to in next && parent'.Keys >= parent.Keys + {q.to}
    requires forall v :: v in parent' ==> v in recorded && parent'[v] == recorded[v]
    ensures Tree(q, parent', Deepen(lev, {q.to}, d + 1))
    ensures q.to in Deepen(lev, {q.to}, d + 1) && Deepen(lev, {q.to}, d + 1)[q.to] == d + 1
  {
    hide Tree, Complete, FrontierIs, Within;
    TreeGrows(q, frontier, parent, lev, next, recorded, d, {q.to}, parent');
  }

  /** One layer of the search: either the goal hangs in the tree one level below the
      frontier, or the search stands one level deeper. */
  method ExpandStep(q: Query, frontier: seq<string>, parent: Parents, ghost lev: Levels, ghost d: nat)
    returns (parent': Parents, nextIds: seq<string>, hit: bool, ghost lev': Levels)
    requires q.Valid() && Searching(q, parent, lev, frontier, d)
    ensures hit ==> Tree(q, parent', lev') && q.to in lev' && lev'[q.to] == d + 1
    ensures !hit ==> Searching(q, parent', lev', nextIds, d + 1)
  {
    hide *;
    SearchingKeys(q, parent, lev, frontier, d);
    ValidKeys(q);
    var hops := FrontierHops(q.g.rels, frontier, q.dir, q.kinds, REL_ID_BATCH_SIZE);
    var recorded, next := RecordFrontier(hops, parent);
    HopsRecorded(q, frontier, hops, parent, next, recorded);
    var ids := Lex.SortedSet(next);
    parent', nextIds, hit := FilterLayer(q, ids, recorded);
    if hit {
      lev' := Deepen(lev, {q.to}, d + 1);
      LayerHit(q, frontier, parent, lev, d, next, recorded, parent');
    } else {
      lev' := Deepen(lev, Kept(q, next), d + 1);
      LayerFiltered(q, frontier, parent, lev, d, next, recorded, ids, parent', nextIds);
    }
  }

  function Kept(q: Query, next: set<string>): set<string> {
    set v | v in next && !Dropped(q, v)
  }

  lemma LayerFiltered(q: Query, frontier: seq<string>, parent: Parents, lev: Levels, d: nat, next: set<string>,
                      recorded: Parents, ids: seq<string>, parent': Parents, nextIds: seq<string>)
    requires q.Valid() && Searching(q, parent, lev, frontier, d) && Recorded(q, frontier, parent, next, recorded)
    requires recorded.Keys == parent.Keys + next && next !! parent.Keys
    requires q.to !in ids && forall v :: v in ids <==> v in next
    requires parent'.Keys <= recorded.Keys && forall v :: v in parent' ==> parent'[v] == recorded[v]
    requires forall v :: v in recorded && v !in ids ==> v in parent'
    requires forall v :: v in ids ==> (v in parent' <==> !Dropped(q, v))
    requires forall v :: v in nextIds <==> v in ids && Passable(q.g, q.filter, v)
    ensures Searching(q, parent', Deepen(lev, Kept(q, next), d + 1), nextIds, d + 1)
  {
    hide Searching, Recorded, Dropped, Passable, Query.Valid;
    var kept := Kept(q, next);
    KeptKeys(q, parent, next, recorded, ids, parent', kept);
    LayerDone(q, frontier, parent, lev, d, next, recorded, kept, parent', nextIds);
  }

  lemma ValidKeys(q: Query)
    requires q.Valid()
    ensures UniqueKeys(q.g.rels) && REL_ID_BATCH_SIZE > 0
  {
  }

  lemma KeptKeys(q: Query, parent: Parents, next: set<string>, recorded: Parents, ids: seq<string>, parent': Parents, kept: set<string>)
    requires recorded.Keys == parent.Keys + next && next !! parent.Keys
    requires parent'.Keys <= recorded.Keys && forall v :: v in ids <==> v in next
    requires forall v :: v in recorded && v !in ids ==> v in parent'
    requires forall v :: v in ids ==> (v in parent' <==> !Dropped(q, v))
    requires forall v :: v in kept <==> v in next && !Dropped(q, v)
    ensures parent'.Keys == parent.Keys + kept
  {
    hide Dropped;
    forall v ensures v in parent'.Keys <==> v in parent.Keys + kept {
      assert v in recorded.Keys <==> v in parent.Keys || v in next;
    }
  }

  lemma SearchingKeys(q: Query, parent: Parents, lev: Levels, frontier: seq<string>, d: nat)
    requires Searching(q, parent, lev, frontier, d)
    ensures parent.Keys == lev.Keys && q.to !in lev
  {
  }

  lemma StartLevelled(q: Query, parent: Parents, lev: Levels)
    requires Tree(q, parent, lev)
    ensures q.from in lev && lev[q.from] == 0
  {
  }

  // ------------------------------------------------------ reading the path

  /** ids, read backwards from the goal, follow the parent pointers; cur is where the
      walk stands. */
  ghost predicate WalksBack(q: Query, parent: Parents, lev: Levels, ids: seq<string>, cur: string) {
    && cur in lev && (forall i :: 0 <= i < |ids| ==> ids[i] in lev && ids[i] != q.from && ids[i] in parent)
    && (forall i :: 0 <= i < |ids| - 1 ==> parent[ids[i]].parent == ids[i+1])
    && (if ids == [] then cur == q.to else ids[0] == q.to && parent[ids[|ids|-1]].parent == cur)
  }

  lemma WalkStarts(q: Query, parent: Parents, lev: Levels)
    requires q.to in lev
    ensures WalksBack(q, parent, lev, [], q.to)
  {
  }

  lemma WalkStep(q: Query, parent: Parents, lev: Levels, ids: seq<string>, cur: string)
    requires Tree(q, parent, lev) && WalksBack(q, parent, lev, ids, cur) && cur in lev && cur != q.from
    ensures cur in parent && parent[cur].parent in lev && lev[cur] == lev[parent[cur].parent] + 1
    ensures WalksBack(q, parent, lev, ids + [cur], parent[cur].parent)
  {
    hide PointsBack, Passable;
  }

  /** The backward walk of reconstructPath. It terminates because levels decrease. */
  method WalkBack(q: Query, parent: Parents, ghost lev: Levels) returns (ids: seq<string>, edges: seq<GraphEdge>)
    requires Tree(q, parent, lev) && q.to in lev
    ensures WalksBack(q, parent, lev, ids, q.from) && |ids| == lev[q.to] == |edges|
    ensures forall i :: 0 <= i < |ids| ==>
      edges[i] == GraphEdge(parent[ids[i]].from, parent[ids[i]].to, parent[ids[i]].kind)
  {
    hide Tree, WalksBack;
    ids, edges := [], [];
    var cur := q.to;
    WalkStarts(q, parent, lev);
    StartLevelled(q, parent, lev);
    while cur != q.from
      invariant cur in lev && forall i :: 0 <= i < |ids| ==> ids[i] in parent
      invariant WalksBack(q, parent, lev, ids, cur)
      invariant |ids| == |edges| && |ids| + lev[cur] == lev[q.to]
      invariant forall i :: 0 <= i < |ids| ==>
        edges[i] == GraphEdge(parent[ids[i]].from, parent[ids[i]].to, parent[ids[i]].kind)
      decreases lev[cur]
    {
      WalkStep(q, parent, lev, ids, cur);
      var p := parent[cur];
      ids, edges := ids + [cur], edges + [GraphEdge(p.from, p.to, p.kind)];
      cur := p.parent;
    }
  }

  function Reversed<T>(s: seq<T>): seq<T> {
    seq(|s|, i requires 0 <= i < |s| => s[|s| - 1 - i])
  }

  /** The reversal loop, swapping from both ends. */
  method Reverse<T>(s: seq<T>) returns (r: seq<T>)
    ensures r == Reversed(s)
  {
    r := s;
    var i, j := 0, |s| - 1;
    while i < j
      invariant 0 <= i && j == |s| - 1 - i && i <= j + 1 && |r| == |s|
      invariant forall k :: 0 <= k < i ==> r[k] == s[|s|-1-k] && r[|s|-1-k] == s[k]
      invariant forall k :: i <= k <= j ==> r[k] == s[k]
    {
      r := r[i := r[j]][j := r[i]];
      i, j := i + 1, j - 1;
    }
    assert forall k :: 0 <= k < |s| ==> r[k] == s[|s|-1-k];
  }

  /** The forward list of ids spells an admissible path when it follows the tree. */
  lemma WalkIsAdmissible(q: Query, parent: Parents, lev: Levels, ids: seq<string>)
    requires q.Valid() && Tree(q, parent, lev) && WalksBack(q, parent, lev, ids, q.from) && ids != []
    ensures Admissible(q, [q.from] + Reversed(ids))
    ensures forall i :: 0 <= i < |ids| ==> PointsBack(q, parent[ids[i]], parent[ids[i]].parent, ids[i])
  {
    hide Joined, Excluded, EdgeJoins;
    var p := [q.from] + Reversed(ids);
    forall i | 0 <= i < |p| - 1
      ensures q.Step(p[i], p[i+1])
    {
      var b := |ids| - 1 - i;
      assert p[i+1] == ids[b];
      assert p[i] == parent[ids[b]].parent;
      JoinedByEdge(q, parent[ids[b]], p[i], p[i+1]);
    }
    forall i | 1 <= i < |p| - 1
      ensures Passable(q.g, q.filter, p[i])
    {
      var b := |ids| - i;
      assert p[i] == ids[b] && parent[ids[b-1]].parent == ids[b];
      assert q.Open(p[i]);
    }
  }

  lemma JoinedByEdge(q: Query, e: BfsEdge, u: string, v: string)
    requires PointsBack(q, e, u, v)
    ensures q.Step(u, v)
  {
  }

  /** The result's node list: the start, then the ids in order, depths counting up. */
  method BuildNodes(g: Graph, from: string, ids: seq<string>) returns (nodes: seq<GraphNode>)
    requires from in g.nodes && forall id :: id in ids ==> id in g.nodes
    ensures |nodes| == |ids| + 1
    ensures nodes[0] == GraphNode(g.nodes[from], 0)
    ensures forall i :: 0 <= i < |ids| ==> nodes[i+1] == GraphNode(g.nodes[ids[i]], i + 1)
  {
    nodes := [GraphNode(g.nodes[from], 0)];
    for i := 0 to |ids|
      invariant |nodes| == i + 1 && nodes[0] == GraphNode(g.nodes[from], 0)
      invariant forall j :: 0 <= j < i ==> nodes[j+1] == GraphNode(g.nodes[ids[j]], j + 1)
    {
      nodes := nodes + [GraphNode(g.nodes[ids[i]], i + 1)];
    }
  }

  lemma NodesSpellPath(q: Query, ids: seq<string>, nodes: seq<GraphNode>)
    requires q.Valid() && |nodes| == |ids| + 1 && nodes[0] == GraphNode(q.g.nodes[q.from], 0)
    requires forall id :: id in ids ==> id in q.g.nodes
    requires forall i :: 0 <= i < |ids| ==> nodes[i+1] == GraphNode(q.g.nodes[ids[i]], i + 1)
    ensures Ids(nodes) == [q.from] + ids
    ensures forall i :: 0 <= i < |nodes| ==> nodes[i].depth == i && IsNode(q.g, nodes[i].resource)
  {
    forall i | 0 <= i < |nodes|
      ensures nodes[i].depth == i && IsNode(q.g, nodes[i].resource) && Ids(nodes)[i] == ([q.from] + ids)[i]
    {
      if i > 0 {
        assert nodes[i-1+1] == GraphNode(q.g.nodes[ids[i-1]], i);
        assert ids[i-1] in ids;
      }
    }
  }

  lemma EdgesSpellPath(q: Query, parent: Parents, lev: Levels, backIds: seq<string>, backEdges: seq<GraphEdge>,
                       nodes: seq<GraphNode>)
    requires q.Valid() && Tree(q, parent, lev) && WalksBack(q, parent, lev, backIds, q.from) && backIds != []
    requires |backEdges| == |backIds| && forall i :: 0 <= i < |backIds| ==>
      backEdges[i] == GraphEdge(parent[backIds[i]].from, parent[backIds[i]].to, parent[backIds[i]].kind)
    requires |nodes| == |backIds| + 1 && Ids(nodes) == [q.from] + Reversed(backIds)
    ensures forall i :: 0 <= i < |backEdges| ==>
      EdgeJoins(q.g.rels, q.dir, q.kinds, nodes[i].resource.id, nodes[i+1].resource.id, Reversed(backEdges)[i])
  {
    WalkIsAdmissible(q, parent, lev, backIds);
    hide Tree, Joined, Excluded, EdgeJoins, Admissible;
    forall i | 0 <= i < |backEdges|
      ensures EdgeJoins(q.g.rels, q.dir, q.kinds, nodes[i].resource.id, nodes[i+1].resource.id, Reversed(backEdges)[i])
    {
      EdgeSpellsStep(q, parent, lev, backIds, backEdges, nodes, i);
    }
  }

  lemma EdgeSpellsStep(q: Query, parent: Parents, lev: Levels, backIds: seq<string>, backEdges: seq<GraphEdge>,
                       nodes: seq<GraphNode>, i: nat)
    requires q.Valid() && Tree(q, parent, lev) && WalksBack(q, parent, lev, backIds, q.from) && backIds != []
    requires |backEdges| == |backIds| && i < |backIds|
    requires var b := |backIds| - 1 - i;
      backEdges[b] == GraphEdge(parent[backIds[b]].from, parent[backIds[b]].to, parent[backIds[b]].kind)
    requires |nodes| == |backIds| + 1 && Ids(nodes) == [q.from] + Reversed(backIds)
    ensures EdgeJoins(q.g.rels, q.dir, q.kinds, nodes[i].resource.id, nodes[i+1].resource.id, Reversed(backEdges)[i])
  {
    WalkIsAdmissible(q, parent, lev, backIds);
    PathStep(q, parent, lev, backIds, nodes, i);
    hide Tree, WalksBack, Ids, Joined, Excluded, EdgeJoins, Admissible;
    var b := |backIds| - 1 - i;
    assert PointsBack(q, parent[backIds[b]], parent[backIds[b]].parent, backIds[b]);
  }

  /** Two neighbours on the path are a node's parent and the node. */
  lemma PathStep(q: Query, parent: Parents, lev: Levels, backIds: seq<string>, nodes: seq<GraphNode>, i: nat)
    requires WalksBack(q, parent, lev, backIds, q.from) && i < |backIds|
    requires |nodes| == |backIds| + 1 && Ids(nodes) == [q.from] + Reversed(backIds)
    ensures var v := backIds[|backIds| - 1 - i];
      v in parent && nodes[i+1].resource.id == v && nodes[i].resource.id == parent[v].parent
  {
    var b := |backIds| - 1 - i;
    assert Ids(nodes)[i+1] == Reversed(backIds)[i] == backIds[b];
    assert Ids(nodes)[i] == if i == 0 then q.from else Reversed(backIds)[i-1];
  }

  /** reconstructPath: nodes and edges in forward order. */
  method ReconstructPath(q: Query, parent: Parents, ghost lev: Levels) returns (r: PathResult)
    requires q.Valid() && Tree(q, parent, lev) && q.to in lev
    ensures r.Found? && IsRoute(q, r.nodes, r.edges) && |r.edges| == lev[q.to]
  {
    hide Tree, Joined, Excluded, EdgeJoins, PointsBack, Passable;
    var backIds, backEdges := WalkBack(q, parent, lev);
    var ids := Reverse(backIds);
    var edges := Reverse(backEdges);
    assert backIds != [];
    WalkIsAdmissible(q, parent, lev, backIds);
    assert forall i :: 0 <= i < |ids| ==> ids[i] == ([q.from] + ids)[i+1];
    hide Admissible;
    var nodes := BuildNodes(q.g, q.from, ids);
    NodesSpellPath(q, ids, nodes);
    EdgesSpellPath(q, parent, lev, backIds, backEdges, nodes);
    r := Found(nodes, edges);
  }

  // ------------------------------------------------------ the whole search

  lemma SearchStarts(q: Query)
    requires q.Valid()
    ensures Searching(q, map[q.from := BfsEdge("", "", "", "")], map[q.from := 0], [q.from], 0)
  {
  }

  /** The breadth-first loop over at most limit layers. */
  method Search(q: Query, limit: nat) returns (r: PathResult)
    requires q.Valid()
    ensures r.Found? || r.NoPath?
    ensures r.Found? ==> IsRoute(q, r.nodes, r.edges) && |r.edges| <= limit
    ensures r.Found? ==> forall p :: Admissible(q, p) ==> |r.edges| <= |p| - 1
    ensures r.NoPath? ==> forall p :: Admissible(q, p) ==> |p| - 1 > limit
  {
    hide Tree, Complete, FrontierIs, Admissible, IsRoute;
    var parent: Parents := map[q.from := BfsEdge("", "", "", "")];
    ghost var lev: Levels := map[q.from := 0];
    var frontier := [q.from];
    SearchStarts(q);
    var depth := 0;
    while depth < limit && frontier != []
      invariant depth <= limit && Searching(q, parent, lev, frontier, depth)
    {
      StartLevelled(q, parent, lev);
      var parent', nextIds, hit;
      ghost var lev';
      parent', nextIds, hit, lev' := ExpandStep(q, frontier, parent, lev, depth);
      if hit {
        forall p | Admissible(q, p) ensures depth + 1 <= |p| - 1 {
          PathsAreLonger(q, lev, depth, p);
        }
        r := ReconstructPath(q, parent', lev');
        return;
      }
      parent, frontier, lev, depth := parent', nextIds, lev', depth + 1;
    }
    StartLevelled(q, parent, lev);
    forall p | Admissible(q, p)
      ensures |p| - 1 > limit
    {
      if frontier == [] {
        ExhaustedIsComplete(q, parent, lev, depth, limit);
      }
      PathsAreLonger(q, lev, limit, p);
    }
    r := NoPath;
  }

  /** What the caller is told, in terms of the options: the source's errors, and else a
      shortest path of at most MaxDepth edges, or of 64 where MaxDepth is not between 1
      and 64, or that every path is longer. */
  ghost predicate Answers(g: Graph, from: string, to: string, opts: PathOpts, r: PathResult) {
    if from !in g.nodes then r == NotFound(from)
    else if from == to then r == Found([GraphNode(g.nodes[from], 0)], [])
    else if to !in g.nodes then r == NotFound(to)
    else if opts.direction !in {"out", "in", "both", ""} then r == BadDirection
    else if 0 < opts.maxDepth <= 64 then Shortest(g, from, to, opts, opts.maxDepth, r)
    else Shortest(g, from, to, opts, 64, r)
  }

  ghost predicate Shortest(g: Graph, from: string, to: string, opts: PathOpts, most: int, r: PathResult) {
    match r
    case NoPath => forall p :: PathOf(g, from, to, opts, p) ==> |p| - 1 > most
    case Found(nodes, edges) =>
      && Spells(g, from, to, opts, nodes, edges) && |edges| <= most
      && forall p :: PathOf(g, from, to, opts, p) ==> |edges| <= |p| - 1
    case _ => false
  }

  /** GraphPath: a shortest admissible path, or ErrNoPath exactly when there is none of
      length at most the depth limit. */
  method GraphPath(g: Graph, from: string, to: string, opts: PathOpts) returns (r: PathResult)
    requires g.Valid()
    ensures r.NotFound? <==> from !in g.nodes || to !in g.nodes
    ensures r.BadDirection? <==> !r.NotFound? && from != to && ParseDirection(opts.direction).None?
    ensures from == to && from in g.nodes ==> r == Found([GraphNode(g.nodes[from], 0)], [])
    ensures from in g.nodes && to in g.nodes && from != to && ParseDirection(opts.direction).Some? ==>
      var q := Query(g, ParseDirection(opts.direction).value, opts.kinds, opts.filter, from, to);
      var limit := DepthLimit(opts.maxDepth);
      && (r.NoPath? <==> forall p :: Admissible(q, p) ==> |p| - 1 > limit)
      && (r.Found? ==> IsRoute(q, r.nodes, r.edges) && |r.edges| <= limit &&
                       forall p :: Admissible(q, p) ==> |r.edges| <= |p| - 1)
    ensures Answers(g, from, to, opts, r)
  {
    hide Admissible, Answers, IsRoute;
    AnswersEarly(g, from, to, opts);
    if from !in g.nodes {
      return NotFound(from);
    }
    if from == to {
      return Found([GraphNode(g.nodes[from], 0)], []);
    }
    if to !in g.nodes {
      return NotFound(to);
    }
    var dir := ParseDirection(opts.direction);
    if dir.None? {
      return BadDirection;
    }
    var q := Query(g, dir.value, opts.kinds, opts.filter, from, to);
    r := Search(q, DepthLimit(opts.maxDepth));
    RouteSpells(q, r);
    AnswersFrom(g, from, to, opts, r);
  }

  lemma RouteSpells(q: Query, r: PathResult)
    ensures r.Found? && IsRoute(q, r.nodes, r.edges) ==> Admissible(q, Ids(r.nodes)) && |Ids(r.nodes)| == |r.edges| + 1
  {
    hide Admissible, EdgeJoins;
  }

  lemma AnswersEarly(g: Graph, from: string, to: string, opts: PathOpts)
    ensures from !in g.nodes ==> Answers(g, from, to, opts, NotFound(from))
    ensures from in g.nodes && from == to ==> Answers(g, from, to, opts, Found([GraphNode(g.nodes[from], 0)], []))
    ensures from in g.nodes && to !in g.nodes ==> Answers(g, from, to, opts, NotFound(to))
    ensures from in g.nodes && to in g.nodes && from != to && ParseDirection(opts.direction).None? ==> Answers(g, from, to, opts, BadDirection)
  {
    DirectionsExact(opts.direction);
    hide ParseDirection, Shortest;
  }

  lemma AnswersFrom(g: Graph, from: string, to: string, opts: PathOpts, r: PathResult)
    requires from in g.nodes && to in g.nodes && from != to && ParseDirection(opts.direction).Some?
    requires r.NoPath? || r.Found?
    requires var q, limit := QueryOf(g, from, to, opts), DepthLimit(opts.maxDepth);
      && (r.NoPath? ==> forall p :: Admissible(q, p) ==> |p| - 1 > limit)
      && (r.Found? ==> IsRoute(q, r.nodes, r.edges) && |r.edges| <= limit && forall p :: Admissible(q, p) ==> |r.edges| <= |p| - 1)
    ensures Answers(g, from, to, opts, r)
  {
    DirectionsExact(opts.direction);
    forall p ensures Admissible(QueryOf(g, from, to, opts), p) <==> PathOf(g, from, to, opts, p) {
      AdmissibleExact(g, from, to, opts, p);
    }
    if r.Found? {
      RouteExact(g, from, to, opts, r.nodes, r.edges);
    }
    hide ParseDirection, Admissible, PathOf, Spells, IsRoute;
  }
}
