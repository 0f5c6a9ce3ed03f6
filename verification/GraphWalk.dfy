/** store/graph.go: GraphWalk, the bounded breadth-first walk from a seed. */
module GraphWalk {
  import opened Wrappers
  import opened EdgeReads
  import opened Graph
  import Bars
  import opened Firsts
  import Lex
  import Sorting

  datatype WalkOpts = WalkOpts(
    maxDepth: int, kinds: seq<string>, direction: string, filter: Filter, maxNodes: int, maxEdges: int)

  datatype WalkResult =
    | Walked(nodes: seq<GraphNode>, edges: seq<GraphEdge>, truncatedNodes: nat, truncatedEdges: nat, excludedTypes: nat, excludedRegions: nat)
    | NotFound(id: string)
    | BadDirection
    | BadDepth

  /** A walk after its defaults; caps of 0 or less mean unlimited. */
  datatype Walk = Walk(
    g: Graph, dir: Direction, kinds: seq<string>, filter: Filter, seed: string, maxDepth: nat, maxNodes: int, maxEdges: int)
  {
    ghost predicate Valid() {
      g.Valid() && seed in g.nodes
    }

    ghost predicate Step(u: string, v: string) {
      Joined(g.rels, dir, kinds, u, v)
    }

    predicate Admits(v: string) {
      v != "" && v in g.nodes && !Excluded(filter, g.nodes[v])
    }

    /** Managed nodes are terminal unless included; the seed never is. */
    predicate Expands(u: string) {
      u == seed || (u in g.nodes && (filter.includeManaged || !g.nodes[u].managed))
    }

    /** An endpoint whose edges are dropped before they are recorded. */
    predicate Barred(v: string) {
      v != seed && v != "" && v in g.nodes && Excluded(filter, g.nodes[v])
    }
  }

  /** Admissible: consecutive nodes are joined, every node after the seed is admitted,
      and every node but the last is expanded. */
  ghost predicate Admissible(w: Walk, p: seq<string>) {
    && |p| >= 1 && p[0] == w.seed
    && (forall i :: 0 <= i < |p| - 1 ==> w.Step(p[i], p[i+1]) && w.Expands(p[i]))
    && (forall i :: 1 <= i < |p| ==> w.Admits(p[i]))
  }

  ghost predicate Reaches(w: Walk, p: seq<string>, v: string) {
    Admissible(w, p) && p[|p|-1] == v
  }

  /** d is the admissible distance of v from the seed. */
  ghost predicate IsDistance(w: Walk, v: string, d: nat) {
    && (exists p :: Reaches(w, p, v) && |p| - 1 == d)
    && (forall p :: Reaches(w, p, v) ==> d <= |p| - 1)
  }

  type Levels = map<string, nat>

  // ------------------------------------------------------------- invariants

  ghost predicate Linked(w: Walk, visited: Levels, u: string, v: string) {
    u in visited && v in visited && visited[v] == visited[u] + 1 && w.Expands(u) && w.Step(u, v)
  }

  /** Every node but the seed was reached from an expanded node one level nearer. */
  ghost predicate Layered(w: Walk, visited: Levels)
  {
    && w.seed in visited && visited[w.seed] == 0
    && (forall v :: v in visited && v != w.seed ==> w.Admits(v) && visited[v] > 0)
    && (forall v :: v in visited && v != w.seed ==> exists u :: u in visited && Linked(w, visited, u, v))
  }

  ghost predicate Within(visited: Levels, d: nat) {
    forall v :: v in visited ==> visited[v] <= d
  }

  ghost predicate FrontierIs(w: Walk, visited: Levels, frontier: seq<string>, d: nat) {
    forall u :: u in frontier <==> u in visited && visited[u] == d && w.Expands(u)
  }

  /** Every admitted neighbour of an expanded node is there. */
  ghost predicate Complete(w: Walk, visited: Levels, d: nat) {
    forall u, v :: u in visited && visited[u] < d && w.Expands(u) && w.Step(u, v) && w.Admits(v) ==>
      v in visited && visited[v] <= visited[u] + 1
  }

  ghost predicate NodesMatch(w: Walk, visited: Levels, nodes: seq<GraphNode>) {
    && (forall i :: 0 <= i < |nodes| ==> IsEntry(w, visited, nodes[i]))
    && (forall i, j :: 0 <= i < j < |nodes| ==> nodes[i].resource.id != nodes[j].resource.id)
    && (forall v :: v in visited ==> exists i :: 0 <= i < |nodes| && nodes[i].resource.id == v)
  }

  predicate IsEntry(w: Walk, visited: Levels, n: GraphNode) {
    n.resource.id in w.g.nodes && w.g.nodes[n.resource.id] == n.resource
    && n.resource.id in visited && visited[n.resource.id] == n.depth
  }

  // ---------------------------------------------------------------- edges

  function EdgeKey(e: GraphEdge): string {
    Bars.Joined(e.from, e.kind, e.to)
  }

  function EdgeOf(h: Hop): GraphEdge {
    GraphEdge(h.rel.from, h.rel.to, h.rel.kind)
  }

  /** The edge was seen from an expanded node above depth d, towards a node that is not
      barred. */
  ghost predicate SeenEdge(w: Walk, visited: Levels, d: nat, e: GraphEdge) {
    exists u, v :: SeenFrom(w, visited, d, e, u, v)
  }

  ghost predicate SeenFrom(w: Walk, visited: Levels, d: nat, e: GraphEdge, u: string, v: string) {
    u in visited && visited[u] < d && w.Expands(u) && !w.Barred(v) && EdgeJoins(w.g.rels, w.dir, w.kinds, u, v, e)
  }

  ghost predicate KeysMatch(edges: seq<GraphEdge>, seen: set<string>) {
    && (forall i, j :: 0 <= i < j < |edges| ==> EdgeKey(edges[i]) != EdgeKey(edges[j]))
    && (forall k :: k in seen <==> exists i :: 0 <= i < |edges| && EdgeKey(edges[i]) == k)
  }

  ghost predicate EdgesSound(w: Walk, visited: Levels, d: nat, edges: seq<GraphEdge>) {
    forall i :: 0 <= i < |edges| ==> SeenEdge(w, visited, d, edges[i])
  }

  /** Every edge seen was recorded, itself or one with its key. */
  ghost predicate EdgesComplete(w: Walk, visited: Levels, d: nat, seen: set<string>) {
    forall e :: SeenEdge(w, visited, d, e) ==> EdgeKey(e) in seen
  }

  /** The state before the layer at depth d. */
  ghost predicate Walking(w: Walk, visited: Levels, frontier: seq<string>, d: nat) {
    Layered(w, visited) && Within(visited, d) && FrontierIs(w, visited, frontier, d)
  }

  // ------------------------------------------------------ the layer's loops

  /** collectFrontierEdges after its reads: the unvisited endpoints. */
  method CollectNext(hops: seq<Hop>, visited: Levels) returns (next: set<string>)
    ensures NextIs(hops, visited, next)
  {
    next := {};
    for i := 0 to |hops|
      invariant forall v :: v in next <==> v != "" && v !in visited && exists h :: h in hops[..i] && h.neighbour == v
    {
      assert hops[..i+1] == hops[..i] + [hops[i]];
      var id := hops[i].neighbour;
      if id != "" && id !in visited {
        next := next + {id};
      }
    }
    assert hops[..|hops|] == hops;
  }

  /** collectFrontierEdges: the hops of a frontier and where they lead. */
  method CollectFrontierEdges(w: Walk, frontier: seq<string>, visited: Levels) returns (hops: seq<Hop>, next: set<string>)
    requires w.Valid()
    ensures hops == Hops(w.g.rels, frontier, w.dir, w.kinds) && NextIs(hops, visited, next)
  {
    hops := FrontierHops(w.g.rels, frontier, w.dir, w.kinds, REL_ID_BATCH_SIZE);
    next := CollectNext(hops, visited);
  }

  predicate TypeBarred(w: Walk, v: string) {
    v in w.g.nodes && ExcludedType(w.filter, w.g.nodes[v])
  }

  /** The barred ids that a type pattern matches, or that none does. */
  function Tally(w: Walk, next: set<string>, byType: bool): set<string> {
    set v | v in next && w.Barred(v) && TypeBarred(w, v) == byType
  }

  /** classifyExcluded, in whatever order the new resources come; each exclusion is
      counted once, as a type if a pattern matches and as a region if none does. */
  method ClassifyExcluded(w: Walk, next: set<string>) returns (excluded: set<string>, types: nat, regions: nat)
    ensures excluded == set v | v in next && w.Barred(v)
    ensures types == |Tally(w, next, true)| && regions == |Tally(w, next, false)|
  {
    hide Walk.Barred, TypeBarred;
    excluded, types, regions := {}, 0, 0;
    ghost var byTypes, byRegions := {}, {};
    var todo := next;
    while todo != {}
      invariant todo <= next
      invariant forall v :: v in excluded <==> v in next && v !in todo && w.Barred(v)
      invariant forall v :: v in byTypes <==> v in next && v !in todo && w.Barred(v) && TypeBarred(w, v)
      invariant forall v :: v in byRegions <==> v in next && v !in todo && w.Barred(v) && !TypeBarred(w, v)
      invariant types == |byTypes| && regions == |byRegions|
    {
      var id :| id in todo;
      todo := todo - {id};
      var barred, byType := Classify(w, id);
      if barred {
        excluded := excluded + {id};
        if byType {
          types, byTypes := types + 1, byTypes + {id};
        } else {
          regions, byRegions := regions + 1, byRegions + {id};
        }
      }
    }
    assert byTypes == Tally(w, next, true) && byRegions == Tally(w, next, false);
  }

  method Classify(w: Walk, id: string) returns (barred: bool, byType: bool)
    ensures barred == w.Barred(id) && (barred ==> byType == TypeBarred(w, id))
  {
    barred, byType := false, false;
    if id in w.g.nodes && id != w.seed && id != "" {
      byType := MatchTypeGlob(w.filter.excludeTypes, w.g.nodes[id].typ);
      barred := IsExcluded(w.filter, w.g.nodes[id]);
    }
  }

  ghost predicate FromHop(hops: seq<Hop>, excluded: set<string>, e: GraphEdge) {
    exists h :: h in hops && e == EdgeOf(h) && h.rel.from !in excluded && h.rel.to !in excluded
  }

  predicate Offered(h: Hop, excluded: set<string>) {
    h.rel.from !in excluded && h.rel.to !in excluded
  }

  /** The edges of the hops that are offered, in the order of the hops. */
  function OfferedEdges(hops: seq<Hop>, excluded: set<string>): seq<GraphEdge> {
    if hops == [] then []
    else
      OfferedEdges(hops[..|hops|-1], excluded) +
      if Offered(hops[|hops|-1], excluded) then [EdgeOf(hops[|hops|-1])] else []
  }

  lemma {:induction false} OfferedExact(hops: seq<Hop>, excluded: set<string>, e: GraphEdge)
    ensures e in OfferedEdges(hops, excluded) <==> exists h :: h in hops && Offered(h, excluded) && e == EdgeOf(h)
  {
    if hops != [] {
      var init, last := hops[..|hops|-1], hops[|hops|-1];
      OfferedExact(init, excluded, e);
      assert hops == init + [last];
      assert forall h :: h in hops <==> h in init || h == last;
    }
  }

  /** The offered hops whose key is not recorded. */
  function Lost(hops: seq<Hop>, excluded: set<string>, seen: set<string>): nat {
    if hops == [] then 0
    else
      var h := hops[|hops|-1];
      Lost(hops[..|hops|-1], excluded, seen) + if Offered(h, excluded) && EdgeKey(EdgeOf(h)) !in seen then 1 else 0
  }

  lemma {:induction false} NoneLost(hops: seq<Hop>, excluded: set<string>, seen: set<string>)
    ensures Lost(hops, excluded, seen) == 0 <==>
      forall h :: h in hops && Offered(h, excluded) ==> EdgeKey(EdgeOf(h)) in seen
  {
    hide EdgeKey;
    if hops != [] {
      var init, last := hops[..|hops|-1], hops[|hops|-1];
      NoneLost(init, excluded, seen);
      assert hops == init + [last];
      assert forall h :: h in hops <==> h in init || h == last;
    }
  }

  /** The edge loop: excluded endpoints dropped, repeats dropped by key, then the cap. */
  method AdmitEdges(hops: seq<Hop>, excluded: set<string>, edges: seq<GraphEdge>, seen: set<string>, maxEdges: int,
                    ghost offered: seq<GraphEdge>)
    returns (edges': seq<GraphEdge>, seen': set<string>, truncated: nat)
    requires KeysMatch(edges, seen) && (maxEdges > 0 ==> |edges| <= maxEdges)
    requires edges == Cut(FirstsOf(EdgeKey, offered), maxEdges)
    ensures KeysMatch(edges', seen')
    ensures Reading(offered, hops, excluded, edges, seen, maxEdges, edges', seen', truncated)
  {
    edges', seen', truncated := edges, seen, 0;
    NoneRead(offered, edges, seen, excluded, maxEdges);
    for i := 0 to |hops|
      invariant KeysMatch(edges', seen')
      invariant Reading(offered, hops[..i], excluded, edges, seen, maxEdges, edges', seen', truncated)
    {
      hide *;
      var e := EdgeOf(hops[i]);
      assert hops[..i+1] == hops[..i] + [hops[i]];
      SeenKeys(edges', seen');
      if e.from in excluded || e.to in excluded {
        ReadsBarred(offered, hops[..i], hops[i], excluded, edges, seen, maxEdges, edges', seen', truncated);
      } else if EdgeKey(e) in seen' {
        ReadsAgain(offered, hops[..i], hops[i], excluded, edges, seen, maxEdges, edges', seen', truncated);
      } else if maxEdges > 0 && |edges'| >= maxEdges {
        ReadsTooMany(offered, hops[..i], hops[i], excluded, edges, seen, maxEdges, edges', seen', truncated);
        truncated := truncated + 1;
      } else {
        ReadsNew(offered, hops[..i], hops[i], excluded, edges, seen, maxEdges, edges', seen', truncated);
        KeysExtend(edges', seen', e);
        edges', seen' := edges' + [e], seen' + {EdgeKey(e)};
      }
    }
    assert hops[..|hops|] == hops;
  }

  /** What the hops read so far, after the edges offered before, have made of edges, keys
      and counter: the edges are the first ones offered under their keys, up to the cap. */
  ghost predicate Reading(offered: seq<GraphEdge>, hops: seq<Hop>, excluded: set<string>, edges: seq<GraphEdge>, seen: set<string>, maxEdges: int,
                          edges': seq<GraphEdge>, seen': set<string>, truncated: nat) {
    && edges <= edges' && seen <= seen' && (maxEdges > 0 ==> |edges'| <= maxEdges)
    && (forall k :: |edges| <= k < |edges'| ==> FromHop(hops, excluded, edges'[k]))
    && truncated == Lost(hops, excluded, seen')
    && (truncated > 0 ==> AtCap(maxEdges, |edges'|))
    && (AtCap(maxEdges, |edges|) ==> edges' == edges && seen' == seen)
    && edges' == Cut(FirstsOf(EdgeKey, offered + OfferedEdges(hops, excluded)), maxEdges)
    && (truncated == 0 && Whole(EdgeKey, offered, maxEdges) ==> Whole(EdgeKey, offered + OfferedEdges(hops, excluded), maxEdges))
  }

  lemma NoneRead(offered: seq<GraphEdge>, edges: seq<GraphEdge>, seen: set<string>, excluded: set<string>, maxEdges: int)
    requires (maxEdges > 0 ==> |edges| <= maxEdges) && edges == Cut(FirstsOf(EdgeKey, offered), maxEdges)
    ensures Reading(offered, [], excluded, edges, seen, maxEdges, edges, seen, 0)
  {
    hide EdgeKey;
    assert offered + [] == offered;
  }

  lemma HopsSnoc(hops: seq<Hop>, h: Hop, excluded: set<string>, seen: set<string>)
    ensures OfferedEdges(hops + [h], excluded) ==
      if Offered(h, excluded) then OfferedEdges(hops, excluded) + [EdgeOf(h)] else OfferedEdges(hops, excluded)
    ensures Lost(hops + [h], excluded, seen) == Lost(hops, excluded, seen) + if Offered(h, excluded) && EdgeKey(EdgeOf(h)) !in seen then 1 else 0
    ensures forall e :: FromHop(hops, excluded, e) ==> FromHop(hops + [h], excluded, e)
  {
    hide EdgeKey;
    assert (hops + [h])[..|hops|] == hops;
  }

  /** What one more offered hop makes of the recorded edges. */
  lemma OneOffer(offered: seq<GraphEdge>, hops: seq<Hop>, h: Hop, excluded: set<string>, maxEdges: int)
    requires Offered(h, excluded)
    ensures var all, e := offered + OfferedEdges(hops, excluded), EdgeOf(h);
      && offered + OfferedEdges(hops + [h], excluded) == all + [e]
      && var kept, more := Cut(FirstsOf(EdgeKey, all), maxEdges), Cut(FirstsOf(EdgeKey, all + [e]), maxEdges);
        && (Firsts.HasKey(EdgeKey, kept, EdgeKey(e)) ==> more == kept)
        && (!Firsts.HasKey(EdgeKey, kept, EdgeKey(e)) && maxEdges > 0 && |kept| >= maxEdges ==> more == kept)
        && (!Firsts.HasKey(EdgeKey, kept, EdgeKey(e)) && !(maxEdges > 0 && |kept| >= maxEdges) ==> more == kept + [e])
        && (Whole(EdgeKey, all, maxEdges) && (Firsts.HasKey(EdgeKey, kept, EdgeKey(e)) || !(maxEdges > 0 && |kept| >= maxEdges)) ==>
              Whole(EdgeKey, all + [e], maxEdges))
  {
    HopsSnoc(hops, h, excluded, {});
    hide EdgeKey, FirstsOf, Lost, OfferedEdges, FromHop, Firsts.HasKey, Cut, Whole;
    var all, e := offered + OfferedEdges(hops, excluded), EdgeOf(h);
    assert offered + (OfferedEdges(hops, excluded) + [e]) == all + [e];
    CutSnoc(EdgeKey, all, e, maxEdges);
    if Whole(EdgeKey, all, maxEdges) {
      WholeSnoc(EdgeKey, all, e, maxEdges);
    }
  }

  lemma ReadsBarred(offered: seq<GraphEdge>, hops: seq<Hop>, h: Hop, excluded: set<string>, edges: seq<GraphEdge>, seen: set<string>, maxEdges: int,
                    edges': seq<GraphEdge>, seen': set<string>, truncated: nat)
    requires Reading(offered, hops, excluded, edges, seen, maxEdges, edges', seen', truncated) && !Offered(h, excluded)
    ensures Reading(offered, hops + [h], excluded, edges, seen, maxEdges, edges', seen', truncated)
  {
    HopsSnoc(hops, h, excluded, seen');
    hide EdgeKey, FirstsOf, Whole, Cut, Lost, OfferedEdges, FromHop;
  }

  lemma ReadsAgain(offered: seq<GraphEdge>, hops: seq<Hop>, h: Hop, excluded: set<string>, edges: seq<GraphEdge>, seen: set<string>, maxEdges: int,
                   edges': seq<GraphEdge>, seen': set<string>, truncated: nat)
    requires Reading(offered, hops, excluded, edges, seen, maxEdges, edges', seen', truncated) && Offered(h, excluded)
    requires EdgeKey(EdgeOf(h)) in seen' && Firsts.HasKey(EdgeKey, edges', EdgeKey(EdgeOf(h)))
    ensures Reading(offered, hops + [h], excluded, edges, seen, maxEdges, edges', seen', truncated)
  {
    HopsSnoc(hops, h, excluded, seen');
    hide EdgeKey, FirstsOf, Whole, Lost, OfferedEdges, FromHop, Firsts.HasKey;
    OneOffer(offered, hops, h, excluded, maxEdges);
  }

  lemma ReadsTooMany(offered: seq<GraphEdge>, hops: seq<Hop>, h: Hop, excluded: set<string>, edges: seq<GraphEdge>, seen: set<string>, maxEdges: int,
                     edges': seq<GraphEdge>, seen': set<string>, truncated: nat)
    requires Reading(offered, hops, excluded, edges, seen, maxEdges, edges', seen', truncated) && Offered(h, excluded)
    requires EdgeKey(EdgeOf(h)) !in seen' && !Firsts.HasKey(EdgeKey, edges', EdgeKey(EdgeOf(h))) && maxEdges > 0 && |edges'| >= maxEdges
    ensures Reading(offered, hops + [h], excluded, edges, seen, maxEdges, edges', seen', truncated + 1)
  {
    HopsSnoc(hops, h, excluded, seen');
    hide EdgeKey, FirstsOf, Whole, Cut, Lost, OfferedEdges, FromHop;
    OneOffer(offered, hops, h, excluded, maxEdges);
  }

  lemma ReadsNew(offered: seq<GraphEdge>, hops: seq<Hop>, h: Hop, excluded: set<string>, edges: seq<GraphEdge>, seen: set<string>, maxEdges: int,
                 edges': seq<GraphEdge>, seen': set<string>, truncated: nat)
    requires Reading(offered, hops, excluded, edges, seen, maxEdges, edges', seen', truncated) && Offered(h, excluded)
    requires EdgeKey(EdgeOf(h)) !in seen' && !Firsts.HasKey(EdgeKey, edges', EdgeKey(EdgeOf(h)))
    requires !(maxEdges > 0 && |edges'| >= maxEdges)
    ensures Reading(offered, hops + [h], excluded, edges, seen, maxEdges, edges' + [EdgeOf(h)], seen' + {EdgeKey(EdgeOf(h))}, truncated)
  {
    var e := EdgeOf(h);
    HopsSnoc(hops, h, excluded, seen' + {EdgeKey(e)});
    NoneLost(hops, excluded, seen');
    NoneLost(hops, excluded, seen' + {EdgeKey(e)});
    assert FromHop(hops + [h], excluded, e) by {
      assert h in hops + [h];
    }
    hide EdgeKey, FirstsOf, Whole, Lost, OfferedEdges, FromHop, Firsts.HasKey;
    OneOffer(offered, hops, h, excluded, maxEdges);
  }

  lemma SeenKeys(edges: seq<GraphEdge>, seen: set<string>)
    requires KeysMatch(edges, seen)
    ensures forall k :: k in seen <==> Firsts.HasKey(EdgeKey, edges, k)
  {
    hide EdgeKey;
  }

  /** A cap of 0 or less is no cap. */
  predicate AtCap(max: int, n: nat) {
    max > 0 && n >= max
  }

  lemma KeysExtend(edges: seq<GraphEdge>, seen: set<string>, e: GraphEdge)
    requires KeysMatch(edges, seen) && EdgeKey(e) !in seen
    ensures KeysMatch(edges + [e], seen + {EdgeKey(e)})
  {
    hide EdgeKey;
    var more := edges + [e];
    forall k ensures k in seen + {EdgeKey(e)} <==> exists i :: 0 <= i < |more| && EdgeKey(more[i]) == k {
      if k in seen {
        var i :| 0 <= i < |edges| && EdgeKey(edges[i]) == k;
        assert EdgeKey(more[i]) == k;
      }
      assert EdgeKey(more[|edges|]) == EdgeKey(e);
      if i :| 0 <= i < |more| && EdgeKey(more[i]) == k {
        assert i < |edges| ==> EdgeKey(edges[i]) == k;
      }
    }
  }

  /** The ids of nodes to admit that were not. */
  function LostIds(w: Walk, ids: seq<string>, visited: Levels): nat {
    if ids == [] then 0
    else
      var id := ids[|ids|-1];
      LostIds(w, ids[..|ids|-1], visited) + if w.Admits(id) && id !in visited then 1 else 0
  }

  lemma {:induction false} NoIdsLost(w: Walk, ids: seq<string>, visited: Levels)
    ensures LostIds(w, ids, visited) == 0 <==> forall v :: v in ids && w.Admits(v) ==> v in visited
  {
    hide Excluded;
    if ids != [] {
      var init, last := ids[..|ids|-1], ids[|ids|-1];
      NoIdsLost(w, init, visited);
      assert ids == init + [last];
      assert forall v :: v in ids <==> v in init || v == last;
    }
  }

  ghost predicate MayAdmit(w: Walk, ids: seq<string>, excluded: set<string>, visited: Levels) {
    forall v :: v in ids ==> v != "" && v !in visited && v != w.seed && (v in excluded <==> w.Barred(v))
  }

  /** The node loop over the sorted new ids. */
  method AdmitNodes(w: Walk, ids: seq<string>, excluded: set<string>, visited: Levels, nodes: seq<GraphNode>, depth: nat)
    returns (visited': Levels, nodes': seq<GraphNode>, frontier: seq<string>, truncated: nat)
    requires w.Valid() && NodesMatch(w, visited, nodes) && Lex.Increasing(ids)
    requires MayAdmit(w, ids, excluded, visited)
    ensures NodesMatch(w, visited', nodes')
    ensures Admitting(w, ids, visited, nodes, depth, visited', nodes', frontier, truncated)
  {
    visited', nodes', frontier, truncated := visited, nodes, [], 0;
    for i := 0 to |ids|
      invariant NodesMatch(w, visited', nodes')
      invariant Admitting(w, ids[..i], visited, nodes, depth, visited', nodes', frontier, truncated)
    {
      hide *;
      var id := ids[i];
      NextId(w, ids, excluded, i);
      if id in w.g.nodes && id !in visited' && id !in excluded {
        if w.maxNodes > 0 && |nodes'| >= w.maxNodes {
          TruncatesOne(w, ids, i, visited, nodes, depth, visited', nodes', frontier, truncated);
          truncated := truncated + 1;
        } else {
          NodesExtend(w, visited', nodes', id, depth + 1);
          AdmitsOne(w, ids, i, visited, nodes, depth, visited', nodes', frontier, truncated);
          visited' := visited'[id := depth + 1];
          nodes' := nodes' + [GraphNode(w.g.nodes[id], depth + 1)];
          if w.filter.includeManaged || !w.g.nodes[id].managed {
            frontier := frontier + [id];
          }
        }
      } else {
        SkipsOne(w, ids, i, visited, nodes, depth, visited', nodes', frontier, truncated);
      }
    }
    assert ids[..|ids|] == ids;
  }

  /** What the ids read so far have made of levels, nodes, frontier and counter: the cap
      leaves out the greatest ids, and the frontier is in order. */
  ghost predicate Admitting(w: Walk, ids: seq<string>, visited: Levels, nodes: seq<GraphNode>, depth: nat,
                            visited': Levels, nodes': seq<GraphNode>, frontier: seq<string>, truncated: nat)
  {
    && Levelled(w, ids, visited, depth, visited', frontier)
    && truncated == LostIds(w, ids, visited')
    && (truncated > 0 ==> AtCap(w.maxNodes, |nodes'|))
    && (AtCap(w.maxNodes, |nodes|) ==> visited' == visited && nodes' == nodes)
    && (w.maxNodes > 0 && |nodes| <= w.maxNodes ==> |nodes'| <= w.maxNodes)
    && InOrder(w, ids, visited, visited', frontier)
  }

  /** The admitted ids are one level deeper, and those to be expanded are the frontier. */
  ghost predicate Levelled(w: Walk, ids: seq<string>, visited: Levels, depth: nat, visited': Levels, frontier: seq<string>) {
    && visited.Keys <= visited'.Keys && (forall v :: v in visited ==> visited'[v] == visited[v])
    && (forall v :: v in visited' && v !in visited ==> v in ids && w.Admits(v) && visited'[v] == depth + 1)
    && (forall v :: v in frontier <==> v in visited' && v !in visited && w.Expands(v))
  }

  ghost predicate InOrder(w: Walk, ids: seq<string>, visited: Levels, visited': Levels, frontier: seq<string>) {
    && Lex.Increasing(frontier)
    && (forall u, v :: u in ids && w.Admits(u) && u !in visited' && v in visited' && v !in visited ==> Lex.Less(v, u))
  }

  lemma NextId(w: Walk, ids: seq<string>, excluded: set<string>, i: nat)
    requires i < |ids| && forall v :: v in ids ==> v != "" && v != w.seed && (v in excluded <==> w.Barred(v))
    ensures w.Admits(ids[i]) <==> ids[i] in w.g.nodes && ids[i] !in excluded
    ensures w.Admits(ids[i]) ==> (w.Expands(ids[i]) <==> w.filter.includeManaged || !w.g.nodes[ids[i]].managed)
  {
    assert ids[i] in ids;
  }

  lemma SkipsOne(w: Walk, ids: seq<string>, i: nat, visited: Levels, nodes: seq<GraphNode>, depth: nat,
                 visited': Levels, nodes': seq<GraphNode>, frontier: seq<string>, truncated: nat)
    requires i < |ids| && Admitting(w, ids[..i], visited, nodes, depth, visited', nodes', frontier, truncated)
    requires !w.Admits(ids[i]) || ids[i] in visited'
    ensures Admitting(w, ids[..i+1], visited, nodes, depth, visited', nodes', frontier, truncated)
  {
    PassesOver(w, ids, i, visited, depth, visited', frontier);
    hide Walk.Admits, Levelled, InOrder, LostIds, AtCap;
  }

  lemma TruncatesOne(w: Walk, ids: seq<string>, i: nat, visited: Levels, nodes: seq<GraphNode>, depth: nat,
                     visited': Levels, nodes': seq<GraphNode>, frontier: seq<string>, truncated: nat)
    requires i < |ids| && Lex.Increasing(ids) && Admitting(w, ids[..i], visited, nodes, depth, visited', nodes', frontier, truncated)
    requires w.Admits(ids[i]) && ids[i] !in visited' && w.maxNodes > 0 && |nodes'| >= w.maxNodes
    ensures Admitting(w, ids[..i+1], visited, nodes, depth, visited', nodes', frontier, truncated + 1)
  {
    PassesOver(w, ids, i, visited, depth, visited', frontier);
    hide Walk.Admits, Levelled, InOrder, LostIds;
  }

  /** An id that is not admitted comes after those that were. */
  lemma PassesOver(w: Walk, ids: seq<string>, i: nat, visited: Levels, depth: nat, visited': Levels, frontier: seq<string>)
    requires i < |ids| && Levelled(w, ids[..i], visited, depth, visited', frontier) && InOrder(w, ids[..i], visited, visited', frontier)
    requires !w.Admits(ids[i]) || ids[i] in visited' || Lex.Increasing(ids)
    ensures Levelled(w, ids[..i+1], visited, depth, visited', frontier) && InOrder(w, ids[..i+1], visited, visited', frontier)
    ensures LostIds(w, ids[..i+1], visited') == LostIds(w, ids[..i], visited') + if w.Admits(ids[i]) && ids[i] !in visited' then 1 else 0
  {
    hide Walk.Admits, Walk.Expands, Lex.Less;
    assert ids[..i+1] == ids[..i] + [ids[i]] && ids[..i+1][..i] == ids[..i];
    assert Lex.Increasing(ids) ==> forall v :: v in ids[..i] ==> Lex.Less(v, ids[i]);
  }

  lemma AdmitsOne(w: Walk, ids: seq<string>, i: nat, visited: Levels, nodes: seq<GraphNode>, depth: nat,
                  visited': Levels, nodes': seq<GraphNode>, frontier: seq<string>, truncated: nat)
    requires i < |ids| && Lex.Increasing(ids) && Admitting(w, ids[..i], visited, nodes, depth, visited', nodes', frontier, truncated)
    requires w.Admits(ids[i]) && ids[i] in w.g.nodes && ids[i] !in visited' && !(w.maxNodes > 0 && |nodes'| >= w.maxNodes)
    ensures var id := ids[i];
      Admitting(w, ids[..i+1], visited, nodes, depth, visited'[id := depth + 1], nodes' + [GraphNode(w.g.nodes[id], depth + 1)],
                if w.Expands(id) then frontier + [id] else frontier, truncated)
  {
    AdmitsLevel(w, ids, i, visited, depth, visited', frontier);
    AdmitsInOrder(w, ids, i, visited, visited', frontier, depth);
    NoneLostAfter(w, ids, i, visited', depth + 1);
    hide Walk.Admits, Walk.Expands, InOrder, Levelled, LostIds;
  }

  lemma AdmitsLevel(w: Walk, ids: seq<string>, i: nat, visited: Levels, depth: nat, visited': Levels, frontier: seq<string>)
    requires i < |ids| && Levelled(w, ids[..i], visited, depth, visited', frontier) && w.Admits(ids[i]) && ids[i] !in visited'
    ensures Levelled(w, ids[..i+1], visited, depth, visited'[ids[i] := depth + 1], if w.Expands(ids[i]) then frontier + [ids[i]] else frontier)
    ensures forall v :: v in frontier ==> v in ids[..i]
  {
    hide Walk.Admits, Walk.Expands;
    assert ids[..i+1] == ids[..i] + [ids[i]];
  }

  lemma NoneLostAfter(w: Walk, ids: seq<string>, i: nat, visited: Levels, d: nat)
    requires i < |ids| && LostIds(w, ids[..i], visited) == 0
    ensures LostIds(w, ids[..i+1], visited[ids[i] := d]) == 0
  {
    hide Walk.Admits, LostIds;
    NoIdsLost(w, ids[..i], visited);
    NoIdsLost(w, ids[..i+1], visited[ids[i] := d]);
  }

  lemma AdmitsInOrder(w: Walk, ids: seq<string>, i: nat, visited: Levels, visited': Levels, frontier: seq<string>, depth: nat)
    requires i < |ids| && Lex.Increasing(ids) && InOrder(w, ids[..i], visited, visited', frontier)
    requires forall v :: v in frontier ==> v in ids[..i]
    requires LostIds(w, ids[..i], visited') == 0
    ensures InOrder(w, ids[..i+1], visited, visited'[ids[i] := depth + 1], if w.Expands(ids[i]) then frontier + [ids[i]] else frontier)
  {
    var id := ids[i];
    assert ids[..i+1] == ids[..i] + [id];
    assert forall v :: v in ids[..i] ==> Lex.Less(v, id);
    NoIdsLost(w, ids[..i], visited');
    hide Walk.Admits, Walk.Expands, Lex.Less, LostIds;
  }

  lemma NodesExtend(w: Walk, visited: Levels, nodes: seq<GraphNode>, id: string, d: nat)
    requires w.Valid() && NodesMatch(w, visited, nodes) && id in w.g.nodes && id !in visited
    ensures NodesMatch(w, visited[id := d], nodes + [GraphNode(w.g.nodes[id], d)])
  {
    var visited', nodes' := visited[id := d], nodes + [GraphNode(w.g.nodes[id], d)];
    forall i | 0 <= i < |nodes'| ensures IsEntry(w, visited', nodes'[i]) {
      assert i < |nodes| ==> IsEntry(w, visited, nodes[i]);
    }
    forall v | v in visited' ensures exists i :: 0 <= i < |nodes'| && nodes'[i].resource.id == v {
      if v != id {
        var i :| 0 <= i < |nodes| && nodes[i].resource.id == v;
        assert nodes'[i].resource.id == v;
      } else {
        assert nodes'[|nodes|].resource.id == v;
      }
    }
  }

  // ---------------------------------------------- one layer keeps it all

  lemma HopGives(w: Walk, frontier: seq<string>, hops: seq<Hop>, h: Hop)
    requires w.Valid() && hops == Hops(w.g.rels, frontier, w.dir, w.kinds) && h in hops
    ensures h.origin in frontier && w.Step(h.origin, h.neighbour)
    ensures EdgeJoins(w.g.rels, w.dir, w.kinds, h.origin, h.neighbour, EdgeOf(h))
    ensures (h.origin == h.rel.from && h.neighbour == h.rel.to) || (h.origin == h.rel.to && h.neighbour == h.rel.from)
  {
    HopsExact(w.g.rels, frontier, w.dir, w.kinds, h);
    assert HopIs(w.g.rels, w.dir, w.kinds, h.origin, h.neighbour, h.rel);
  }

  lemma StepGives(w: Walk, frontier: seq<string>, hops: seq<Hop>, u: string, v: string)
    requires w.Valid() && hops == Hops(w.g.rels, frontier, w.dir, w.kinds) && u in frontier && w.Step(u, v)
    ensures exists h :: h in hops && h.neighbour == v
  {
    var r :| HopIs(w.g.rels, w.dir, w.kinds, u, v, r);
    HopsExact(w.g.rels, frontier, w.dir, w.kinds, Hop(u, r, v));
  }

  /** How a layer extends the levels. */
  ghost predicate Grown(w: Walk, hops: seq<Hop>, visited: Levels, d: nat, visited': Levels, frontier': seq<string>) {
    && visited.Keys <= visited'.Keys && (forall v :: v in visited ==> visited'[v] == visited[v])
    && (forall v :: v in visited' && v !in visited ==>
          w.Admits(v) && visited'[v] == d + 1 && exists h :: h in hops && h.neighbour == v)
    && (forall v :: v in frontier' <==> v in visited' && v !in visited && w.Expands(v))
  }

  /** No admitted neighbour was left behind. */
  ghost predicate TookAll(w: Walk, hops: seq<Hop>, visited': Levels) {
    forall v, h :: h in hops && h.neighbour == v && w.Admits(v) ==> v in visited'
  }

  lemma GrownLayered(w: Walk, frontier: seq<string>, hops: seq<Hop>, visited: Levels, d: nat, visited': Levels,
                     frontier': seq<string>)
    requires w.Valid() && hops == Hops(w.g.rels, frontier, w.dir, w.kinds)
    requires Layered(w, visited) && FrontierIs(w, visited, frontier, d) && Grown(w, hops, visited, d, visited', frontier')
    ensures Layered(w, visited')
  {
    hide Joined, Excluded, Walk.Step;
    forall v | v in visited' && v != w.seed
      ensures exists u :: u in visited' && Linked(w, visited', u, v)
    {
      if v in visited {
        var u :| u in visited && Linked(w, visited, u, v);
        assert Linked(w, visited', u, v);
      } else {
        var h :| h in hops && h.neighbour == v;
        HopLinks(w, frontier, hops, visited, d, visited', h);
      }
    }
  }

  lemma HopLinks(w: Walk, frontier: seq<string>, hops: seq<Hop>, visited: Levels, d: nat, visited': Levels, h: Hop)
    requires w.Valid() && hops == Hops(w.g.rels, frontier, w.dir, w.kinds) && h in hops
    requires FrontierIs(w, visited, frontier, d) && visited.Keys <= visited'.Keys && forall v :: v in visited ==> visited'[v] == visited[v]
    requires h.neighbour in visited' && visited'[h.neighbour] == d + 1
    ensures Linked(w, visited', h.origin, h.neighbour)
  {
    hide Joined, Excluded;
    HopGives(w, frontier, hops, h);
  }

  lemma GrownComplete(w: Walk, frontier: seq<string>, hops: seq<Hop>, visited: Levels, d: nat, visited': Levels,
                      frontier': seq<string>)
    requires w.Valid() && hops == Hops(w.g.rels, frontier, w.dir, w.kinds)
    requires Complete(w, visited, d) && Within(visited, d) && FrontierIs(w, visited, frontier, d)
    requires Grown(w, hops, visited, d, visited', frontier') && TookAll(w, hops, visited')
    ensures Complete(w, visited', d + 1)
  {
    hide Joined, Excluded;
    forall u, v | u in visited' && visited'[u] < d + 1 && w.Expands(u) && w.Step(u, v) && w.Admits(v)
      ensures v in visited' && visited'[v] <= visited'[u] + 1
    {
      assert u in visited;
      if visited[u] == d {
        StepGives(w, frontier, hops, u, v);
      }
    }
  }

  /** What a layer leaves behind shows. */
  lemma LeftBehind(w: Walk, frontier: seq<string>, hops: seq<Hop>, visited: Levels, d: nat, visited': Levels,
                   frontier': seq<string>)
    requires w.Valid() && hops == Hops(w.g.rels, frontier, w.dir, w.kinds)
    requires FrontierIs(w, visited, frontier, d) && Grown(w, hops, visited, d, visited', frontier')
    requires !TookAll(w, hops, visited')
    ensures !Complete(w, visited', d + 1)
  {
    hide Joined, Excluded;
    var h :| h in hops && w.Admits(h.neighbour) && h.neighbour !in visited';
    HopGives(w, frontier, hops, h);
  }

  lemma StaysIncomplete(w: Walk, visited: Levels, d: nat)
    requires !Complete(w, visited, d)
    ensures !Complete(w, visited, d + 1)
  {
    hide Joined, Excluded;
  }

  /** A layer is complete exactly when the ones before were and it took every admitted
      neighbour, once a full result takes no more nodes. */
  lemma CompleteExact(w: Walk, frontier: seq<string>, hops: seq<Hop>, visited: Levels, d: nat, visited': Levels,
                      frontier': seq<string>)
    requires w.Valid() && hops == Hops(w.g.rels, frontier, w.dir, w.kinds)
    requires Walking(w, visited, frontier, d) && Grown(w, hops, visited, d, visited', frontier')
    requires !Complete(w, visited, d) ==> visited' == visited
    ensures Complete(w, visited', d + 1) <==> Complete(w, visited, d) && TookAll(w, hops, visited')
  {
    hide Complete, TookAll, Grown, Layered, Within, FrontierIs;
    if !Complete(w, visited, d) {
      StaysIncomplete(w, visited, d);
    } else if TookAll(w, hops, visited') {
      GrownComplete(w, frontier, hops, visited, d, visited', frontier');
    } else {
      LeftBehind(w, frontier, hops, visited, d, visited', frontier');
    }
  }

  lemma GrownWalking(w: Walk, frontier: seq<string>, hops: seq<Hop>, visited: Levels, d: nat, visited': Levels,
                     frontier': seq<string>)
    requires w.Valid() && hops == Hops(w.g.rels, frontier, w.dir, w.kinds)
    requires Walking(w, visited, frontier, d) && Grown(w, hops, visited, d, visited', frontier')
    ensures Walking(w, visited', frontier', d + 1)
  {
    GrownLayered(w, frontier, hops, visited, d, visited', frontier');
    hide Layered, Excluded;
  }

  /** A node with a level is never barred. */
  lemma VisitedNotBarred(w: Walk, visited: Levels, v: string)
    requires Layered(w, visited) && v in visited
    ensures !w.Barred(v)
  {
    hide Excluded;
  }

  lemma SeenEdgeMonotone(w: Walk, visited: Levels, d: nat, visited': Levels, e: GraphEdge)
    requires SeenEdge(w, visited, d, e)
    requires visited.Keys <= visited'.Keys && forall v :: v in visited ==> visited'[v] == visited[v]
    ensures SeenEdge(w, visited', d + 1, e)
  {
    hide EdgeJoins, Excluded;
    var u, v :| SeenFrom(w, visited, d, e, u, v);
    assert SeenFrom(w, visited', d + 1, e, u, v);
  }

  lemma NewEdgeSeen(w: Walk, frontier: seq<string>, hops: seq<Hop>, visited: Levels, d: nat, excluded: set<string>,
                    visited': Levels, frontier': seq<string>, e: GraphEdge)
    requires w.Valid() && hops == Hops(w.g.rels, frontier, w.dir, w.kinds)
    requires Walking(w, visited, frontier, d) && Grown(w, hops, visited, d, visited', frontier')
    requires forall v, h :: h in hops && h.neighbour == v && v !in visited && w.Barred(v) ==> v in excluded
    requires FromHop(hops, excluded, e)
    ensures SeenEdge(w, visited', d + 1, e)
  {
    hide Joined, Excluded, EdgeJoins, Complete;
    var h :| h in hops && e == EdgeOf(h) && h.rel.from !in excluded && h.rel.to !in excluded;
    HopGives(w, frontier, hops, h);
    if h.neighbour in visited {
      VisitedNotBarred(w, visited, h.neighbour);
    }
    assert SeenFrom(w, visited', d + 1, e, h.origin, h.neighbour);
  }

  lemma EdgesCompleteGrows(w: Walk, frontier: seq<string>, hops: seq<Hop>, visited: Levels, d: nat, excluded: set<string>,
                           visited': Levels, frontier': seq<string>, seen: set<string>, seen': set<string>)
    requires w.Valid() && hops == Hops(w.g.rels, frontier, w.dir, w.kinds)
    requires Walking(w, visited, frontier, d) && Grown(w, hops, visited, d, visited', frontier')
    requires forall v :: v in excluded ==> v !in visited && w.Barred(v)
    requires seen <= seen' && EdgesComplete(w, visited, d, seen)
    requires forall h :: h in hops && Offered(h, excluded) ==> EdgeKey(EdgeOf(h)) in seen'
    ensures EdgesComplete(w, visited', d + 1, seen')
  {
    hide Joined, Excluded, Complete, Layered, EdgeKey, SeenEdge, Walking;
    forall e | SeenEdge(w, visited', d + 1, e)
      ensures EdgeKey(e) in seen'
    {
      SeenEdgeSplit(w, frontier, hops, visited, d, excluded, visited', frontier', e);
    }
  }

  /** An edge seen one level deeper was seen before or is offered by the layer. */
  lemma SeenEdgeSplit(w: Walk, frontier: seq<string>, hops: seq<Hop>, visited: Levels, d: nat, excluded: set<string>,
                      visited': Levels, frontier': seq<string>, e: GraphEdge)
    requires w.Valid() && hops == Hops(w.g.rels, frontier, w.dir, w.kinds)
    requires Walking(w, visited, frontier, d) && Grown(w, hops, visited, d, visited', frontier')
    requires forall v :: v in excluded ==> v !in visited && w.Barred(v)
    requires SeenEdge(w, visited', d + 1, e)
    ensures SeenEdge(w, visited, d, e) || exists h :: h in hops && Offered(h, excluded) && e == EdgeOf(h)
  {
    hide Joined, Excluded, Complete, Layered;
    var u, v :| SeenFrom(w, visited', d + 1, e, u, v);
    assert u in visited;
    if visited[u] < d {
      assert SeenFrom(w, visited, d, e, u, v);
    } else {
      assert u in frontier;
      var r :| HopIs(w.g.rels, w.dir, w.kinds, u, v, r) && e == GraphEdge(r.from, r.to, r.kind);
      var h := Hop(u, r, v);
      HopsExact(w.g.rels, frontier, w.dir, w.kinds, h);
      assert EdgeOf(h) == e;
    }
  }

  /** The edges offered so far, in order, are the seen edges. */
  ghost predicate OffersSeen(w: Walk, visited: Levels, d: nat, offered: seq<GraphEdge>) {
    forall e :: e in offered <==> SeenEdge(w, visited, d, e)
  }

  lemma OffersGrow(w: Walk, frontier: seq<string>, hops: seq<Hop>, visited: Levels, d: nat, excluded: set<string>,
                   visited': Levels, frontier': seq<string>, offered: seq<GraphEdge>)
    requires w.Valid() && hops == Hops(w.g.rels, frontier, w.dir, w.kinds)
    requires Walking(w, visited, frontier, d) && Grown(w, hops, visited, d, visited', frontier')
    requires forall v, h :: h in hops && h.neighbour == v && v !in visited && w.Barred(v) ==> v in excluded
    requires forall v :: v in excluded ==> v !in visited && w.Barred(v)
    requires OffersSeen(w, visited, d, offered)
    ensures OffersSeen(w, visited', d + 1, offered + OfferedEdges(hops, excluded))
  {
    GrownKeeps(w, hops, visited, d, visited', frontier');
    hide Excluded, SeenEdge, Walking, Grown;
    forall e
      ensures e in offered + OfferedEdges(hops, excluded) <==> SeenEdge(w, visited', d + 1, e)
    {
      OfferedExact(hops, excluded, e);
      if SeenEdge(w, visited', d + 1, e) {
        SeenEdgeSplit(w, frontier, hops, visited, d, excluded, visited', frontier', e);
      }
      if SeenEdge(w, visited, d, e) {
        SeenEdgeMonotone(w, visited, d, visited', e);
      }
      if e in OfferedEdges(hops, excluded) {
        assert FromHop(hops, excluded, e);
        NewEdgeSeen(w, frontier, hops, visited, d, excluded, visited', frontier', e);
      }
    }
  }

  /** A layer's edges are complete exactly when the ones before were and it lost none,
      once a full result takes no more edges. */
  lemma EdgesCompleteExact(w: Walk, frontier: seq<string>, hops: seq<Hop>, visited: Levels, d: nat, excluded: set<string>,
                           visited': Levels, frontier': seq<string>, seen: set<string>, seen': set<string>)
    requires w.Valid() && hops == Hops(w.g.rels, frontier, w.dir, w.kinds)
    requires Walking(w, visited, frontier, d) && Grown(w, hops, visited, d, visited', frontier')
    requires forall v, h :: h in hops && h.neighbour == v && v !in visited && w.Barred(v) ==> v in excluded
    requires forall v :: v in excluded ==> v !in visited && w.Barred(v)
    requires seen <= seen' && (!EdgesComplete(w, visited, d, seen) ==> seen' == seen)
    ensures EdgesComplete(w, visited', d + 1, seen') <==>
      EdgesComplete(w, visited, d, seen) && Lost(hops, excluded, seen') == 0
  {
    NoneLost(hops, excluded, seen');
    hide Lost, EdgeKey, SeenEdge, Excluded, Walking;
    if !EdgesComplete(w, visited, d, seen) {
      var e :| SeenEdge(w, visited, d, e) && EdgeKey(e) !in seen;
      GrownKeeps(w, hops, visited, d, visited', frontier');
      SeenEdgeMonotone(w, visited, d, visited', e);
    } else if Lost(hops, excluded, seen') == 0 {
      hide EdgesComplete;
      EdgesCompleteGrows(w, frontier, hops, visited, d, excluded, visited', frontier', seen, seen');
    } else {
      var h :| h in hops && Offered(h, excluded) && EdgeKey(EdgeOf(h)) !in seen';
      assert FromHop(hops, excluded, EdgeOf(h));
      NewEdgeSeen(w, frontier, hops, visited, d, excluded, visited', frontier', EdgeOf(h));
    }
  }

  lemma GrownKeeps(w: Walk, hops: seq<Hop>, visited: Levels, d: nat, visited': Levels, frontier': seq<string>)
    requires Grown(w, hops, visited, d, visited', frontier')
    ensures visited.Keys <= visited'.Keys && forall v :: v in visited ==> visited'[v] == visited[v]
  {
  }

  // ------------------------------------------------------------- distances

  /** Every level is realised by an admissible path. */
  lemma {:induction false} LevelPath(w: Walk, visited: Levels, v: string) returns (p: seq<string>)
    requires Layered(w, visited) && v in visited
    ensures Reaches(w, p, v) && |p| - 1 == visited[v]
    decreases visited[v]
  {
    hide Joined, Excluded;
    if v == w.seed {
      p := [v];
    } else {
      var u :| u in visited && Linked(w, visited, u, v);
      var t := LevelPath(w, visited, u);
      p := t + [v];
      forall i | 0 <= i < |p| - 1 ensures w.Step(p[i], p[i+1]) && w.Expands(p[i]) {
        assert i < |t| - 1 ==> p[i] == t[i] && p[i+1] == t[i+1];
      }
    }
  }

  lemma {:induction false} PathLevelled(w: Walk, visited: Levels, d: nat, p: seq<string>, i: nat)
    requires Layered(w, visited) && Complete(w, visited, d) && Admissible(w, p) && i < |p| && i <= d
    ensures p[i] in visited && visited[p[i]] <= i
    decreases i
  {
    hide Joined, Excluded;
    if i > 0 {
      PathLevelled(w, visited, d, p, i - 1);
      assert w.Step(p[i-1], p[i-1+1]);
    }
  }

  lemma ExhaustedIsComplete(w: Walk, visited: Levels, d: nat, d': nat)
    requires Within(visited, d) && FrontierIs(w, visited, [], d) && Complete(w, visited, d)
    ensures Complete(w, visited, d')
  {
    hide Joined, Excluded;
    forall u | u in visited && w.Expands(u) ensures visited[u] < d {
      assert u !in [];
    }
  }

  /** A complete walk has the nodes within the depth, at their distance. */
  lemma NodesExact(w: Walk, visited: Levels, v: string)
    requires Layered(w, visited) && Complete(w, visited, w.maxDepth) && Within(visited, w.maxDepth)
    ensures v in visited <==> exists p :: Reaches(w, p, v) && |p| - 1 <= w.maxDepth
    ensures v in visited ==> IsDistance(w, v, visited[v])
  {
    hide Complete, Layered, Excluded, Joined;
    if v in visited {
      var p := LevelPath(w, visited, v);
      assert Reaches(w, p, v) && |p| - 1 <= w.maxDepth;
      forall p' | Reaches(w, p', v) ensures visited[v] <= |p'| - 1 {
        if |p'| - 1 <= w.maxDepth {
          PathLevelled(w, visited, w.maxDepth, p', |p'| - 1);
        }
      }
    }
    if p :| Reaches(w, p, v) && |p| - 1 <= w.maxDepth {
      PathLevelled(w, visited, w.maxDepth, p, |p| - 1);
    }
  }

  // ------------------------------------------------------------ edge keys

  /** Ids and kinds without a bar give distinct edges distinct keys. */
  lemma BarFreeKeys(e: GraphEdge, f: GraphEdge)
    requires '|' !in e.from && '|' !in e.kind && '|' !in f.from && '|' !in f.kind
    ensures EdgeKey(e) == EdgeKey(f) <==> e == f
  {
    if EdgeKey(e) == EdgeKey(f) {
      Bars.JoinedUnique(e.from, e.kind, e.to, f.from, f.kind, f.to);
    }
  }

  /** No two edges seen share a key. */
  ghost predicate ClashFree(w: Walk, visited: Levels) {
    forall e, f :: SeenEdge(w, visited, w.maxDepth, e) && SeenEdge(w, visited, w.maxDepth, f) && EdgeKey(e) == EdgeKey(f) ==> e == f
  }

  lemma BarFreeGraphIsClashFree(w: Walk, visited: Levels)
    requires forall r :: r in w.g.rels ==> '|' !in r.from && '|' !in r.kind
    ensures ClashFree(w, visited)
  {
    hide EdgeKey, Excluded;
    forall e, f | SeenEdge(w, visited, w.maxDepth, e) && SeenEdge(w, visited, w.maxDepth, f) && EdgeKey(e) == EdgeKey(f)
      ensures e == f
    {
      BarFreeKeys(e, f);
    }
  }

  // -------------------------------------------------------------- the walk

  predicate EndsIn(visited: Levels, e: GraphEdge) {
    e.from in visited && e.to in visited
  }

  /** pruneDanglingEdges. */
  method PruneDanglingEdges(edges: seq<GraphEdge>, admitted: Levels) returns (kept: seq<GraphEdge>)
    requires forall i, j :: 0 <= i < j < |edges| ==> edges[i] != edges[j]
    ensures forall e :: e in kept <==> e in edges && EndsIn(admitted, e)
    ensures forall i, j :: 0 <= i < j < |kept| ==> kept[i] != kept[j]
    ensures |kept| <= |edges|
  {
    kept := [];
    for i := 0 to |edges|
      invariant |kept| <= i && forall e :: e in kept <==> e in edges[..i] && EndsIn(admitted, e)
      invariant forall i, j :: 0 <= i < j < |kept| ==> kept[i] != kept[j]
    {
      assert edges[..i+1] == edges[..i] + [edges[i]];
      assert edges[i] !in edges[..i];
      if edges[i].from in admitted && edges[i].to in admitted {
        kept := kept + [edges[i]];
      }
    }
    assert edges[..|edges|] == edges;
  }

  predicate NodeLess(a: GraphNode, b: GraphNode) {
    a.depth < b.depth || (a.depth == b.depth && Lex.Less(a.resource.id, b.resource.id))
  }

  predicate EdgeLess(a: GraphEdge, b: GraphEdge) {
    if a.from != b.from then Lex.Less(a.from, b.from)
    else if a.kind != b.kind then Lex.Less(a.kind, b.kind)
    else Lex.Less(a.to, b.to)
  }

  lemma NodeOrder(w: Walk, visited: Levels, nodes: seq<GraphNode>)
    requires NodesMatch(w, visited, nodes)
    ensures Sorting.OrderOn(NodeLess, nodes)
    ensures forall i, j :: 0 <= i < j < |nodes| ==> nodes[i] != nodes[j]
  {
    forall a, b | a in nodes && b in nodes
      ensures a == b || NodeLess(a, b) || NodeLess(b, a)
      ensures NodeLess(a, b) ==> !NodeLess(b, a)
    {
      Lex.Total(a.resource.id, b.resource.id);
      Lex.Asymmetric(a.resource.id, b.resource.id);
    }
    forall a, b, c | a in nodes && b in nodes && c in nodes && NodeLess(a, b) && NodeLess(b, c) ensures NodeLess(a, c) {
      if a.depth == b.depth == c.depth {
        Lex.Transitive(a.resource.id, b.resource.id, c.resource.id);
      }
    }
  }

  lemma EdgeLessTransitive(a: GraphEdge, b: GraphEdge, c: GraphEdge)
    requires EdgeLess(a, b) && EdgeLess(b, c)
    ensures EdgeLess(a, c)
  {
    Lex.Irreflexive(a.from);
    Lex.Irreflexive(a.kind);
    Lex.Asymmetric(a.from, b.from);
    Lex.Asymmetric(a.kind, b.kind);
    if a.from != b.from && b.from != c.from {
      Lex.Transitive(a.from, b.from, c.from);
    } else if a.from == b.from == c.from {
      if a.kind != b.kind && b.kind != c.kind {
        Lex.Transitive(a.kind, b.kind, c.kind);
      } else if a.kind == b.kind == c.kind {
        Lex.Transitive(a.to, b.to, c.to);
      }
    }
  }

  lemma EdgeOrder(edges: seq<GraphEdge>)
    ensures Sorting.OrderOn(EdgeLess, edges)
  {
    forall a, b | a in edges && b in edges
      ensures a == b || EdgeLess(a, b) || EdgeLess(b, a)
      ensures EdgeLess(a, b) ==> !EdgeLess(b, a)
    {
      Lex.Total(a.from, b.from);
      Lex.Total(a.kind, b.kind);
      Lex.Total(a.to, b.to);
      Lex.Asymmetric(a.from, b.from);
      Lex.Asymmetric(a.kind, b.kind);
      Lex.Asymmetric(a.to, b.to);
    }
    forall a, b, c | a in edges && b in edges && c in edges && EdgeLess(a, b) && EdgeLess(b, c) ensures EdgeLess(a, c) {
      EdgeLessTransitive(a, b, c);
    }
  }

  lemma SortedNodesMatch(w: Walk, visited: Levels, nodes: seq<GraphNode>, sorted: seq<GraphNode>)
    requires NodesMatch(w, visited, nodes) && Sorting.SortedBy(NodeLess, sorted) && forall n :: n in sorted <==> n in nodes
    ensures NodesMatch(w, visited, sorted)
  {
    hide Excluded;
    forall i | 0 <= i < |sorted| ensures IsEntry(w, visited, sorted[i]) {
      assert sorted[i] in nodes;
    }
    forall i, j | 0 <= i < j < |sorted| ensures sorted[i].resource.id != sorted[j].resource.id {
      assert sorted[i] in nodes && sorted[j] in nodes;
      Lex.Irreflexive(sorted[i].resource.id);
      assert NodeLess(sorted[i], sorted[j]);
    }
    forall v | v in visited ensures exists i :: 0 <= i < |sorted| && sorted[i].resource.id == v {
      var i :| 0 <= i < |nodes| && nodes[i].resource.id == v;
      assert nodes[i] in sorted;
    }
  }

  /** The state of the walk between layers. */
  datatype Progress = Progress(
    visited: Levels, nodes: seq<GraphNode>, edges: seq<GraphEdge>, seen: set<string>, frontier: seq<string>,
    truncatedNodes: nat, truncatedEdges: nat, excludedTypes: nat, excludedRegions: nat)

  ghost predicate Sound(w: Walk, s: Progress, d: nat) {
    && Walking(w, s.visited, s.frontier, d)
    && NodesMatch(w, s.visited, s.nodes) && (w.maxNodes > 0 ==> |s.nodes| <= w.maxNodes)
    && KeysMatch(s.edges, s.seen) && EdgesSound(w, s.visited, d, s.edges)
    && (w.maxEdges > 0 ==> |s.edges| <= w.maxEdges)
    && (s.truncatedNodes == 0 <==> Complete(w, s.visited, d))
    && (s.truncatedNodes > 0 ==> AtCap(w.maxNodes, |s.nodes|))
    && (s.truncatedEdges == 0 <==> EdgesComplete(w, s.visited, d, s.seen))
    && (s.truncatedEdges > 0 ==> AtCap(w.maxEdges, |s.edges|))
  }

  lemma EdgesSoundGrows(w: Walk, frontier: seq<string>, hops: seq<Hop>, visited: Levels, d: nat, excluded: set<string>,
                        visited': Levels, frontier': seq<string>, edges: seq<GraphEdge>, edges': seq<GraphEdge>)
    requires w.Valid() && hops == Hops(w.g.rels, frontier, w.dir, w.kinds)
    requires Walking(w, visited, frontier, d) && Grown(w, hops, visited, d, visited', frontier')
    requires forall v, h :: h in hops && h.neighbour == v && v !in visited && w.Barred(v) ==> v in excluded
    requires EdgesSound(w, visited, d, edges) && edges <= edges'
    requires forall i :: |edges| <= i < |edges'| ==> FromHop(hops, excluded, edges'[i])
    ensures EdgesSound(w, visited', d + 1, edges')
  {
    hide Walking, FromHop, SeenEdge, Excluded;
    forall i | 0 <= i < |edges'| ensures SeenEdge(w, visited', d + 1, edges'[i]) {
      if i < |edges| {
        assert edges'[i] == edges[i];
        SeenEdgeMonotone(w, visited, d, visited', edges[i]);
      } else {
        NewEdgeSeen(w, frontier, hops, visited, d, excluded, visited', frontier', edges'[i]);
      }
    }
  }

  /** What one iteration of the depth loop has read and done. */
  ghost predicate Ran(w: Walk, s: Progress, d: nat, offered: seq<GraphEdge>, hops: seq<Hop>, next: set<string>, excluded: set<string>,
                      ids: seq<string>, t: Progress, lostNodes: nat, lostEdges: nat)
    requires w.Valid()
  {
    && hops == Hops(w.g.rels, s.frontier, w.dir, w.kinds)
    && NextIs(hops, s.visited, next) && excluded == (set v | v in next && w.Barred(v)) && SameIds(ids, next)
    && KeysMatch(t.edges, t.seen) && Reading(offered, hops, excluded, s.edges, s.seen, w.maxEdges, t.edges, t.seen, lostEdges)
    && NodesMatch(w, t.visited, t.nodes)
    && Admitting(w, ids, s.visited, s.nodes, d, t.visited, t.nodes, t.frontier, lostNodes) && Lex.Increasing(ids)
    && t.truncatedNodes == s.truncatedNodes + lostNodes && t.truncatedEdges == s.truncatedEdges + lostEdges
    && t.excludedTypes == s.excludedTypes + |Tally(w, next, true)| && t.excludedRegions == s.excludedRegions + |Tally(w, next, false)|
  }

  ghost predicate SameIds(ids: seq<string>, next: set<string>) {
    forall v :: v in ids <==> v in next
  }

  ghost predicate NextIs(hops: seq<Hop>, visited: Levels, next: set<string>) {
    forall v :: v in next <==> v != "" && v !in visited && exists h :: h in hops && h.neighbour == v
  }

  /** One iteration of the depth loop. */
  method WalkLayer(w: Walk, s: Progress, d: nat, ghost offered: seq<GraphEdge>, ghost fronts: seq<seq<string>>)
    returns (t: Progress, ghost offered': seq<GraphEdge>)
    requires w.Valid() && Underway(w, s, d, fronts, offered)
    ensures Underway(w, t, d + 1, fronts + [s.frontier], offered')
  {
    LayerMayRun(w, s, d, fronts, offered);
    hide Underway, Ran, Tally, NextIs, MayAdmit, SameIds, FirstsOf, Cut, Reading, Admitting, NodesMatch, KeysMatch, Walk.Barred, Walk.Valid, Hops,
      Lex.Increasing, OfferedEdges;
    var hops, next := CollectFrontierEdges(w, s.frontier, s.visited);
    var excluded, types, regions := ClassifyExcluded(w, next);
    var edges, seen, lostEdges := AdmitEdges(hops, excluded, s.edges, s.seen, w.maxEdges, offered);
    var ids := Lex.SortedSet(next);
    NextMayBeAdmitted(w, hops, s.visited, next, ids, excluded);
    var visited, nodes, frontier, lostNodes := AdmitNodes(w, ids, excluded, s.visited, s.nodes, d);
    t := Progress(visited, nodes, edges, seen, frontier, s.truncatedNodes + lostNodes, s.truncatedEdges + lostEdges,
                  s.excludedTypes + types, s.excludedRegions + regions);
    offered' := offered + OfferedEdges(hops, excluded);
    assert Ran(w, s, d, offered, hops, next, excluded, ids, t, lostNodes, lostEdges) by {
      HasRun(w, s, d, offered, hops, next, excluded, ids, t, lostNodes, lostEdges);
    }
    LayerKeeps(w, s, d, fronts, offered, hops, next, excluded, ids, t, lostNodes, lostEdges);
  }

  lemma HasRun(w: Walk, s: Progress, d: nat, offered: seq<GraphEdge>, hops: seq<Hop>, next: set<string>, excluded: set<string>,
               ids: seq<string>, t: Progress, lostNodes: nat, lostEdges: nat)
    requires w.Valid() && hops == Hops(w.g.rels, s.frontier, w.dir, w.kinds) && NextIs(hops, s.visited, next)
    requires excluded == (set v | v in next && w.Barred(v)) && SameIds(ids, next) && Lex.Increasing(ids)
    requires KeysMatch(t.edges, t.seen) && NodesMatch(w, t.visited, t.nodes)
    requires Reading(offered, hops, excluded, s.edges, s.seen, w.maxEdges, t.edges, t.seen, lostEdges)
    requires Admitting(w, ids, s.visited, s.nodes, d, t.visited, t.nodes, t.frontier, lostNodes)
    requires t.truncatedNodes == s.truncatedNodes + lostNodes && t.truncatedEdges == s.truncatedEdges + lostEdges
    requires t.excludedTypes == s.excludedTypes + |Tally(w, next, true)| && t.excludedRegions == s.excludedRegions + |Tally(w, next, false)|
    ensures Ran(w, s, d, offered, hops, next, excluded, ids, t, lostNodes, lostEdges)
  {
  }

  /** Between layers: what is recorded, what was offered and in which order, and what was
      counted. */
  ghost predicate Underway(w: Walk, s: Progress, d: nat, fronts: seq<seq<string>>, offered: seq<GraphEdge>)
    requires w.Valid()
  {
    Sound(w, s, d) && Offers(w, s, d, offered) && InTurn(w, s, d, fronts, offered) && Counted(w, s, d, offered)
  }

  lemma LayerKeeps(w: Walk, s: Progress, d: nat, fronts: seq<seq<string>>, offered: seq<GraphEdge>, hops: seq<Hop>, next: set<string>,
                   excluded: set<string>, ids: seq<string>, t: Progress, lostNodes: nat, lostEdges: nat)
    requires w.Valid() && Underway(w, s, d, fronts, offered)
    requires Ran(w, s, d, offered, hops, next, excluded, ids, t, lostNodes, lostEdges)
    ensures Underway(w, t, d + 1, fronts + [s.frontier], offered + OfferedEdges(hops, excluded))
  {
    hide Sound, Offers, InTurn, Counted, Ran, OfferedEdges;
    LayerSound(w, s, d, offered, hops, next, excluded, ids, t, lostNodes, lostEdges);
    LayerOffers(w, s, d, offered, hops, next, excluded, ids, t, lostNodes, lostEdges);
    LayerInTurn(w, s, d, fronts, offered, hops, next, excluded, ids, t, lostNodes, lostEdges);
    LayerCounted(w, s, d, offered, hops, next, excluded, ids, t, lostNodes, lostEdges);
  }

  lemma LayerMayRun(w: Walk, s: Progress, d: nat, fronts: seq<seq<string>>, offered: seq<GraphEdge>)
    requires w.Valid() && Underway(w, s, d, fronts, offered)
    ensures UniqueKeys(w.g.rels) && w.seed in s.visited && NodesMatch(w, s.visited, s.nodes)
    ensures KeysMatch(s.edges, s.seen) && (w.maxEdges > 0 ==> |s.edges| <= w.maxEdges)
    ensures s.edges == Cut(FirstsOf(EdgeKey, offered), w.maxEdges)
  {
    hide InTurn, Counted, Walking, EdgesSound, EdgesComplete, Complete, FirstsOf, Cut;
    SoundHasSeed(w, s, d);
  }

  lemma SoundHasSeed(w: Walk, s: Progress, d: nat)
    requires Sound(w, s, d)
    ensures w.seed in s.visited
  {
  }

  lemma NextMayBeAdmitted(w: Walk, hops: seq<Hop>, visited: Levels, next: set<string>, ids: seq<string>, excluded: set<string>)
    requires NextIs(hops, visited, next) && w.seed in visited && (forall v :: v in ids <==> v in next)
    requires excluded == set v | v in next && w.Barred(v)
    ensures MayAdmit(w, ids, excluded, visited) && SameIds(ids, next)
  {
    hide Walk.Barred;
  }

  lemma RanGrown(w: Walk, s: Progress, d: nat, offered: seq<GraphEdge>, hops: seq<Hop>, next: set<string>, excluded: set<string>,
                 ids: seq<string>, t: Progress, lostNodes: nat, lostEdges: nat)
    requires w.Valid() && Ran(w, s, d, offered, hops, next, excluded, ids, t, lostNodes, lostEdges)
    ensures hops == Hops(w.g.rels, s.frontier, w.dir, w.kinds) && Grown(w, hops, s.visited, d, t.visited, t.frontier)
    ensures forall v, h :: h in hops && h.neighbour == v && v !in s.visited && w.Barred(v) ==> v in excluded
    ensures forall v :: v in excluded ==> v !in s.visited && w.Barred(v)
    ensures TookAll(w, hops, t.visited) <==> lostNodes == 0
  {
    hide Reading, NodesMatch, KeysMatch, Walk.Valid, Excluded, LostIds, AtCap, Lex.Increasing, Walk.Expands, Walk.Barred, Walk.Admits, Hops;
    BarredNext(w, hops, s.visited, next, excluded);
    TookAllExact(w, hops, s.visited, next, ids, t.visited);
  }

  lemma LayerSound(w: Walk, s: Progress, d: nat, offered: seq<GraphEdge>, hops: seq<Hop>, next: set<string>, excluded: set<string>,
                   ids: seq<string>, t: Progress, lostNodes: nat, lostEdges: nat)
    requires w.Valid() && Sound(w, s, d) && Ran(w, s, d, offered, hops, next, excluded, ids, t, lostNodes, lostEdges)
    ensures Sound(w, t, d + 1)
  {
    RanGrown(w, s, d, offered, hops, next, excluded, ids, t, lostNodes, lostEdges);
    hide NextIs, FirstsOf, Cut, Whole, Walking, NodesMatch, KeysMatch, EdgesSound, EdgesComplete, Complete, Grown, TookAll, FromHop, EdgeKey,
      Excluded, Lost, LostIds, OfferedEdges, Lex.Increasing, Hops, Walk.Valid, Walk.Expands, Walk.Admits, Walk.Barred;
    GrownWalking(w, s.frontier, hops, s.visited, d, t.visited, t.frontier);
    EdgesSoundGrows(w, s.frontier, hops, s.visited, d, excluded, t.visited, t.frontier, s.edges, t.edges);
    CompleteExact(w, s.frontier, hops, s.visited, d, t.visited, t.frontier);
    EdgesCompleteExact(w, s.frontier, hops, s.visited, d, excluded, t.visited, t.frontier, s.seen, t.seen);
  }

  /** The recorded edges are the first ones offered under their keys, up to the cap. */
  ghost predicate Offers(w: Walk, s: Progress, d: nat, offered: seq<GraphEdge>) {
    && OffersSeen(w, s.visited, d, offered) && s.edges == Cut(FirstsOf(EdgeKey, offered), w.maxEdges)
    && (s.truncatedEdges == 0 ==> Whole(EdgeKey, offered, w.maxEdges))
  }

  lemma LayerOffers(w: Walk, s: Progress, d: nat, offered: seq<GraphEdge>, hops: seq<Hop>, next: set<string>, excluded: set<string>,
                    ids: seq<string>, t: Progress, lostNodes: nat, lostEdges: nat)
    requires w.Valid() && Sound(w, s, d) && Offers(w, s, d, offered)
    requires Ran(w, s, d, offered, hops, next, excluded, ids, t, lostNodes, lostEdges)
    ensures Offers(w, t, d + 1, offered + OfferedEdges(hops, excluded))
  {
    RanGrown(w, s, d, offered, hops, next, excluded, ids, t, lostNodes, lostEdges);
    hide NextIs, OffersSeen, FirstsOf, Cut, Whole, Walking, Grown, TookAll, Excluded, NodesMatch, KeysMatch, Admitting, EdgesSound, EdgesComplete,
      Complete, Hops, Walk.Valid, Walk.Barred, Lost, FromHop;
    OffersGrow(w, s.frontier, hops, s.visited, d, excluded, t.visited, t.frontier, offered);
  }

  // ------------------------------------------------------- in which order

  /** The nodes at level i whose relationships are followed, in id order. */
  ghost predicate FrontAt(w: Walk, visited: Levels, front: seq<string>, i: nat) {
    Lex.Increasing(front) && forall v :: v in front <==> v in visited && visited[v] == i && w.Expands(v)
  }

  ghost predicate FrontsAre(w: Walk, visited: Levels, fronts: seq<seq<string>>) {
    forall i :: 0 <= i < |fronts| ==> FrontAt(w, visited, fronts[i], i)
  }

  /** The edges of the hops that do not lead to a barred node, in order. */
  function Unbarred(w: Walk, hops: seq<Hop>): seq<GraphEdge> {
    if hops == [] then []
    else
      Unbarred(w, hops[..|hops|-1]) + if w.Barred(hops[|hops|-1].neighbour) then [] else [EdgeOf(hops[|hops|-1])]
  }

  /** Level by level, node by node, every node's hops in their order. */
  ghost function OfferedFrom(w: Walk, fronts: seq<seq<string>>): seq<GraphEdge>
    requires UniqueKeys(w.g.rels)
  {
    if fronts == [] then []
    else OfferedFrom(w, fronts[..|fronts|-1]) + Unbarred(w, Hops(w.g.rels, fronts[|fronts|-1], w.dir, w.kinds))
  }

  /** An admitted neighbour of an expanded node that has no level. */
  ghost predicate LeftOut(w: Walk, visited: Levels, d: nat, u: string, v: string) {
    u in visited && visited[u] < d && w.Expands(u) && w.Step(u, v) && w.Admits(v) && v !in visited
  }

  /** x comes before v, a neighbour of u, by level and then by id. */
  ghost predicate ComesBefore(visited: Levels, u: string, v: string, x: string) {
    u in visited && x in visited ==> visited[x] <= visited[u] || (visited[x] == visited[u] + 1 && Lex.Less(x, v))
  }

  /** Whatever has a level comes before what was left out, by level and then by id. */
  ghost predicate NearestFirst(w: Walk, visited: Levels, d: nat) {
    forall u, v, x :: LeftOut(w, visited, d, u, v) ==> ComesBefore(visited, u, v, x)
  }

  ghost predicate InTurn(w: Walk, s: Progress, d: nat, fronts: seq<seq<string>>, offered: seq<GraphEdge>)
    requires w.Valid()
  {
    && |fronts| == d && FrontsAre(w, s.visited, fronts) && Lex.Increasing(s.frontier) && offered == OfferedFrom(w, fronts)
    && NearestFirst(w, s.visited, d)
  }

  lemma FrontsGrow(w: Walk, visited: Levels, frontier: seq<string>, hops: seq<Hop>, d: nat, fronts: seq<seq<string>>, visited': Levels,
                   frontier': seq<string>)
    requires Walking(w, visited, frontier, d) && Grown(w, hops, visited, d, visited', frontier')
    requires |fronts| == d && FrontsAre(w, visited, fronts) && Lex.Increasing(frontier)
    ensures FrontsAre(w, visited', fronts + [frontier])
  {
    hide Layered, Lex.Increasing, Walk.Admits, Walk.Expands;
    var all := fronts + [frontier];
    forall i | 0 <= i < |all| ensures FrontAt(w, visited', all[i], i) {
      if i < d {
        assert FrontAt(w, visited, fronts[i], i);
      }
    }
  }

  lemma NearestFirstGrows(w: Walk, visited: Levels, frontier: seq<string>, hops: seq<Hop>, next: set<string>, ids: seq<string>, d: nat,
                          visited': Levels, frontier': seq<string>)
    requires w.Valid() && hops == Hops(w.g.rels, frontier, w.dir, w.kinds)
    requires Walking(w, visited, frontier, d) && Grown(w, hops, visited, d, visited', frontier') && NearestFirst(w, visited, d)
    requires NextIs(hops, visited, next) && SameIds(ids, next) && InOrder(w, ids, visited, visited', frontier')
    requires !Complete(w, visited, d) ==> visited' == visited
    ensures NearestFirst(w, visited', d + 1)
  {
    forall u, v, x | LeftOut(w, visited', d + 1, u, v) ensures ComesBefore(visited', u, v, x) {
      LeftOutComesLater(w, visited, frontier, hops, next, ids, d, visited', frontier', u, v, x);
    }
  }

  lemma LeftOutComesLater(w: Walk, visited: Levels, frontier: seq<string>, hops: seq<Hop>, next: set<string>, ids: seq<string>, d: nat,
                          visited': Levels, frontier': seq<string>, u: string, v: string, x: string)
    requires w.Valid() && hops == Hops(w.g.rels, frontier, w.dir, w.kinds)
    requires Walking(w, visited, frontier, d) && Grown(w, hops, visited, d, visited', frontier') && NearestFirst(w, visited, d)
    requires NextIs(hops, visited, next) && SameIds(ids, next) && InOrder(w, ids, visited, visited', frontier')
    requires !Complete(w, visited, d) ==> visited' == visited
    requires LeftOut(w, visited', d + 1, u, v)
    ensures ComesBefore(visited', u, v, x)
  {
    hide Layered, Lex.Less, Lex.Increasing, Walk.Admits, Walk.Expands, Walk.Step, Walk.Valid, Hops;
    if visited[u] < d {
      assert !Complete(w, visited, d);
      assert LeftOut(w, visited, d, u, v);
    } else {
      StepGives(w, frontier, hops, u, v);
      assert v != "" by { AdmittedHasId(w, v); }
    }
  }

  lemma AdmittedHasId(w: Walk, v: string)
    requires w.Admits(v)
    ensures v != ""
  {
  }

  /** The hops offered are those that lead to no barred node. */
  lemma {:induction false} OfferedUnbarred(w: Walk, hops: seq<Hop>, excluded: set<string>)
    requires forall h :: h in hops ==> (Offered(h, excluded) <==> !w.Barred(h.neighbour))
    ensures OfferedEdges(hops, excluded) == Unbarred(w, hops)
  {
    if hops != [] {
      OfferedUnbarred(w, hops[..|hops|-1], excluded);
      assert hops[|hops|-1] in hops;
    }
  }

  lemma HopsUnbarred(w: Walk, frontier: seq<string>, hops: seq<Hop>, visited: Levels, d: nat, excluded: set<string>)
    requires w.Valid() && hops == Hops(w.g.rels, frontier, w.dir, w.kinds) && Walking(w, visited, frontier, d)
    requires forall v, h :: h in hops && h.neighbour == v && v !in visited && w.Barred(v) ==> v in excluded
    requires forall v :: v in excluded ==> v !in visited && w.Barred(v)
    ensures OfferedEdges(hops, excluded) == Unbarred(w, hops)
  {
    forall h | h in hops ensures Offered(h, excluded) <==> !w.Barred(h.neighbour) {
      HopGives(w, frontier, hops, h);
      if h.neighbour in visited {
        VisitedNotBarred(w, visited, h.neighbour);
      }
    }
    OfferedUnbarred(w, hops, excluded);
  }

  lemma OfferedSnoc(w: Walk, fronts: seq<seq<string>>, front: seq<string>)
    requires UniqueKeys(w.g.rels)
    ensures OfferedFrom(w, fronts + [front]) == OfferedFrom(w, fronts) + Unbarred(w, Hops(w.g.rels, front, w.dir, w.kinds))
  {
    assert (fronts + [front])[..|fronts|] == fronts;
  }

  lemma RanInOrder(w: Walk, s: Progress, d: nat, offered: seq<GraphEdge>, hops: seq<Hop>, next: set<string>, excluded: set<string>,
                   ids: seq<string>, t: Progress, lostNodes: nat, lostEdges: nat)
    requires w.Valid() && Sound(w, s, d) && Ran(w, s, d, offered, hops, next, excluded, ids, t, lostNodes, lostEdges)
    ensures Walking(w, s.visited, s.frontier, d) && NextIs(hops, s.visited, next) && SameIds(ids, next)
    ensures InOrder(w, ids, s.visited, t.visited, t.frontier) && Lex.Increasing(t.frontier)
    ensures !Complete(w, s.visited, d) ==> t.visited == s.visited
  {
    hide Walking, NextIs, SameIds, Lex.Increasing, Complete, NodesMatch, KeysMatch, EdgesSound, EdgesComplete, Reading, Hops, Walk.Valid,
      LostIds, Walk.Barred;
  }

  lemma LayerInTurn(w: Walk, s: Progress, d: nat, fronts: seq<seq<string>>, offered: seq<GraphEdge>, hops: seq<Hop>, next: set<string>,
                    excluded: set<string>, ids: seq<string>, t: Progress, lostNodes: nat, lostEdges: nat)
    requires w.Valid() && Sound(w, s, d) && InTurn(w, s, d, fronts, offered)
    requires Ran(w, s, d, offered, hops, next, excluded, ids, t, lostNodes, lostEdges)
    ensures InTurn(w, t, d + 1, fronts + [s.frontier], offered + OfferedEdges(hops, excluded))
  {
    RanGrown(w, s, d, offered, hops, next, excluded, ids, t, lostNodes, lostEdges);
    RanInOrder(w, s, d, offered, hops, next, excluded, ids, t, lostNodes, lostEdges);
    hide Ran, Sound, Walking, NextIs, SameIds, InOrder, Grown, TookAll, Lex.Increasing, Complete, FrontsAre, NearestFirst, OfferedFrom,
      OfferedEdges, Unbarred, Hops, Walk.Barred;
    FrontsGrow(w, s.visited, s.frontier, hops, d, fronts, t.visited, t.frontier);
    NearestFirstGrows(w, s.visited, s.frontier, hops, next, ids, d, t.visited, t.frontier);
    HopsUnbarred(w, s.frontier, hops, s.visited, d, excluded);
    OfferedSnoc(w, fronts, s.frontier);
  }

  // ------------------------------------------------------------- counters

  /** Why a candidate is no node of the result. */
  datatype Fate = Truncated | ByType | ByRegion

  predicate Meets(w: Walk, fate: Fate, v: string) {
    match fate
    case Truncated => w.Admits(v)
    case ByType => w.Barred(v) && TypeBarred(w, v)
    case ByRegion => w.Barred(v) && !TypeBarred(w, v)
  }

  /** A neighbour of an expanded node at level c that met its fate. */
  ghost predicate Met(w: Walk, visited: Levels, fate: Fate, v: string, c: nat) {
    Meets(w, fate, v) && v !in visited && exists u :: u in visited && visited[u] == c && w.Expands(u) && w.Step(u, v)
  }

  /** Them all, once for every level they were met from. */
  ghost function AllMet(w: Walk, visited: Levels, d: nat, fate: Fate): set<(string, nat)> {
    set v, c: nat | v in w.g.nodes && c < d && Met(w, visited, fate, v, c) :: (v, c)
  }

  ghost function NowMet(w: Walk, next: set<string>, visited': Levels, fate: Fate): set<string> {
    set v | v in next && Meets(w, fate, v) && v !in visited'
  }

  lemma MetInLayer(w: Walk, visited: Levels, frontier: seq<string>, hops: seq<Hop>, next: set<string>, d: nat, visited': Levels,
                   frontier': seq<string>, fate: Fate, v: string, c: nat)
    requires w.Valid() && hops == Hops(w.g.rels, frontier, w.dir, w.kinds) && NextIs(hops, visited, next)
    requires Walking(w, visited, frontier, d) && Grown(w, hops, visited, d, visited', frontier')
    requires (forall v, c: nat :: c < d && Met(w, visited, fate, v, c) ==> v !in visited') && c <= d
    ensures Met(w, visited', fate, v, c) <==> if c < d then Met(w, visited, fate, v, c) else v in NowMet(w, next, visited', fate)
  {
    assert Meets(w, fate, v) ==> v != "";
    hide Layered, Meets, Walk.Admits, Walk.Barred, Walk.Expands, Walk.Valid, Walk.Step, Hops;
    if c < d {
      assert forall u :: u in visited' && visited'[u] == c <==> u in visited && visited[u] == c;
    } else {
      assert forall u :: u in visited' && visited'[u] == d && w.Expands(u) <==> u in frontier;
      if Met(w, visited', fate, v, c) {
        var u :| u in frontier && w.Step(u, v);
        StepGives(w, frontier, hops, u, v);
      }
      if v in NowMet(w, next, visited', fate) {
        var h :| h in hops && h.neighbour == v;
        HopGives(w, frontier, hops, h);
      }
    }
  }

  lemma {:induction false} PairsCount(s: set<string>, d: nat)
    ensures |set v | v in s :: (v, d)| == |s|
  {
    if s != {} {
      var x :| x in s;
      PairsCount(s - {x}, d);
      assert (set v | v in s :: (v, d)) == (set v | v in s - {x} :: (v, d)) + {(x, d)};
    }
  }

  lemma MeetsStored(w: Walk, fate: Fate, v: string)
    requires Meets(w, fate, v)
    ensures v in w.g.nodes
  {
  }

  /** One layer adds the candidates that met their fate in it. */
  lemma MetAdds(w: Walk, visited: Levels, frontier: seq<string>, hops: seq<Hop>, next: set<string>, d: nat, visited': Levels,
                frontier': seq<string>, fate: Fate)
    requires w.Valid() && hops == Hops(w.g.rels, frontier, w.dir, w.kinds) && NextIs(hops, visited, next)
    requires Walking(w, visited, frontier, d) && Grown(w, hops, visited, d, visited', frontier')
    requires forall v, c: nat :: c < d && Met(w, visited, fate, v, c) ==> v !in visited'
    ensures |AllMet(w, visited', d + 1, fate)| == |AllMet(w, visited, d, fate)| + |NowMet(w, next, visited', fate)|
  {
    var now := NowMet(w, next, visited', fate);
    var before, after := AllMet(w, visited, d, fate), AllMet(w, visited', d + 1, fate);
    hide Met, NowMet, AllMet, Walking, Grown, NextIs, Walk.Valid, Hops;
    forall v, c: nat
      ensures (v, c) in after <==> (v, c) in before || (v in now && c == d)
      ensures (v, c) in before ==> c < d
    {
      PairAdds(w, visited, frontier, hops, next, d, visited', frontier', fate, v, c);
    }
    PairsCount(now, d);
    PairedUnion(before, after, now, d);
  }

  lemma PairedUnion(before: set<(string, nat)>, after: set<(string, nat)>, now: set<string>, d: nat)
    requires forall v, c :: (v, c) in after <==> (v, c) in before || (v in now && c == d)
    requires forall v, c :: (v, c) in before ==> c < d
    ensures |after| == |before| + |set v | v in now :: (v, d)|
  {
    var paired := set v | v in now :: (v, d);
    forall p ensures p in after <==> p in before + paired {
      assert p == (p.0, p.1);
    }
    assert after == before + paired && before * paired == {};
  }

  lemma PairAdds(w: Walk, visited: Levels, frontier: seq<string>, hops: seq<Hop>, next: set<string>, d: nat, visited': Levels,
                 frontier': seq<string>, fate: Fate, v: string, c: nat)
    requires w.Valid() && hops == Hops(w.g.rels, frontier, w.dir, w.kinds) && NextIs(hops, visited, next)
    requires Walking(w, visited, frontier, d) && Grown(w, hops, visited, d, visited', frontier')
    requires forall v, c: nat :: c < d && Met(w, visited, fate, v, c) ==> v !in visited'
    ensures (v, c) in AllMet(w, visited', d + 1, fate) <==> (v, c) in AllMet(w, visited, d, fate) || (v in NowMet(w, next, visited', fate) && c == d)
    ensures (v, c) in AllMet(w, visited, d, fate) ==> c < d
  {
    if c <= d {
      MetInLayer(w, visited, frontier, hops, next, d, visited', frontier', fate, v, c);
    }
    if v in NowMet(w, next, visited', fate) {
      MeetsStored(w, fate, v);
    }
    hide Met, NowMet, Walking, Grown, NextIs, Walk.Valid, Hops;
  }

  /** What was left out stays out. */
  lemma MetStays(w: Walk, visited: Levels, frontier: seq<string>, hops: seq<Hop>, d: nat, visited': Levels, frontier': seq<string>,
                 fate: Fate)
    requires Walking(w, visited, frontier, d) && Grown(w, hops, visited, d, visited', frontier')
    requires !Complete(w, visited, d) ==> visited' == visited
    ensures forall v, c: nat :: c < d && Met(w, visited, fate, v, c) ==> v !in visited'
  {
    hide Walk.Step, Walk.Expands;
    forall v, c: nat | c < d && Met(w, visited, fate, v, c) ensures v !in visited' {
      if fate == Truncated {
        assert !Complete(w, visited, d);
      } else {
        NeverBoth(w, v);
      }
    }
  }

  lemma NeverBoth(w: Walk, v: string)
    requires w.Barred(v)
    ensures !w.Admits(v)
  {
  }

  /** The counter of the node loop. */
  lemma {:induction false} LostIdsCount(w: Walk, ids: seq<string>, visited: Levels)
    requires forall i, j :: 0 <= i < j < |ids| ==> ids[i] != ids[j]
    ensures LostIds(w, ids, visited) == |LostSet(w, ids, visited)|
  {
    assert ids == [] ==> LostSet(w, ids, visited) == {};
    hide Walk.Admits, LostSet;
    if ids != [] {
      var init, last := ids[..|ids|-1], ids[|ids|-1];
      LostIdsCount(w, init, visited);
      LostSetSnoc(w, init, last, visited);
      assert ids == init + [last];
    }
  }

  function LostSet(w: Walk, ids: seq<string>, visited: Levels): set<string> {
    set v | v in ids && w.Admits(v) && v !in visited
  }

  lemma LostSetSnoc(w: Walk, ids: seq<string>, id: string, visited: Levels)
    requires id !in ids
    ensures |LostSet(w, ids + [id], visited)| == |LostSet(w, ids, visited)| + if w.Admits(id) && id !in visited then 1 else 0
  {
    hide Walk.Admits;
    assert LostSet(w, ids + [id], visited) == LostSet(w, ids, visited) + if w.Admits(id) && id !in visited then {id} else {};
  }

  /** Where in a list of edges one stands whose key is not recorded. */
  ghost function Missing(offered: seq<GraphEdge>, edges: seq<GraphEdge>): set<nat> {
    set i: nat | i < |offered| && !Firsts.HasKey(EdgeKey, edges, EdgeKey(offered[i]))
  }

  lemma MissingSnoc(offered: seq<GraphEdge>, e: GraphEdge, edges: seq<GraphEdge>)
    ensures |Missing(offered + [e], edges)| == |Missing(offered, edges)| + if Firsts.HasKey(EdgeKey, edges, EdgeKey(e)) then 0 else 1
  {
    hide EdgeKey, Firsts.HasKey;
    assert Missing(offered + [e], edges) ==
      Missing(offered, edges) + if Firsts.HasKey(EdgeKey, edges, EdgeKey(e)) then {} else {|offered|};
  }

  lemma {:induction false} MissingAdds(offered: seq<GraphEdge>, hops: seq<Hop>, excluded: set<string>, edges: seq<GraphEdge>, seen: set<string>)
    requires KeysMatch(edges, seen)
    ensures |Missing(offered + OfferedEdges(hops, excluded), edges)| == |Missing(offered, edges)| + Lost(hops, excluded, seen)
  {
    SeenKeys(edges, seen);
    hide EdgeKey, Firsts.HasKey, KeysMatch, Missing;
    if hops == [] {
      assert offered + OfferedEdges(hops, excluded) == offered;
    } else {
      var init, h := hops[..|hops|-1], hops[|hops|-1];
      MissingAdds(offered, init, excluded, edges, seen);
      if Offered(h, excluded) {
        assert offered + OfferedEdges(hops, excluded) == offered + OfferedEdges(init, excluded) + [EdgeOf(h)];
        assert Firsts.HasKey(EdgeKey, edges, EdgeKey(EdgeOf(h))) <==> EdgeKey(EdgeOf(h)) in seen;
        MissingSnoc(offered + OfferedEdges(init, excluded), EdgeOf(h), edges);
      } else {
        assert OfferedEdges(hops, excluded) == OfferedEdges(init, excluded);
      }
    }
  }

  lemma NoneMissingLater(offered: seq<GraphEdge>, edges: seq<GraphEdge>, more: seq<GraphEdge>)
    requires |Missing(offered, edges)| == 0 && edges <= more
    ensures |Missing(offered, more)| == 0
  {
    hide EdgeKey;
    forall i: nat | i < |offered| ensures Firsts.HasKey(EdgeKey, more, EdgeKey(offered[i])) {
      assert i !in Missing(offered, edges);
      var k :| 0 <= k < |edges| && EdgeKey(edges[k]) == EdgeKey(offered[i]);
      assert more[k] == edges[k];
    }
    assert Missing(offered, more) == {};
  }

  /** Each counter is the number of what it counts. */
  ghost predicate Counted(w: Walk, s: Progress, d: nat, offered: seq<GraphEdge>) {
    && s.truncatedNodes == |AllMet(w, s.visited, d, Truncated)| && s.excludedTypes == |AllMet(w, s.visited, d, ByType)|
    && s.excludedRegions == |AllMet(w, s.visited, d, ByRegion)| && s.truncatedEdges == |Missing(offered, s.edges)|
  }

  lemma RanCounts(w: Walk, s: Progress, d: nat, offered: seq<GraphEdge>, hops: seq<Hop>, next: set<string>, excluded: set<string>,
                  ids: seq<string>, t: Progress, lostNodes: nat, lostEdges: nat)
    requires w.Valid() && Sound(w, s, d) && Ran(w, s, d, offered, hops, next, excluded, ids, t, lostNodes, lostEdges)
    ensures t.truncatedNodes == s.truncatedNodes + LostIds(w, ids, t.visited) && Lex.Increasing(ids)
    ensures t.truncatedEdges == s.truncatedEdges + Lost(hops, excluded, t.seen)
    ensures t.excludedTypes == s.excludedTypes + |Tally(w, next, true)| && t.excludedRegions == s.excludedRegions + |Tally(w, next, false)|
    ensures KeysMatch(t.edges, t.seen) && s.edges <= t.edges && (s.truncatedEdges > 0 ==> t.edges == s.edges)
  {
    hide Walking, NextIs, SameIds, Complete, NodesMatch, KeysMatch, EdgesSound, EdgesComplete, Hops, Walk.Valid, LostIds, Lost, Tally,
      Walk.Barred, Lex.Increasing, InOrder, OfferedEdges, FirstsOf, Cut, Whole, FromHop;
  }

  lemma LayerCounted(w: Walk, s: Progress, d: nat, offered: seq<GraphEdge>, hops: seq<Hop>, next: set<string>, excluded: set<string>,
                     ids: seq<string>, t: Progress, lostNodes: nat, lostEdges: nat)
    requires w.Valid() && Sound(w, s, d) && Counted(w, s, d, offered)
    requires Ran(w, s, d, offered, hops, next, excluded, ids, t, lostNodes, lostEdges)
    ensures Counted(w, t, d + 1, offered + OfferedEdges(hops, excluded))
  {
    hide Ran, Sound, Walking, NextIs, SameIds, InOrder, Grown, TookAll, Lex.Increasing, Complete, OfferedEdges, Hops, Walk.Barred, AllMet,
      Missing, Lost, LostIds, Tally, KeysMatch, Walk.Valid;
    RanCounts(w, s, d, offered, hops, next, excluded, ids, t, lostNodes, lostEdges);
    RanMet(w, s, d, offered, hops, next, excluded, ids, t, lostNodes, lostEdges);
    DropsCounted(offered, s.edges, s.truncatedEdges, hops, excluded, t.edges, t.seen);
  }

  lemma RanMet(w: Walk, s: Progress, d: nat, offered: seq<GraphEdge>, hops: seq<Hop>, next: set<string>, excluded: set<string>,
               ids: seq<string>, t: Progress, lostNodes: nat, lostEdges: nat)
    requires w.Valid() && Sound(w, s, d) && Ran(w, s, d, offered, hops, next, excluded, ids, t, lostNodes, lostEdges)
    ensures |AllMet(w, t.visited, d + 1, Truncated)| == |AllMet(w, s.visited, d, Truncated)| + LostIds(w, ids, t.visited)
    ensures |AllMet(w, t.visited, d + 1, ByType)| == |AllMet(w, s.visited, d, ByType)| + |Tally(w, next, true)|
    ensures |AllMet(w, t.visited, d + 1, ByRegion)| == |AllMet(w, s.visited, d, ByRegion)| + |Tally(w, next, false)|
  {
    hide Ran, Sound, Walking, NextIs, SameIds, InOrder, Grown, TookAll, Lex.Increasing, Complete, Hops, Walk.Barred, AllMet, LostIds, Tally,
      KeysMatch, Walk.Valid;
    RanGrown(w, s, d, offered, hops, next, excluded, ids, t, lostNodes, lostEdges);
    RanInOrder(w, s, d, offered, hops, next, excluded, ids, t, lostNodes, lostEdges);
    RanCounts(w, s, d, offered, hops, next, excluded, ids, t, lostNodes, lostEdges);
    LayerMet(w, s.visited, s.frontier, hops, next, ids, d, t.visited, t.frontier);
  }

  lemma DropsCounted(offered: seq<GraphEdge>, edges: seq<GraphEdge>, truncated: nat, hops: seq<Hop>, excluded: set<string>,
                     edges': seq<GraphEdge>, seen': set<string>)
    requires truncated == |Missing(offered, edges)| && KeysMatch(edges', seen') && edges <= edges' && (truncated > 0 ==> edges' == edges)
    ensures |Missing(offered + OfferedEdges(hops, excluded), edges')| == truncated + Lost(hops, excluded, seen')
  {
    hide Missing, KeysMatch, OfferedEdges, Lost;
    if truncated == 0 {
      NoneMissingLater(offered, edges, edges');
    }
    MissingAdds(offered, hops, excluded, edges', seen');
  }

  lemma LayerMet(w: Walk, visited: Levels, frontier: seq<string>, hops: seq<Hop>, next: set<string>, ids: seq<string>, d: nat,
                 visited': Levels, frontier': seq<string>)
    requires w.Valid() && hops == Hops(w.g.rels, frontier, w.dir, w.kinds) && NextIs(hops, visited, next)
    requires Walking(w, visited, frontier, d) && Grown(w, hops, visited, d, visited', frontier')
    requires SameIds(ids, next) && Lex.Increasing(ids) && (!Complete(w, visited, d) ==> visited' == visited)
    ensures |AllMet(w, visited', d + 1, Truncated)| == |AllMet(w, visited, d, Truncated)| + LostIds(w, ids, visited')
    ensures |AllMet(w, visited', d + 1, ByType)| == |AllMet(w, visited, d, ByType)| + |Tally(w, next, true)|
    ensures |AllMet(w, visited', d + 1, ByRegion)| == |AllMet(w, visited, d, ByRegion)| + |Tally(w, next, false)|
  {
    hide NextIs, Walking, Grown, SameIds, Lex.Increasing, Complete, LostIds, Tally, AllMet, NowMet, Met, Hops, Walk.Valid;
    forall fate ensures |AllMet(w, visited', d + 1, fate)| == |AllMet(w, visited, d, fate)| + |NowMet(w, next, visited', fate)| {
      MetStays(w, visited, frontier, hops, d, visited', frontier', fate);
      MetAdds(w, visited, frontier, hops, next, d, visited', frontier', fate);
    }
    NowCounted(w, visited, frontier, hops, next, ids, d, visited', frontier');
  }

  /** The tallies of one layer. */
  lemma NowCounted(w: Walk, visited: Levels, frontier: seq<string>, hops: seq<Hop>, next: set<string>, ids: seq<string>, d: nat, visited': Levels,
                   frontier': seq<string>)
    requires Grown(w, hops, visited, d, visited', frontier') && NextIs(hops, visited, next) && SameIds(ids, next) && Lex.Increasing(ids)
    ensures LostIds(w, ids, visited') == |NowMet(w, next, visited', Truncated)|
    ensures |Tally(w, next, true)| == |NowMet(w, next, visited', ByType)| && |Tally(w, next, false)| == |NowMet(w, next, visited', ByRegion)|
  {
    forall i, j | 0 <= i < j < |ids| ensures ids[i] != ids[j] {
      Lex.Irreflexive(ids[i]);
    }
    LostIdsCount(w, ids, visited');
    hide LostIds, TypeBarred, Lex.Increasing;
    forall v | v in next && w.Barred(v) ensures v !in visited' {
      NeverBoth(w, v);
    }
    hide Walk.Admits, Walk.Barred, Walk.Expands, Grown, NextIs;
    assert NowMet(w, next, visited', Truncated) == LostSet(w, ids, visited');
    assert NowMet(w, next, visited', ByType) == Tally(w, next, true);
    assert NowMet(w, next, visited', ByRegion) == Tally(w, next, false);
  }

  lemma NothingCounted(w: Walk)
    ensures w.seed in w.g.nodes ==>
      Counted(w, Progress(map[w.seed := 0], [GraphNode(w.g.nodes[w.seed], 0)], [], {}, [w.seed], 0, 0, 0, 0), 0, [])
  {
    forall fate ensures AllMet(w, map[w.seed := 0], 0, fate) == {} {
    }
    assert Missing([], []) == {};
  }

  lemma NothingInTurn(w: Walk)
    requires w.Valid()
    ensures InTurn(w, Progress(map[w.seed := 0], [GraphNode(w.g.nodes[w.seed], 0)], [], {}, [w.seed], 0, 0, 0, 0), 0, [], [])
  {
    hide Walk.Step, Walk.Admits;
  }

  lemma NothingOffered(w: Walk)
    ensures Offers(w, Progress(map[w.seed := 0], [GraphNode(w.g.nodes[w.seed], 0)], [], {}, [w.seed], 0, 0, 0, 0), 0, [])
    requires w.Valid()
  {
    hide EdgeJoins, EdgeKey;
  }

  /** When the loop ends early, nothing more would have been offered. */
  lemma SeenAtFullDepth(w: Walk, s: Progress, d: nat, e: GraphEdge)
    requires Walking(w, s.visited, s.frontier, d) && d <= w.maxDepth && (d == w.maxDepth || s.frontier == [])
    ensures SeenEdge(w, s.visited, d, e) <==> SeenEdge(w, s.visited, w.maxDepth, e)
  {
    hide Excluded, Joined, EdgeJoins, Layered, Complete;
    if SeenEdge(w, s.visited, d, e) {
      var u, v :| SeenFrom(w, s.visited, d, e, u, v);
      assert SeenFrom(w, s.visited, w.maxDepth, e, u, v);
    }
    if SeenEdge(w, s.visited, w.maxDepth, e) {
      var u, v :| SeenFrom(w, s.visited, w.maxDepth, e, u, v);
      assert u !in s.frontier ==> s.visited[u] < d;
      assert SeenFrom(w, s.visited, d, e, u, v);
    }
  }

  lemma TookAllExact(w: Walk, hops: seq<Hop>, visited: Levels, next: set<string>, ids: seq<string>, visited': Levels)
    requires NextIs(hops, visited, next)
    requires (forall v :: v in ids <==> v in next) && visited.Keys <= visited'.Keys
    ensures TookAll(w, hops, visited') <==> LostIds(w, ids, visited') == 0
  {
    hide Excluded, LostIds;
    NoIdsLost(w, ids, visited');
    if v :| v in ids && w.Admits(v) && v !in visited' {
      var h :| h in hops && h.neighbour == v;
      assert !TookAll(w, hops, visited');
    }
  }

  lemma BarredNext(w: Walk, hops: seq<Hop>, visited: Levels, next: set<string>, excluded: set<string>)
    requires NextIs(hops, visited, next)
    requires excluded == set v | v in next && w.Barred(v)
    ensures forall v, h :: h in hops && h.neighbour == v && v !in visited && w.Barred(v) ==> v in excluded
    ensures forall v :: v in excluded ==> v !in visited && w.Barred(v)
  {
    hide Excluded;
  }

  lemma StartIsSound(w: Walk)
    requires w.Valid()
    ensures Sound(w, Progress(map[w.seed := 0], [GraphNode(w.g.nodes[w.seed], 0)], [], {}, [w.seed], 0, 0, 0, 0), 0)
  {
    hide Excluded, Joined;
    var visited: Levels := map[w.seed := 0];
    var nodes := [GraphNode(w.g.nodes[w.seed], 0)];
    assert NodesMatch(w, visited, nodes) by {
      assert nodes[0].resource.id == w.seed;
    }
  }

  lemma CompleteBelow(w: Walk, visited: Levels, d: nat, d': nat)
    requires d <= d' && Complete(w, visited, d')
    ensures Complete(w, visited, d)
  {
    hide Joined, Excluded;
  }

  /** When the loop ends early nothing was left to expand: the state holds at the full
      depth as well. */
  lemma SoundAtFullDepth(w: Walk, s: Progress, d: nat)
    requires Sound(w, s, d) && d <= w.maxDepth && (d == w.maxDepth || s.frontier == [])
    ensures Layered(w, s.visited) && Within(s.visited, w.maxDepth)
    ensures s.truncatedNodes == 0 <==> Complete(w, s.visited, w.maxDepth)
    ensures EdgesSound(w, s.visited, w.maxDepth, s.edges)
    ensures s.truncatedEdges == 0 <==> EdgesComplete(w, s.visited, w.maxDepth, s.seen)
  {
    hide Excluded, Joined, EdgeJoins, KeysMatch, NodesMatch, Layered, Complete, EdgeKey;
    if Complete(w, s.visited, w.maxDepth) {
      CompleteBelow(w, s.visited, d, w.maxDepth);
    } else if Complete(w, s.visited, d) && d < w.maxDepth {
      ExhaustedIsComplete(w, s.visited, d, w.maxDepth);
    }
    hide SeenEdge;
    forall e ensures SeenEdge(w, s.visited, d, e) <==> SeenEdge(w, s.visited, w.maxDepth, e) {
      SeenAtFullDepth(w, s, d, e);
    }
  }

  /** What every walk returns, whatever its caps. */
  ghost predicate WellFormed(w: Walk, visited: Levels, r: WalkResult) {
    && r.Walked?
    && NodesMatch(w, visited, r.nodes) && Layered(w, visited) && Within(visited, w.maxDepth)
    && Sorting.SortedBy(NodeLess, r.nodes) && Sorting.SortedBy(EdgeLess, r.edges)
    && (forall e :: e in r.edges ==> EndsIn(visited, e) && SeenEdge(w, visited, w.maxDepth, e))
    && (w.maxNodes > 0 ==> |r.nodes| <= w.maxNodes) && (w.maxEdges > 0 ==> |r.edges| <= w.maxEdges)
  }

  /** The nodes are exactly those within the depth, each at its distance. */
  ghost predicate AllNodes(w: Walk, visited: Levels) {
    forall v :: (v in visited <==> exists p :: Reaches(w, p, v) && |p| - 1 <= w.maxDepth)
      && (v in visited ==> IsDistance(w, v, visited[v]))
  }

  /** The edges are exactly those seen from expanded nodes with both ends admitted. */
  ghost predicate AllEdges(w: Walk, visited: Levels, edges: seq<GraphEdge>) {
    forall e :: e in edges <==> EndsIn(visited, e) && SeenEdge(w, visited, w.maxDepth, e)
  }

  lemma RecordedUnlessClash(w: Walk, visited: Levels, edges: seq<GraphEdge>, seen: set<string>, e: GraphEdge)
    requires KeysMatch(edges, seen) && EdgesSound(w, visited, w.maxDepth, edges) && ClashFree(w, visited)
    requires EdgesComplete(w, visited, w.maxDepth, seen) && SeenEdge(w, visited, w.maxDepth, e)
    ensures e in edges
  {
    hide EdgeKey, SeenEdge;
    var i :| 0 <= i < |edges| && EdgeKey(edges[i]) == EdgeKey(e);
    assert SeenEdge(w, visited, w.maxDepth, edges[i]);
  }

  /** Every relationship joins two resources that exist. */
  ghost predicate EndsExist(g: Graph) {
    forall r :: r in g.rels ==> r.from != "" && r.to != "" && r.from in g.nodes && r.to in g.nodes
  }

  /** Then a walk that lost no node admits both ends of every edge it sees. */
  lemma SeenEndsAdmitted(w: Walk, visited: Levels, e: GraphEdge)
    requires EndsExist(w.g) && Layered(w, visited) && Complete(w, visited, w.maxDepth)
    requires SeenEdge(w, visited, w.maxDepth, e)
    ensures EndsIn(visited, e)
  {
    hide Excluded;
    var u, v :| SeenFrom(w, visited, w.maxDepth, e, u, v);
    var r :| HopIs(w.g.rels, w.dir, w.kinds, u, v, r) && e == GraphEdge(r.from, r.to, r.kind);
    assert w.Step(u, v);
    assert v == w.seed || w.Admits(v);
  }

  /** Distinct keys in a result that holds every seen edge leave no room for a clash or a
      lost edge. */
  lemma AllEdgesOnlyWithoutClash(w: Walk, visited: Levels, s: Progress, edges: seq<GraphEdge>)
    requires EndsExist(w.g) && Layered(w, visited) && Complete(w, visited, w.maxDepth)
    requires KeysMatch(s.edges, s.seen) && forall e :: e in edges ==> e in s.edges
    requires AllEdges(w, visited, edges)
    ensures ClashFree(w, visited) && EdgesComplete(w, visited, w.maxDepth, s.seen)
  {
    hide EdgeKey, SeenEdge, Layered, Complete;
    forall e | SeenEdge(w, visited, w.maxDepth, e) ensures e in s.edges && EdgeKey(e) in s.seen {
      SeenEndsAdmitted(w, visited, e);
      var i :| 0 <= i < |s.edges| && s.edges[i] == e;
    }
    forall e, f | SeenEdge(w, visited, w.maxDepth, e) && SeenEdge(w, visited, w.maxDepth, f) && EdgeKey(e) == EdgeKey(f)
      ensures e == f
    {
      var i :| 0 <= i < |s.edges| && s.edges[i] == e;
      var j :| 0 <= j < |s.edges| && s.edges[j] == f;
    }
  }

  /** The nodes are all there only in a complete walk. */
  lemma AllNodesComplete(w: Walk, visited: Levels)
    requires Layered(w, visited) && AllNodes(w, visited)
    ensures Complete(w, visited, w.maxDepth)
  {
    hide Joined, Excluded, Layered;
    forall u, v | u in visited && visited[u] < w.maxDepth && w.Expands(u) && w.Step(u, v) && w.Admits(v)
      ensures v in visited && visited[v] <= visited[u] + 1
    {
      var t := LevelPath(w, visited, u);
      hide Walk.Admits;
      OneStepFurther(w, t, u, v);
      hide Reaches;
      assert IsDistance(w, v, visited[v]);
    }
  }

  lemma OneStepFurther(w: Walk, t: seq<string>, u: string, v: string)
    requires Reaches(w, t, u) && w.Expands(u) && w.Step(u, v) && w.Admits(v)
    ensures Reaches(w, t + [v], v)
  {
    hide Joined, Excluded;
    var p := t + [v];
    forall i | 0 <= i < |p| - 1 ensures w.Step(p[i], p[i+1]) && w.Expands(p[i]) {
      assert i < |t| - 1 ==> p[i] == t[i] && p[i+1] == t[i+1];
    }
  }

  lemma DistinctByKey(edges: seq<GraphEdge>, seen: set<string>)
    requires KeysMatch(edges, seen)
    ensures forall i, j :: 0 <= i < j < |edges| ==> edges[i] != edges[j]
  {
    hide EdgeKey;
  }

  /** Dropping and reordering edges keeps their keys distinct. */
  lemma SubsetKeysDistinct(edges: seq<GraphEdge>, seen: set<string>, sub: seq<GraphEdge>)
    requires KeysMatch(edges, seen) && Sorting.SortedBy(EdgeLess, sub) && forall e :: e in sub ==> e in edges
    ensures forall i, j :: 0 <= i < j < |sub| ==> EdgeKey(sub[i]) != EdgeKey(sub[j])
  {
    hide EdgeKey;
    forall i, j | 0 <= i < j < |sub| ensures EdgeKey(sub[i]) != EdgeKey(sub[j]) {
      assert EdgeLess(sub[i], sub[j]);
      EdgeLessIrreflexive(sub[i]);
      assert sub[i] in edges && sub[j] in edges;
      var a :| 0 <= a < |edges| && edges[a] == sub[i];
      var b :| 0 <= b < |edges| && edges[b] == sub[j];
    }
  }

  lemma EdgeLessIrreflexive(e: GraphEdge)
    ensures !EdgeLess(e, e)
  {
    Lex.Irreflexive(e.to);
  }

  /** What the counters and the edge keys say of the result: no node was truncated
      exactly when all nodes are there; with no edge truncated and no clash all edges are
      there, and where every end exists and no node was truncated, only then. */
  ghost predicate TellsWhatIsMissing(w: Walk, visited: Levels, r: WalkResult)
    requires r.Walked?
  {
    && (w.maxNodes <= 0 ==> r.truncatedNodes == 0) && (w.maxEdges <= 0 ==> r.truncatedEdges == 0)
    && (r.truncatedNodes == 0 <==> AllNodes(w, visited))
    && (r.truncatedEdges == 0 && ClashFree(w, visited) ==> AllEdges(w, visited, r.edges))
    && (EndsExist(w.g) && r.truncatedNodes == 0 && AllEdges(w, visited, r.edges) ==>
          r.truncatedEdges == 0 && ClashFree(w, visited))
  }

  /** What GraphWalk promises of its result. */
  ghost predicate Answers(w: Walk, visited: Levels, r: WalkResult) {
    && WellFormed(w, visited, r) && TellsWhatIsMissing(w, visited, r)
    && forall i, j :: 0 <= i < j < |r.edges| ==> EdgeKey(r.edges[i]) != EdgeKey(r.edges[j])
  }

  /** The end of the walk: prune, then order nodes and edges. */
  method Finish(w: Walk, s: Progress, ghost d: nat) returns (r: WalkResult)
    requires w.Valid() && Sound(w, s, d) && d <= w.maxDepth && (d == w.maxDepth || s.frontier == [])
    ensures Answers(w, s.visited, r)
    ensures r.Walked? && r.truncatedEdges == s.truncatedEdges && forall e :: e in r.edges <==> e in s.edges && EndsIn(s.visited, e)
    ensures r.truncatedNodes == s.truncatedNodes && r.excludedTypes == s.excludedTypes && r.excludedRegions == s.excludedRegions
  {
    SoundAtFullDepth(w, s, d);
    SoundParts(w, s, d);
    hide *;
    DistinctByKey(s.edges, s.seen);
    var kept := PruneDanglingEdges(s.edges, s.visited);
    NodeOrder(w, s.visited, s.nodes);
    var nodes := Sorting.Sort(NodeLess, s.nodes);
    SortedNodesMatch(w, s.visited, s.nodes, nodes);
    EdgeOrder(kept);
    var edges := Sorting.Sort(EdgeLess, kept);
    SubsetKeysDistinct(s.edges, s.seen, edges);
    r := Walked(nodes, edges, s.truncatedNodes, s.truncatedEdges, s.excludedTypes, s.excludedRegions);
    FinishWellFormed(w, s, d, r);
    FinishTells(w, s, r);
  }

  lemma SoundParts(w: Walk, s: Progress, d: nat)
    requires Sound(w, s, d)
    ensures NodesMatch(w, s.visited, s.nodes) && KeysMatch(s.edges, s.seen)
    ensures (w.maxNodes <= 0 ==> s.truncatedNodes == 0) && (w.maxEdges <= 0 ==> s.truncatedEdges == 0)
  {
  }

  lemma FinishWellFormed(w: Walk, s: Progress, d: nat, r: WalkResult)
    requires Sound(w, s, d) && r.Walked? && NodesMatch(w, s.visited, r.nodes)
    requires Sorting.SortedBy(NodeLess, r.nodes) && Sorting.SortedBy(EdgeLess, r.edges)
    requires Layered(w, s.visited) && Within(s.visited, w.maxDepth) && EdgesSound(w, s.visited, w.maxDepth, s.edges)
    requires |r.nodes| == |s.nodes| && |r.edges| <= |s.edges|
    requires forall e :: e in r.edges <==> e in s.edges && EndsIn(s.visited, e)
    ensures WellFormed(w, s.visited, r)
  {
    hide NodesMatch, Layered, Within, SeenEdge, NodeLess, EdgeLess, EndsIn, EdgesSound, Complete, EdgesComplete, KeysMatch;
    RecordedSeen(w, s.visited, s.edges);
  }

  lemma FinishTells(w: Walk, s: Progress, r: WalkResult)
    requires r.Walked? && r.truncatedNodes == s.truncatedNodes && r.truncatedEdges == s.truncatedEdges
    requires Layered(w, s.visited) && Within(s.visited, w.maxDepth) && KeysMatch(s.edges, s.seen)
    requires EdgesSound(w, s.visited, w.maxDepth, s.edges)
    requires forall e :: e in r.edges <==> e in s.edges && EndsIn(s.visited, e)
    requires s.truncatedNodes == 0 <==> Complete(w, s.visited, w.maxDepth)
    requires s.truncatedEdges == 0 <==> EdgesComplete(w, s.visited, w.maxDepth, s.seen)
    requires (w.maxNodes <= 0 ==> s.truncatedNodes == 0) && (w.maxEdges <= 0 ==> s.truncatedEdges == 0)
    ensures TellsWhatIsMissing(w, s.visited, r)
  {
    hide Layered, Complete, Within, KeysMatch, EdgesComplete, EdgesSound, SeenEdge, ClashFree, EdgeKey, Reaches, IsDistance,
      EndsExist, AllNodes;
    if s.truncatedNodes == 0 {
      AllNodesOf(w, s.visited);
    } else if AllNodes(w, s.visited) {
      AllNodesComplete(w, s.visited);
    }
    if s.truncatedEdges == 0 && ClashFree(w, s.visited) {
      forall e | EndsIn(s.visited, e) && SeenEdge(w, s.visited, w.maxDepth, e) ensures e in r.edges {
        RecordedUnlessClash(w, s.visited, s.edges, s.seen, e);
      }
      RecordedSeen(w, s.visited, s.edges);
    } else if s.truncatedNodes == 0 && EndsExist(w.g) && AllEdges(w, s.visited, r.edges) {
      AllEdgesOnlyWithoutClash(w, s.visited, s, r.edges);
    }
  }

  lemma AllNodesOf(w: Walk, visited: Levels)
    requires Layered(w, visited) && Complete(w, visited, w.maxDepth) && Within(visited, w.maxDepth)
    ensures AllNodes(w, visited)
  {
    hide Layered, Complete, Within, Reaches, IsDistance;
    forall v
      ensures v in visited <==> exists p :: Reaches(w, p, v) && |p| - 1 <= w.maxDepth
      ensures v in visited ==> IsDistance(w, v, visited[v])
    {
      NodesExact(w, visited, v);
    }
  }

  lemma RecordedSeen(w: Walk, visited: Levels, edges: seq<GraphEdge>)
    requires EdgesSound(w, visited, w.maxDepth, edges)
    ensures forall e :: e in edges ==> SeenEdge(w, visited, w.maxDepth, e)
  {
    hide SeenEdge;
  }

  // --------------------------------------------------- as the options say it

  /** A node whose relationships are followed: the seed, and what is not provider-managed
      or, if managed nodes are included, every stored node. */
  predicate Goes(g: Graph, seed: string, opts: WalkOpts, u: string) {
    u == seed || (u in g.nodes && (opts.filter.includeManaged || !g.nodes[u].managed))
  }

  /** A stored node no exclusion names. */
  ghost predicate Allowed(g: Graph, opts: WalkOpts, v: string) {
    v != "" && v in g.nodes && !Names(opts.filter, g.nodes[v])
  }

  /** A stored node other than the seed that some exclusion names. */
  ghost predicate Shut(g: Graph, seed: string, opts: WalkOpts, v: string) {
    v != seed && v != "" && v in g.nodes && Names(opts.filter, g.nodes[v])
  }

  /** A way from the seed along relationships the options allow. */
  ghost predicate WayOf(g: Graph, seed: string, opts: WalkOpts, p: seq<string>) {
    && |p| >= 1 && p[0] == seed
    && (forall i :: 0 <= i < |p| - 1 ==> Connected(g.rels, opts.direction, opts.kinds, p[i], p[i+1]) && Goes(g, seed, opts, p[i]))
    && (forall i :: 1 <= i < |p| ==> Allowed(g, opts, p[i]))
  }

  ghost predicate WayTo(g: Graph, seed: string, opts: WalkOpts, p: seq<string>, v: string) {
    WayOf(g, seed, opts, p) && p[|p|-1] == v
  }

  /** The shortest way to v has d steps. */
  ghost predicate At(g: Graph, seed: string, opts: WalkOpts, v: string, d: int) {
    (exists p :: WayTo(g, seed, opts, p, v) && |p| - 1 == d) && forall p :: WayTo(g, seed, opts, p, v) ==> d <= |p| - 1
  }

  /** The result lists v at depth d. */
  ghost predicate ListedAt(nodes: seq<GraphNode>, v: string, d: nat) {
    exists n :: n in nodes && n.resource.id == v && n.depth == d
  }

  ghost predicate Listed(nodes: seq<GraphNode>, v: string) {
    exists n :: n in nodes && n.resource.id == v
  }

  /** The edge leads from a listed node above the depth limit to a node that is not shut. */
  ghost predicate Sees(g: Graph, seed: string, opts: WalkOpts, nodes: seq<GraphNode>, e: GraphEdge) {
    exists u, v, d :: SeesFrom(g, seed, opts, nodes, e, u, v, d)
  }

  ghost predicate SeesFrom(g: Graph, seed: string, opts: WalkOpts, nodes: seq<GraphNode>, e: GraphEdge, u: string, v: string, d: nat) {
    && ListedAt(nodes, u, d) && d < opts.maxDepth && Goes(g, seed, opts, u) && !Shut(g, seed, opts, v)
    && ConnectedBy(g.rels, opts.direction, opts.kinds, u, v, e)
  }

  /** Every node but the seed hangs from a listed one above it. */
  ghost predicate Hangs(g: Graph, seed: string, opts: WalkOpts, nodes: seq<GraphNode>, v: string, d: nat) {
    if v == seed then d == 0 else Allowed(g, opts, v) && exists u :: HangsFrom(g, seed, opts, nodes, u, v, d)
  }

  ghost predicate HangsFrom(g: Graph, seed: string, opts: WalkOpts, nodes: seq<GraphNode>, u: string, v: string, d: nat) {
    d > 0 && ListedAt(nodes, u, d - 1) && Goes(g, seed, opts, u) && Connected(g.rels, opts.direction, opts.kinds, u, v)
  }

  /** The nodes of a result: stored, each once, hanging together, in (depth, id) order. */
  ghost predicate NodesOf(g: Graph, seed: string, opts: WalkOpts, nodes: seq<GraphNode>) {
    && (forall n :: n in nodes ==> n.resource.id in g.nodes && g.nodes[n.resource.id] == n.resource && n.depth <= opts.maxDepth)
    && (forall v, d :: ListedAt(nodes, v, d) ==> Hangs(g, seed, opts, nodes, v, d))
    && (forall i, j :: 0 <= i < j < |nodes| ==> nodes[i].resource.id != nodes[j].resource.id)
    && (forall i, j :: 0 <= i < j < |nodes| ==> InNodeOrder(nodes[i], nodes[j]))
  }

  /** Its edges, in (from, kind, to) order: those between listed nodes of the first ones
      offered under their texts, up to the cap; the seen edges are what is offered. */
  ghost predicate EdgesOfResult(g: Graph, seed: string, opts: WalkOpts, nodes: seq<GraphNode>, offered: seq<GraphEdge>,
                                edges: seq<GraphEdge>, truncated: nat) {
    && (forall e :: e in offered <==> Sees(g, seed, opts, nodes, e))
    && (forall e :: e in edges <==> e in Cut(FirstsOf(TextOf, offered), opts.maxEdges) && Joins(nodes, e))
    && (forall e :: e in edges ==> First(TextOf, offered, e))
    && (truncated == 0 ==> forall e :: First(TextOf, offered, e) && Joins(nodes, e) ==> e in edges)
    && (forall i, j :: 0 <= i < j < |edges| ==> InEdgeOrder(edges[i], edges[j]))
  }

  ghost predicate Joins(nodes: seq<GraphNode>, e: GraphEdge) {
    Listed(nodes, e.from) && Listed(nodes, e.to)
  }

  function TextOf(e: GraphEdge): string {
    e.from + "|" + e.kind + "|" + e.to
  }

  predicate InNodeOrder(a: GraphNode, b: GraphNode) {
    if a.depth == b.depth then Lex.Less(a.resource.id, b.resource.id) else a.depth < b.depth
  }

  predicate InEdgeOrder(a: GraphEdge, b: GraphEdge) {
    if a.from == b.from then (if a.kind == b.kind then Lex.Less(a.to, b.to) else Lex.Less(a.kind, b.kind)) else Lex.Less(a.from, b.from)
  }

  /** What the caller is told, in terms of the options: the source's errors, and else the
      result. */
  ghost predicate Tells(g: Graph, seed: string, opts: WalkOpts, fronts: seq<seq<string>>, offered: seq<GraphEdge>, r: WalkResult)
    requires g.Valid()
  {
    if seed !in g.nodes then r == NotFound(seed)
    else if opts.direction !in {"out", "in", "both", ""} then r == BadDirection
    else if opts.maxDepth < 0 then r == BadDepth
    else Told(g, seed, opts, fronts, offered, r)
  }

  /** The whole result: its nodes, the nearest ones under the cap; what was offered and in
      which order; the edges kept of it; the counters; and that the nodes are exactly those
      within MaxDepth, each at its distance, if and only if none was truncated. */
  ghost predicate Told(g: Graph, seed: string, opts: WalkOpts, fronts: seq<seq<string>>, offered: seq<GraphEdge>, r: WalkResult)
    requires g.Valid()
  {
    && r.Walked? && NodesOf(g, seed, opts, r.nodes) && NearestKept(g, seed, opts, r.nodes)
    && OfferedInTurn(g, seed, opts, r.nodes, fronts, offered) && Counts(g, seed, opts, offered, r)
    && EdgesOfResult(g, seed, opts, r.nodes, offered, r.edges, r.truncatedEdges)
    && (opts.maxNodes > 0 ==> |r.nodes| <= opts.maxNodes) && (opts.maxEdges > 0 ==> |r.edges| <= opts.maxEdges)
    && (opts.maxNodes <= 0 ==> r.truncatedNodes == 0) && (opts.maxEdges <= 0 ==> r.truncatedEdges == 0)
    && (r.truncatedNodes == 0 <==>
        forall v, d: nat :: ListedAt(r.nodes, v, d) <==> At(g, seed, opts, v, d) && d <= opts.maxDepth)
  }

  /** v could be listed at depth d and is not listed. */
  ghost predicate Omitted(g: Graph, seed: string, opts: WalkOpts, nodes: seq<GraphNode>, u: string, v: string, d: nat) {
    && 0 < d <= opts.maxDepth && ListedAt(nodes, u, d - 1) && Goes(g, seed, opts, u)
    && Connected(g.rels, opts.direction, opts.kinds, u, v) && Allowed(g, opts, v) && !Listed(nodes, v)
  }

  /** The listed nodes come before the omitted ones, by depth and then by id. */
  ghost predicate NearestKept(g: Graph, seed: string, opts: WalkOpts, nodes: seq<GraphNode>) {
    forall u, v, d, x, c: nat :: Omitted(g, seed, opts, nodes, u, v, d) && ListedAt(nodes, x, c) ==> c < d || (c == d && Lex.Less(x, v))
  }

  /** What is offered and in which order: depth by depth the listed nodes that are followed,
      in id order, and of each its relationships in theirs. */
  ghost predicate OfferedInTurn(g: Graph, seed: string, opts: WalkOpts, nodes: seq<GraphNode>, fronts: seq<seq<string>>,
                                offered: seq<GraphEdge>)
    requires g.Valid()
  {
    && |fronts| <= opts.maxDepth && (forall d :: 0 <= d < |fronts| ==> Lex.Increasing(fronts[d]))
    && (forall v, d: nat :: d < opts.maxDepth && ListedAt(nodes, v, d) && Goes(g, seed, opts, v) <==> d < |fronts| && v in fronts[d])
    && ParseDirection(opts.direction).Some? && offered == OfferedFrom(WalkFor(g, seed, opts), fronts)
  }

  /** A listed node at depth c leads to v, which is not listed. */
  ghost predicate MeetsAt(g: Graph, seed: string, opts: WalkOpts, nodes: seq<GraphNode>, v: string, c: nat) {
    !Listed(nodes, v) && exists u :: MeetsFrom(g, seed, opts, nodes, u, v, c)
  }

  ghost predicate MeetsFrom(g: Graph, seed: string, opts: WalkOpts, nodes: seq<GraphNode>, u: string, v: string, c: nat) {
    ListedAt(nodes, u, c) && Goes(g, seed, opts, u) && Connected(g.rels, opts.direction, opts.kinds, u, v)
  }

  ghost predicate TypeNamed(f: Filter, r: Resource) {
    exists p :: p in f.excludeTypes && TypeFits(p, r.typ)
  }

  /** Whether a node that was met belongs under the counter. */
  ghost predicate CountedUnder(g: Graph, seed: string, opts: WalkOpts, fate: Fate, v: string)
    requires v in g.nodes
  {
    match fate
    case Truncated => Allowed(g, opts, v)
    case ByType => Shut(g, seed, opts, v) && TypeNamed(opts.filter, g.nodes[v])
    case ByRegion => Shut(g, seed, opts, v) && !TypeNamed(opts.filter, g.nodes[v])
  }

  /** The unlisted nodes under one counter, once for every depth they were met from. */
  ghost function Tallied(g: Graph, seed: string, opts: WalkOpts, nodes: seq<GraphNode>, fate: Fate): set<(string, nat)> {
    set v, c: nat | v in g.nodes && c < opts.maxDepth && MeetsAt(g, seed, opts, nodes, v, c) && CountedUnder(g, seed, opts, fate, v) :: (v, c)
  }

  /** Some edge that was kept has the text of e. */
  ghost predicate Taken(opts: WalkOpts, offered: seq<GraphEdge>, e: GraphEdge) {
    exists f :: f in Cut(FirstsOf(TextOf, offered), opts.maxEdges) && TextOf(f) == TextOf(e)
  }

  ghost function Untaken(opts: WalkOpts, offered: seq<GraphEdge>): set<nat> {
    set i: nat | i < |offered| && !Taken(opts, offered, offered[i])
  }

  /** What each counter of the result counts. */
  ghost predicate Counts(g: Graph, seed: string, opts: WalkOpts, offered: seq<GraphEdge>, r: WalkResult)
    requires r.Walked?
  {
    && r.truncatedNodes == |Tallied(g, seed, opts, r.nodes, Truncated)| && r.excludedTypes == |Tallied(g, seed, opts, r.nodes, ByType)|
    && r.excludedRegions == |Tallied(g, seed, opts, r.nodes, ByRegion)| && r.truncatedEdges == |Untaken(opts, offered)|
  }

  function WalkFor(g: Graph, seed: string, opts: WalkOpts): Walk
    requires ParseDirection(opts.direction).Some? && opts.maxDepth >= 0
  {
    Walk(g, ParseDirection(opts.direction).value, opts.kinds, opts.filter, seed, opts.maxDepth, opts.maxNodes, opts.maxEdges)
  }

  lemma NodesExactly(g: Graph, seed: string, opts: WalkOpts, v: string)
    requires ParseDirection(opts.direction).Some? && opts.maxDepth >= 0
    ensures var w := WalkFor(g, seed, opts);
      && (w.Admits(v) <==> Allowed(g, opts, v)) && (w.Expands(v) <==> Goes(g, seed, opts, v))
      && (w.Barred(v) <==> Shut(g, seed, opts, v))
  {
    if v in g.nodes {
      ExcludedExact(opts.filter, g.nodes[v]);
    }
    hide Excluded, Names, ParseDirection;
  }

  lemma WayExact(g: Graph, seed: string, opts: WalkOpts, p: seq<string>, v: string)
    requires ParseDirection(opts.direction).Some? && opts.maxDepth >= 0
    ensures Reaches(WalkFor(g, seed, opts), p, v) <==> WayTo(g, seed, opts, p, v)
  {
    var w := WalkFor(g, seed, opts);
    forall i: int | 0 <= i < |p| - 1 ensures w.Step(p[i], p[i+1]) <==> Connected(g.rels, opts.direction, opts.kinds, p[i], p[i+1]) {
      ConnectedExact(g.rels, opts.direction, opts.kinds, p[i], p[i+1]);
    }
    forall i: int | 0 <= i < |p|
      ensures (w.Admits(p[i]) <==> Allowed(g, opts, p[i])) && (w.Expands(p[i]) <==> Goes(g, seed, opts, p[i]))
    {
      NodesExactly(g, seed, opts, p[i]);
    }
    hide Walk.Step, Walk.Admits, Walk.Expands, Allowed, Goes, Connected, ParseDirection;
  }

  lemma DistanceExact(g: Graph, seed: string, opts: WalkOpts, v: string)
    requires ParseDirection(opts.direction).Some? && opts.maxDepth >= 0
    ensures forall d: nat :: IsDistance(WalkFor(g, seed, opts), v, d) <==> At(g, seed, opts, v, d)
    ensures (exists p :: Reaches(WalkFor(g, seed, opts), p, v) && |p| - 1 <= opts.maxDepth) <==>
      exists p :: WayTo(g, seed, opts, p, v) && |p| - 1 <= opts.maxDepth
  {
    forall p ensures Reaches(WalkFor(g, seed, opts), p, v) <==> WayTo(g, seed, opts, p, v) {
      WayExact(g, seed, opts, p, v);
    }
    hide Reaches, WayTo, ParseDirection;
  }

  lemma ListedExact(w: Walk, visited: Levels, nodes: seq<GraphNode>)
    requires NodesMatch(w, visited, nodes)
    ensures forall v, d: nat :: ListedAt(nodes, v, d) <==> v in visited && visited[v] == d
    ensures forall v :: Listed(nodes, v) <==> v in visited
  {
    forall v | v in visited ensures ListedAt(nodes, v, visited[v]) && Listed(nodes, v) {
      var i :| 0 <= i < |nodes| && nodes[i].resource.id == v;
      assert IsEntry(w, visited, nodes[i]) && nodes[i] in nodes;
    }
    forall n | n in nodes ensures IsEntry(w, visited, n) {
      var i :| 0 <= i < |nodes| && nodes[i] == n;
    }
  }

  lemma LinksExact(g: Graph, seed: string, opts: WalkOpts, visited: Levels, nodes: seq<GraphNode>, v: string, d: nat)
    requires ParseDirection(opts.direction).Some? && opts.maxDepth >= 0
    requires forall u, d: nat :: ListedAt(nodes, u, d) <==> u in visited && visited[u] == d
    requires Layered(WalkFor(g, seed, opts), visited) && ListedAt(nodes, v, d)
    ensures Hangs(g, seed, opts, nodes, v, d)
  {
    var w := WalkFor(g, seed, opts);
    NodesExactly(g, seed, opts, v);
    hide ListedAt, Allowed, Goes, Connected, ParseDirection, Walk.Step, Walk.Admits, Walk.Expands;
    if v != seed {
      var u :| u in visited && Linked(w, visited, u, v);
      ConnectedExact(g.rels, opts.direction, opts.kinds, u, v);
      NodesExactly(g, seed, opts, u);
      assert w.Step(u, v) <==> Joined(g.rels, w.dir, w.kinds, u, v) by { StepIsJoined(w, u, v); }
      assert HangsFrom(g, seed, opts, nodes, u, v, d);
    }
  }

  lemma StepIsJoined(w: Walk, u: string, v: string)
    ensures w.Step(u, v) <==> Joined(w.g.rels, w.dir, w.kinds, u, v)
  {
  }

  lemma SeesExact(g: Graph, seed: string, opts: WalkOpts, visited: Levels, nodes: seq<GraphNode>, e: GraphEdge)
    requires ParseDirection(opts.direction).Some? && opts.maxDepth >= 0
    requires forall u, d: nat :: ListedAt(nodes, u, d) <==> u in visited && visited[u] == d
    ensures SeenEdge(WalkFor(g, seed, opts), visited, opts.maxDepth, e) <==> Sees(g, seed, opts, nodes, e)
  {
    var w := WalkFor(g, seed, opts);
    forall u, v
      ensures EdgeJoins(g.rels, w.dir, w.kinds, u, v, e) <==> ConnectedBy(g.rels, opts.direction, opts.kinds, u, v, e)
      ensures (w.Expands(u) <==> Goes(g, seed, opts, u)) && (w.Barred(v) <==> Shut(g, seed, opts, v))
    {
      ConnectedExact(g.rels, opts.direction, opts.kinds, u, v);
      NodesExactly(g, seed, opts, u);
      NodesExactly(g, seed, opts, v);
    }
    hide ListedAt, EdgeJoins, ConnectedBy, Goes, Shut, ParseDirection, Walk.Expands, Walk.Barred;
    if SeenEdge(w, visited, opts.maxDepth, e) {
      var u, v :| SeenFrom(w, visited, opts.maxDepth, e, u, v);
      assert SeesFrom(g, seed, opts, nodes, e, u, v, visited[u]);
    }
    if Sees(g, seed, opts, nodes, e) {
      var u, v, d :| SeesFrom(g, seed, opts, nodes, e, u, v, d);
      assert SeenFrom(w, visited, opts.maxDepth, e, u, v);
    }
  }

  lemma {:induction false} TextsAreKeys(offered: seq<GraphEdge>)
    ensures FirstsOf(TextOf, offered) == FirstsOf(EdgeKey, offered)
  {
    if offered != [] {
      var f, e := FirstsOf(EdgeKey, offered[..|offered|-1]), offered[|offered|-1];
      TextsAreKeys(offered[..|offered|-1]);
      forall e ensures TextOf(e) == EdgeKey(e) {
      }
      hide TextOf, EdgeKey;
      assert Firsts.HasKey(TextOf, f, TextOf(e)) <==> Firsts.HasKey(EdgeKey, f, EdgeKey(e));
    }
  }

  lemma KeptIsFirst(g: Graph, seed: string, opts: WalkOpts, visited: Levels, offered: seq<GraphEdge>, r: WalkResult, e: GraphEdge)
    requires ParseDirection(opts.direction).Some? && opts.maxDepth >= 0
    requires FirstOffers(WalkFor(g, seed, opts), visited, offered, r)
    ensures e in r.edges <==> e in Cut(FirstsOf(TextOf, offered), opts.maxEdges) && EndsIn(visited, e)
    ensures e in r.edges ==> First(TextOf, offered, e)
    ensures r.truncatedEdges == 0 && First(TextOf, offered, e) && EndsIn(visited, e) ==> e in r.edges
  {
    TextsAreKeys(offered);
    FirstsExact(TextOf, offered, e);
    hide First, FirstsOf, EndsIn, EdgeKey, TextOf, OffersSeen, ParseDirection;
  }

  lemma NodesTold(g: Graph, seed: string, opts: WalkOpts, visited: Levels, r: WalkResult)
    requires ParseDirection(opts.direction).Some? && opts.maxDepth >= 0 && seed in g.nodes
    requires WellFormed(WalkFor(g, seed, opts), visited, r)
    ensures NodesOf(g, seed, opts, r.nodes)
  {
    var w := WalkFor(g, seed, opts);
    ListedExact(w, visited, r.nodes);
    forall v, d: nat | ListedAt(r.nodes, v, d) ensures Hangs(g, seed, opts, r.nodes, v, d) {
      LinksExact(g, seed, opts, visited, r.nodes, v, d);
    }
    EntriesStored(w, visited, r.nodes);
    hide Hangs, Layered, ListedAt, SeenEdge, EndsIn, ParseDirection, EdgeLess;
    forall i, j | 0 <= i < j < |r.nodes| ensures InNodeOrder(r.nodes[i], r.nodes[j]) {
      assert NodeLess(r.nodes[i], r.nodes[j]);
    }
  }

  lemma EntriesStored(w: Walk, visited: Levels, nodes: seq<GraphNode>)
    requires NodesMatch(w, visited, nodes) && Within(visited, w.maxDepth)
    ensures forall n :: n in nodes ==> n.resource.id in w.g.nodes && w.g.nodes[n.resource.id] == n.resource && n.depth <= w.maxDepth
  {
    forall n | n in nodes ensures IsEntry(w, visited, n) {
      var i :| 0 <= i < |nodes| && nodes[i] == n;
    }
  }

  lemma EdgesTold(g: Graph, seed: string, opts: WalkOpts, visited: Levels, offered: seq<GraphEdge>, r: WalkResult)
    requires ParseDirection(opts.direction).Some? && opts.maxDepth >= 0
    requires WellFormed(WalkFor(g, seed, opts), visited, r) && FirstOffers(WalkFor(g, seed, opts), visited, offered, r)
    ensures EdgesOfResult(g, seed, opts, r.nodes, offered, r.edges, r.truncatedEdges)
  {
    var w := WalkFor(g, seed, opts);
    ListedExact(w, visited, r.nodes);
    forall e
      ensures SeenEdge(w, visited, opts.maxDepth, e) <==> Sees(g, seed, opts, r.nodes, e)
      ensures EndsIn(visited, e) <==> Joins(r.nodes, e)
    {
      SeesExact(g, seed, opts, visited, r.nodes, e);
    }
    hide First, FirstsOf, Cut, SeenEdge, Sees, EndsIn, Joins, EdgeKey, TextOf, NodesMatch, Layered, Within, ListedAt, Listed, ParseDirection,
      FirstOffers;
    forall e
      ensures e in offered <==> Sees(g, seed, opts, r.nodes, e)
      ensures e in r.edges <==> e in Cut(FirstsOf(TextOf, offered), opts.maxEdges) && Joins(r.nodes, e)
      ensures e in r.edges ==> First(TextOf, offered, e)
      ensures r.truncatedEdges == 0 && First(TextOf, offered, e) && Joins(r.nodes, e) ==> e in r.edges
    {
      KeptIsFirst(g, seed, opts, visited, offered, r, e);
      OfferedIsSeen(w, visited, offered, r, e);
    }
    forall i, j | 0 <= i < j < |r.edges| ensures InEdgeOrder(r.edges[i], r.edges[j]) {
      assert EdgeLess(r.edges[i], r.edges[j]);
    }
  }

  lemma OfferedIsSeen(w: Walk, visited: Levels, offered: seq<GraphEdge>, r: WalkResult, e: GraphEdge)
    requires FirstOffers(w, visited, offered, r)
    ensures e in offered <==> SeenEdge(w, visited, w.maxDepth, e)
  {
    hide SeenEdge, FirstsOf, Cut, EdgeKey;
  }

  lemma DepthsTold(g: Graph, seed: string, opts: WalkOpts, visited: Levels, nodes: seq<GraphNode>)
    requires ParseDirection(opts.direction).Some? && opts.maxDepth >= 0
    requires NodesMatch(WalkFor(g, seed, opts), visited, nodes)
    ensures AllNodes(WalkFor(g, seed, opts), visited) <==>
      forall v, d: nat :: ListedAt(nodes, v, d) <==> At(g, seed, opts, v, d) && d <= opts.maxDepth
  {
    var w := WalkFor(g, seed, opts);
    ListedExact(w, visited, nodes);
    forall v ensures DepthRight(w, visited, v) <==> DepthListed(g, seed, opts, visited, v) {
      DepthTold(g, seed, opts, visited, v);
    }
    AllDepthsRight(w, visited);
    hide Reaches, IsDistance, At, ListedAt, NodesMatch, ParseDirection, AllNodes, DepthRight;
    if forall v :: DepthListed(g, seed, opts, visited, v) {
      forall v, d: nat ensures ListedAt(nodes, v, d) <==> At(g, seed, opts, v, d) && d <= opts.maxDepth {
        assert DepthListed(g, seed, opts, visited, v);
      }
      assert forall v :: DepthRight(w, visited, v);
    } else {
      var v :| !DepthListed(g, seed, opts, visited, v);
      var d: nat :| !(v in visited && visited[v] == d <==> At(g, seed, opts, v, d) && d <= opts.maxDepth);
      assert !(ListedAt(nodes, v, d) <==> At(g, seed, opts, v, d) && d <= opts.maxDepth);
    }
  }

  lemma AllDepthsRight(w: Walk, visited: Levels)
    ensures AllNodes(w, visited) <==> forall v :: DepthRight(w, visited, v)
  {
    hide Reaches, IsDistance;
    if forall v :: DepthRight(w, visited, v) {
      forall v
        ensures v in visited <==> exists p :: Reaches(w, p, v) && |p| - 1 <= w.maxDepth
        ensures v in visited ==> IsDistance(w, v, visited[v])
      {
        assert DepthRight(w, visited, v);
      }
    }
  }

  ghost predicate DepthRight(w: Walk, visited: Levels, v: string) {
    (v in visited <==> exists p :: Reaches(w, p, v) && |p| - 1 <= w.maxDepth) && (v in visited ==> IsDistance(w, v, visited[v]))
  }

  ghost predicate DepthListed(g: Graph, seed: string, opts: WalkOpts, visited: Levels, v: string) {
    forall d: nat :: v in visited && visited[v] == d <==> At(g, seed, opts, v, d) && d <= opts.maxDepth
  }

  lemma DepthTold(g: Graph, seed: string, opts: WalkOpts, visited: Levels, v: string)
    requires ParseDirection(opts.direction).Some? && opts.maxDepth >= 0
    ensures DepthRight(WalkFor(g, seed, opts), visited, v) <==> DepthListed(g, seed, opts, visited, v)
  {
    DistanceExact(g, seed, opts, v);
    HasDistance(WalkFor(g, seed, opts), v);
    hide Reaches, IsDistance, At, ParseDirection;
  }

  /** Ways have a shortest one, and its length is the distance. */
  lemma HasDistance(w: Walk, v: string)
    ensures (exists p :: Reaches(w, p, v) && |p| - 1 <= w.maxDepth) <==> exists d: nat :: IsDistance(w, v, d) && d <= w.maxDepth
    ensures forall d: nat, c: nat :: IsDistance(w, v, d) && IsDistance(w, v, c) ==> c == d
  {
    hide Admissible;
    if p :| Reaches(w, p, v) && |p| - 1 <= w.maxDepth {
      assert |p| >= 1 by { WayIsLong(w, p, v); }
      Shortest(w, v, p);
    }
    if d: nat :| IsDistance(w, v, d) && d <= w.maxDepth {
      var p :| Reaches(w, p, v) && |p| - 1 == d;
    }
    forall d: nat, c: nat | IsDistance(w, v, d) && IsDistance(w, v, c) ensures c == d {
      var p :| Reaches(w, p, v) && |p| - 1 == d;
      var q :| Reaches(w, q, v) && |q| - 1 == c;
    }
  }

  lemma WayIsLong(w: Walk, p: seq<string>, v: string)
    requires Reaches(w, p, v)
    ensures |p| >= 1
  {
    hide Walk.Step, Walk.Admits, Walk.Expands;
  }

  lemma {:induction false} Shortest(w: Walk, v: string, p: seq<string>)
    requires Reaches(w, p, v) && |p| >= 1
    ensures exists d: nat :: IsDistance(w, v, d) && d <= |p| - 1
    decreases |p|
  {
    hide Reaches;
    if q :| Reaches(w, q, v) && |q| < |p| {
      WayIsLong(w, q, v);
      Shortest(w, v, q);
    } else {
      assert IsDistance(w, v, |p| - 1);
    }
  }

  lemma NearestTold(g: Graph, seed: string, opts: WalkOpts, visited: Levels, nodes: seq<GraphNode>)
    requires ParseDirection(opts.direction).Some? && opts.maxDepth >= 0
    requires NodesMatch(WalkFor(g, seed, opts), visited, nodes) && NearestFirst(WalkFor(g, seed, opts), visited, opts.maxDepth)
    ensures NearestKept(g, seed, opts, nodes)
  {
    var w := WalkFor(g, seed, opts);
    ListedExact(w, visited, nodes);
    hide ListedAt, Listed, NodesMatch, Lex.Less, ParseDirection, Allowed, Goes, Connected, Walk.Step, Walk.Admits, Walk.Expands;
    forall u, v, d, x, c: nat | Omitted(g, seed, opts, nodes, u, v, d) && ListedAt(nodes, x, c)
      ensures c < d || (c == d && Lex.Less(x, v))
    {
      ConnectedExact(g.rels, opts.direction, opts.kinds, u, v);
      NodesExactly(g, seed, opts, u);
      NodesExactly(g, seed, opts, v);
      StepIsJoined(w, u, v);
      assert LeftOut(w, visited, opts.maxDepth, u, v);
      assert ComesBefore(visited, u, v, x);
    }
  }

  lemma TurnTold(g: Graph, seed: string, opts: WalkOpts, visited: Levels, nodes: seq<GraphNode>, fronts: seq<seq<string>>,
                 offered: seq<GraphEdge>)
    requires g.Valid() && ParseDirection(opts.direction).Some? && opts.maxDepth >= 0
    requires NodesMatch(WalkFor(g, seed, opts), visited, nodes) && AllFronts(WalkFor(g, seed, opts), visited, fronts)
    requires offered == OfferedFrom(WalkFor(g, seed, opts), fronts)
    ensures OfferedInTurn(g, seed, opts, nodes, fronts, offered)
  {
    var w := WalkFor(g, seed, opts);
    ListedExact(w, visited, nodes);
    forall d | 0 <= d < |fronts| ensures Lex.Increasing(fronts[d]) {
      FrontIncreasing(w, visited, fronts[d], d);
    }
    forall v, d: nat
      ensures d < opts.maxDepth && ListedAt(nodes, v, d) && Goes(g, seed, opts, v) <==> d < |fronts| && v in fronts[d]
    {
      NodesExactly(g, seed, opts, v);
      InFront(w, visited, fronts, v, d);
    }
    hide ListedAt, Listed, NodesMatch, AllFronts, Lex.Increasing, ParseDirection, Goes, Walk.Expands, OfferedFrom;
    FrontsNotMore(w, visited, fronts);
  }

  lemma FrontsNotMore(w: Walk, visited: Levels, fronts: seq<seq<string>>)
    requires AllFronts(w, visited, fronts)
    ensures |fronts| <= w.maxDepth
  {
  }

  lemma InFront(w: Walk, visited: Levels, fronts: seq<seq<string>>, v: string, d: nat)
    requires AllFronts(w, visited, fronts)
    ensures d < w.maxDepth && v in visited && visited[v] == d && w.Expands(v) <==> d < |fronts| && v in fronts[d]
  {
    hide FrontAt, Walk.Expands;
    if d < |fronts| {
      FrontHolds(w, visited, fronts[d], d, v);
    }
  }

  lemma FrontIncreasing(w: Walk, visited: Levels, front: seq<string>, d: nat)
    requires FrontAt(w, visited, front, d)
    ensures Lex.Increasing(front)
  {
  }

  lemma FrontHolds(w: Walk, visited: Levels, front: seq<string>, d: nat, v: string)
    requires FrontAt(w, visited, front, d)
    ensures v in front <==> v in visited && visited[v] == d && w.Expands(v)
  {
    hide Walk.Expands;
  }

  lemma FatesExact(g: Graph, seed: string, opts: WalkOpts, fate: Fate, v: string)
    requires ParseDirection(opts.direction).Some? && opts.maxDepth >= 0 && v in g.nodes
    ensures Meets(WalkFor(g, seed, opts), fate, v) <==> CountedUnder(g, seed, opts, fate, v)
  {
    NodesExactly(g, seed, opts, v);
    ExcludedExact(opts.filter, g.nodes[v]);
    hide ParseDirection, Allowed, Shut, Walk.Admits, Walk.Barred, ExcludedType;
  }

  lemma MetTold(g: Graph, seed: string, opts: WalkOpts, visited: Levels, nodes: seq<GraphNode>, fate: Fate, v: string, c: nat)
    requires ParseDirection(opts.direction).Some? && opts.maxDepth >= 0 && v in g.nodes
    requires forall u, d: nat :: ListedAt(nodes, u, d) <==> u in visited && visited[u] == d
    requires Listed(nodes, v) <==> v in visited
    ensures Met(WalkFor(g, seed, opts), visited, fate, v, c) <==> MeetsAt(g, seed, opts, nodes, v, c) && CountedUnder(g, seed, opts, fate, v)
  {
    var w := WalkFor(g, seed, opts);
    FatesExact(g, seed, opts, fate, v);
    forall u
      ensures w.Step(u, v) <==> Connected(g.rels, opts.direction, opts.kinds, u, v)
      ensures w.Expands(u) <==> Goes(g, seed, opts, u)
    {
      ConnectedExact(g.rels, opts.direction, opts.kinds, u, v);
      NodesExactly(g, seed, opts, u);
      StepIsJoined(w, u, v);
    }
    hide ListedAt, Listed, Meets, CountedUnder, Goes, Connected, ParseDirection, Walk.Step, Walk.Expands;
    if Met(w, visited, fate, v, c) {
      var u :| u in visited && visited[u] == c && w.Expands(u) && w.Step(u, v);
      assert MeetsFrom(g, seed, opts, nodes, u, v, c);
    }
    if MeetsAt(g, seed, opts, nodes, v, c) {
      var u :| MeetsFrom(g, seed, opts, nodes, u, v, c);
      assert w.Step(u, v) && w.Expands(u);
    }
  }

  lemma AllMetTold(g: Graph, seed: string, opts: WalkOpts, visited: Levels, nodes: seq<GraphNode>, fate: Fate)
    requires ParseDirection(opts.direction).Some? && opts.maxDepth >= 0 && NodesMatch(WalkFor(g, seed, opts), visited, nodes)
    ensures AllMet(WalkFor(g, seed, opts), visited, opts.maxDepth, fate) == Tallied(g, seed, opts, nodes, fate)
  {
    var w := WalkFor(g, seed, opts);
    ListedExact(w, visited, nodes);
    forall v, c: nat | v in g.nodes
      ensures Met(w, visited, fate, v, c) <==> MeetsAt(g, seed, opts, nodes, v, c) && CountedUnder(g, seed, opts, fate, v)
    {
      MetTold(g, seed, opts, visited, nodes, fate, v, c);
    }
    hide Met, MeetsAt, CountedUnder, ListedAt, Listed, NodesMatch, ParseDirection;
  }

  lemma UntakenExact(opts: WalkOpts, offered: seq<GraphEdge>)
    ensures Missing(offered, Cut(FirstsOf(EdgeKey, offered), opts.maxEdges)) == Untaken(opts, offered)
  {
    TextsAreKeys(offered);
    var kept := Cut(FirstsOf(EdgeKey, offered), opts.maxEdges);
    forall e ensures TextOf(e) == EdgeKey(e) {
    }
    hide TextOf, EdgeKey, FirstsOf, Cut;
    forall i: nat | i < |offered| ensures Taken(opts, offered, offered[i]) <==> Firsts.HasKey(EdgeKey, kept, EdgeKey(offered[i])) {
      if Taken(opts, offered, offered[i]) {
        var f :| f in kept && TextOf(f) == TextOf(offered[i]);
        var k :| 0 <= k < |kept| && kept[k] == f;
        assert EdgeKey(kept[k]) == EdgeKey(offered[i]);
      }
      if Firsts.HasKey(EdgeKey, kept, EdgeKey(offered[i])) {
        var k :| 0 <= k < |kept| && EdgeKey(kept[k]) == EdgeKey(offered[i]);
        assert kept[k] in kept;
      }
    }
  }

  lemma CountsTold(g: Graph, seed: string, opts: WalkOpts, visited: Levels, offered: seq<GraphEdge>, r: WalkResult)
    requires ParseDirection(opts.direction).Some? && opts.maxDepth >= 0 && r.Walked?
    requires NodesMatch(WalkFor(g, seed, opts), visited, r.nodes) && CountedAtEnd(WalkFor(g, seed, opts), visited, offered, r)
    ensures Counts(g, seed, opts, offered, r)
  {
    forall fate ensures AllMet(WalkFor(g, seed, opts), visited, opts.maxDepth, fate) == Tallied(g, seed, opts, r.nodes, fate) {
      AllMetTold(g, seed, opts, visited, r.nodes, fate);
    }
    UntakenExact(opts, offered);
    hide AllMet, Tallied, Missing, Untaken, NodesMatch, ParseDirection, Cut, FirstsOf, EdgeKey;
  }

  lemma AnswersTell(g: Graph, seed: string, opts: WalkOpts, visited: Levels, fronts: seq<seq<string>>, offered: seq<GraphEdge>,
                    r: WalkResult)
    requires g.Valid() && ParseDirection(opts.direction).Some? && opts.maxDepth >= 0 && seed in g.nodes
    requires var w := WalkFor(g, seed, opts); Answers(w, visited, r) && FirstOffers(w, visited, offered, r)
    requires InTurnAtEnd(WalkFor(g, seed, opts), visited, fronts, offered) && CountedAtEnd(WalkFor(g, seed, opts), visited, offered, r)
    ensures Told(g, seed, opts, fronts, offered, r)
  {
    AnswersParts(WalkFor(g, seed, opts), visited, r);
    NearestTold(g, seed, opts, visited, r.nodes);
    TurnTold(g, seed, opts, visited, r.nodes, fronts, offered);
    CountsTold(g, seed, opts, visited, offered, r);
    NodesTold(g, seed, opts, visited, r);
    EdgesTold(g, seed, opts, visited, offered, r);
    DepthsTold(g, seed, opts, visited, r.nodes);
    hide WellFormed, ParseDirection, NodesOf, NearestKept, OfferedInTurn, InTurnAtEnd, Counts, CountedAtEnd, EdgesOfResult, Answers, AllNodes,
      NodesMatch, ListedAt, At, FirstOffers;
  }

  lemma ToldIsTells(g: Graph, seed: string, opts: WalkOpts, fronts: seq<seq<string>>, offered: seq<GraphEdge>, r: WalkResult)
    requires g.Valid() && ParseDirection(opts.direction).Some? && opts.maxDepth >= 0 && seed in g.nodes
    requires Told(g, seed, opts, fronts, offered, r)
    ensures Tells(g, seed, opts, fronts, offered, r)
  {
    DirectionsExact(opts.direction);
    hide Told, ParseDirection;
  }

  lemma AnswersParts(w: Walk, visited: Levels, r: WalkResult)
    requires Answers(w, visited, r)
    ensures WellFormed(w, visited, r) && NodesMatch(w, visited, r.nodes) && (r.truncatedNodes == 0 <==> AllNodes(w, visited))
    ensures (w.maxNodes > 0 ==> |r.nodes| <= w.maxNodes) && (w.maxEdges > 0 ==> |r.edges| <= w.maxEdges)
    ensures (w.maxNodes <= 0 ==> r.truncatedNodes == 0) && (w.maxEdges <= 0 ==> r.truncatedEdges == 0)
  {
    hide NodesMatch, Layered, Within, SeenEdge, EndsIn, AllNodes, AllEdges, ClashFree, EndsExist, EdgeKey, NodeLess, EdgeLess;
  }

  lemma ErrorsTell(g: Graph, seed: string, opts: WalkOpts)
    requires g.Valid()
    ensures seed !in g.nodes ==> Tells(g, seed, opts, [], [], NotFound(seed))
    ensures seed in g.nodes && ParseDirection(opts.direction).None? ==> Tells(g, seed, opts, [], [], BadDirection)
    ensures seed in g.nodes && ParseDirection(opts.direction).Some? && opts.maxDepth < 0 ==> Tells(g, seed, opts, [], [], BadDepth)
  {
    DirectionsExact(opts.direction);
    hide ParseDirection, NodesOf, NearestKept, OfferedInTurn, Counts, EdgesOfResult;
  }

  /** GraphWalk. */
  method GraphWalk(g: Graph, seed: string, opts: WalkOpts)
    returns (r: WalkResult, ghost visited: Levels, ghost fronts: seq<seq<string>>, ghost offered: seq<GraphEdge>)
    requires g.Valid()
    ensures r.NotFound? <==> seed !in g.nodes
    ensures r.BadDirection? <==> seed in g.nodes && ParseDirection(opts.direction).None?
    ensures r.BadDepth? <==> seed in g.nodes && ParseDirection(opts.direction).Some? && opts.maxDepth < 0
    ensures seed in g.nodes && ParseDirection(opts.direction).Some? && opts.maxDepth >= 0 ==>
      var w := Walk(g, ParseDirection(opts.direction).value, opts.kinds, opts.filter, seed, opts.maxDepth, opts.maxNodes,
                    opts.maxEdges);
      Answers(w, visited, r) && FirstOffers(w, visited, offered, r) && InTurnAtEnd(w, visited, fronts, offered) && CountedAtEnd(w, visited, offered, r)
    ensures Tells(g, seed, opts, fronts, offered, r)
  {
    ErrorsTell(g, seed, opts);
    hide Answers, Sound, Offers, InTurn, Counted, FirstOffers, InTurnAtEnd, CountedAtEnd, Tells, Told;
    visited, fronts, offered := map[], [], [];
    if seed !in g.nodes {
      return NotFound(seed), visited, fronts, offered;
    }
    var dir := ParseDirection(opts.direction);
    if dir.None? {
      return BadDirection, visited, fronts, offered;
    }
    if opts.maxDepth < 0 {
      return BadDepth, visited, fronts, offered;
    }
    var w := Walk(g, dir.value, opts.kinds, opts.filter, seed, opts.maxDepth, opts.maxNodes, opts.maxEdges);
    var s := Progress(map[seed := 0], [GraphNode(g.nodes[seed], 0)], [], {}, [seed], 0, 0, 0, 0);
    StartIsSound(w);
    NothingOffered(w);
    NothingInTurn(w);
    NothingCounted(w);
    var depth := 0;
    while depth < w.maxDepth && s.frontier != []
      invariant depth <= w.maxDepth && Underway(w, s, depth, fronts, offered)
    {
      ghost var front := s.frontier;
      s, offered := WalkLayer(w, s, depth, offered, fronts);
      fronts := fronts + [front];
      depth := depth + 1;
    }
    visited := s.visited;
    r := Finish(w, s, depth);
    FinishOffers(w, s, depth, offered, r);
    FinishInTurn(w, s, depth, fronts, offered);
    FinishCounted(w, s, depth, offered, r);
    AnswersTell(g, seed, opts, visited, fronts, offered, r);
    ToldIsTells(g, seed, opts, fronts, offered, r);
  }

  /** The result's edges are those of the first ones offered under their keys, up to the
      cap, that have both ends admitted; what was offered is what was seen. */
  ghost predicate FirstOffers(w: Walk, visited: Levels, offered: seq<GraphEdge>, r: WalkResult) {
    && r.Walked? && OffersSeen(w, visited, w.maxDepth, offered)
    && (forall e :: e in r.edges <==> e in Cut(FirstsOf(EdgeKey, offered), w.maxEdges) && EndsIn(visited, e))
    && (r.truncatedEdges == 0 ==> Whole(EdgeKey, offered, w.maxEdges))
  }

  /** Every node that is followed, below the depth limit, stands in a front. */
  ghost predicate AllFronts(w: Walk, visited: Levels, fronts: seq<seq<string>>) {
    && |fronts| <= w.maxDepth && FrontsAre(w, visited, fronts)
    && forall v :: v in visited && visited[v] < w.maxDepth && w.Expands(v) ==> visited[v] < |fronts|
  }

  /** What was offered, in turn, and which nodes the cap left out. */
  ghost predicate InTurnAtEnd(w: Walk, visited: Levels, fronts: seq<seq<string>>, offered: seq<GraphEdge>) {
    && UniqueKeys(w.g.rels) && AllFronts(w, visited, fronts) && offered == OfferedFrom(w, fronts)
    && NearestFirst(w, visited, w.maxDepth)
  }

  lemma FinishInTurn(w: Walk, s: Progress, d: nat, fronts: seq<seq<string>>, offered: seq<GraphEdge>)
    requires w.Valid() && Sound(w, s, d) && InTurn(w, s, d, fronts, offered) && d <= w.maxDepth && (d == w.maxDepth || s.frontier == [])
    ensures InTurnAtEnd(w, s.visited, fronts, offered)
  {
    FrontierEnds(w, s, d);
    hide Sound, FrontAt, OfferedFrom, LeftOut, ComesBefore, Walk.Expands;
    forall u, v, x | LeftOut(w, s.visited, w.maxDepth, u, v) ensures ComesBefore(s.visited, u, v, x) {
      LeftOutEarly(w, s.visited, d, u, v);
    }
  }

  ghost predicate CountedAtEnd(w: Walk, visited: Levels, offered: seq<GraphEdge>, r: WalkResult) {
    && r.Walked? && r.truncatedNodes == |AllMet(w, visited, w.maxDepth, Truncated)|
    && r.excludedTypes == |AllMet(w, visited, w.maxDepth, ByType)| && r.excludedRegions == |AllMet(w, visited, w.maxDepth, ByRegion)|
    && r.truncatedEdges == |Missing(offered, Cut(FirstsOf(EdgeKey, offered), w.maxEdges))|
  }

  lemma FinishCounted(w: Walk, s: Progress, d: nat, offered: seq<GraphEdge>, r: WalkResult)
    requires Sound(w, s, d) && Offers(w, s, d, offered) && Counted(w, s, d, offered)
    requires d <= w.maxDepth && (d == w.maxDepth || s.frontier == []) && r.Walked? && r.truncatedEdges == s.truncatedEdges
    requires r.truncatedNodes == s.truncatedNodes && r.excludedTypes == s.excludedTypes && r.excludedRegions == s.excludedRegions
    ensures CountedAtEnd(w, s.visited, offered, r)
  {
    FrontierEnds(w, s, d);
    hide Sound, Missing, OffersSeen, Cut, FirstsOf, Whole, AllMet;
    forall fate ensures AllMet(w, s.visited, d, fate) == AllMet(w, s.visited, w.maxDepth, fate) {
      MetEarly(w, s.visited, d, fate);
    }
  }

  lemma FrontierEnds(w: Walk, s: Progress, d: nat)
    requires Sound(w, s, d) && d <= w.maxDepth && (d == w.maxDepth || s.frontier == [])
    ensures forall v :: v in s.visited && s.visited[v] < w.maxDepth && w.Expands(v) ==> s.visited[v] < d
  {
    hide Layered, NodesMatch, KeysMatch, EdgesSound, EdgesComplete, Complete, Walk.Expands;
    forall v | v in s.visited && s.visited[v] < w.maxDepth && w.Expands(v) ensures s.visited[v] < d {
      assert s.visited[v] == d ==> v in s.frontier;
    }
  }

  lemma MetEarly(w: Walk, visited: Levels, d: nat, fate: Fate)
    requires d <= w.maxDepth && forall v :: v in visited && visited[v] < w.maxDepth && w.Expands(v) ==> visited[v] < d
    ensures AllMet(w, visited, d, fate) == AllMet(w, visited, w.maxDepth, fate)
  {
    hide Walk.Step, Walk.Expands, Meets;
  }

  lemma LeftOutEarly(w: Walk, visited: Levels, d: nat, u: string, v: string)
    requires LeftOut(w, visited, w.maxDepth, u, v)
    requires forall v :: v in visited && visited[v] < w.maxDepth && w.Expands(v) ==> visited[v] < d
    ensures LeftOut(w, visited, d, u, v)
  {
    hide Walk.Step, Walk.Admits, Walk.Expands;
  }

  lemma FinishOffers(w: Walk, s: Progress, d: nat, offered: seq<GraphEdge>, r: WalkResult)
    requires Sound(w, s, d) && Offers(w, s, d, offered) && d <= w.maxDepth && (d == w.maxDepth || s.frontier == [])
    requires r.Walked? && r.truncatedEdges == s.truncatedEdges
    requires forall e :: e in r.edges <==> e in s.edges && EndsIn(s.visited, e)
    ensures FirstOffers(w, s.visited, offered, r)
  {
    hide Walking, NodesMatch, KeysMatch, EdgesSound, EdgesComplete, Complete, SeenEdge, EndsIn, FirstsOf, Cut, Whole, EdgeKey;
    forall e ensures SeenEdge(w, s.visited, d, e) <==> SeenEdge(w, s.visited, w.maxDepth, e) {
      SeenAtFullDepth(w, s, d, e);
    }
  }

  /** Where the cap cut nothing, an edge is there exactly if it was the first offered under
      its key and has both ends admitted. */
  lemma FirstIsThere(w: Walk, visited: Levels, offered: seq<GraphEdge>, r: WalkResult, e: GraphEdge)
    requires FirstOffers(w, visited, offered, r) && r.truncatedEdges == 0
    ensures e in r.edges <==> First(EdgeKey, offered, e) && EndsIn(visited, e)
  {
    FirstsExact(EdgeKey, offered, e);
    hide First, FirstsOf, EndsIn, EdgeKey, OffersSeen;
  }

  lemma FinishedWalked(w: Walk, visited: Levels, r: WalkResult)
    requires Answers(w, visited, r)
    ensures r.Walked?
  {
  }

  /** Which edge is lost: where the cap cut none, a seen edge with both ends admitted is
      missing if and only if another edge with its key was offered before it. */
  lemma LostToEarlier(w: Walk, visited: Levels, offered: seq<GraphEdge>, r: WalkResult, e: GraphEdge)
    requires FirstOffers(w, visited, offered, r) && r.truncatedEdges == 0
    requires SeenEdge(w, visited, w.maxDepth, e) && EndsIn(visited, e)
    ensures e !in r.edges <==> exists f :: f != e && EdgeKey(f) == EdgeKey(e) && First(EdgeKey, offered, f)
  {
    hide SeenEdge, EndsIn, EdgeKey;
    FirstIsThere(w, visited, offered, r, e);
    assert e in offered;
    var i :| 0 <= i < |offered| && offered[i] == e;
    assert Firsts.HasKey(EdgeKey, offered, EdgeKey(e));
    FirstOfKey(EdgeKey, offered, EdgeKey(e));
    var g :| First(EdgeKey, offered, g) && EdgeKey(g) == EdgeKey(e);
    hide First;
    forall f | First(EdgeKey, offered, f) && EdgeKey(f) == EdgeKey(e) ensures f == g {
      FirstUnique(EdgeKey, offered, f, g);
    }
  }

  /** So the edges are all there if and only if no admitted edge has an earlier one under
      its key, stored ends or not. */
  lemma AllEdgesExact(w: Walk, visited: Levels, offered: seq<GraphEdge>, r: WalkResult)
    requires FirstOffers(w, visited, offered, r) && r.truncatedEdges == 0
    ensures AllEdges(w, visited, r.edges) <==>
      forall e :: SeenEdge(w, visited, w.maxDepth, e) && EndsIn(visited, e) ==> First(EdgeKey, offered, e)
  {
    hide SeenEdge, EndsIn, EdgeKey, First, FirstsOf, Cut, Whole;
    forall e
      ensures e in r.edges <==> First(EdgeKey, offered, e) && EndsIn(visited, e)
      ensures e in r.edges ==> SeenEdge(w, visited, w.maxDepth, e)
    {
      FirstIsThere(w, visited, offered, r, e);
      if First(EdgeKey, offered, e) {
        FirstHasKey(EdgeKey, offered, e);
      }
    }
  }

  // ------------------------------------------------------ a walk that loses an edge

  function Plain(id: string): Resource {
    Resource(id, "", None, false)
  }

  /** Two edges out of a whose kinds and ends shift a bar. */
  function ShiftedBar(a: string, k: string, m: string, t: string): Graph {
    var u := m + "|" + t;
    Graph(map[a := Plain(a), t := Plain(t), u := Plain(u)],
          {Rel(a, t, k + "|" + m, "directed", None), Rel(a, u, k, "directed", None)})
  }

  /** An outward walk from the seed without caps or filters. */
  function PlainWalk(g: Graph, seed: string, depth: nat): Walk {
    Walk(g, Out, [], Filter(true, [], []), seed, depth, 0, 0)
  }

  /** Whatever the ids and kinds, no walk over them returns both edges, although without
      caps or filters it sees both and admits both ends of each. */
  lemma ShiftedBarLosesEdge(a: string, k: string, m: string, t: string, depth: nat, visited: Levels, r: WalkResult)
    requires a != "" && t != "" && depth > 0 && Answers(PlainWalk(ShiftedBar(a, k, m, t), a, depth), visited, r)
    ensures var w, e, f := PlainWalk(ShiftedBar(a, k, m, t), a, depth), GraphEdge(a, t, k + "|" + m), GraphEdge(a, m + "|" + t, k);
      && w.Valid() && e != f && !(e in r.edges && f in r.edges) && !AllEdges(w, visited, r.edges)
      && forall x :: x in {e, f} ==> SeenEdge(w, visited, depth, x) && EndsIn(visited, x)
  {
    var g := ShiftedBar(a, k, m, t);
    var w, e, f := PlainWalk(g, a, depth), GraphEdge(a, t, k + "|" + m), GraphEdge(a, m + "|" + t, k);
    ShiftedBarValid(a, k, m, t);
    PlainEdgeSeen(w, visited, r, Rel(a, t, k + "|" + m, "directed", None));
    PlainEdgeSeen(w, visited, r, Rel(a, m + "|" + t, k, "directed", None));
    Bars.JoinedClash(a, k, m, t);
    hide SeenEdge, Answers, Bars.Joined, EndsIn, ShiftedBar;
    SharedKeyNotBoth(w, visited, r, e, f);
  }

  lemma ShiftedBarValid(a: string, k: string, m: string, t: string)
    requires a != "" && t != ""
    ensures var g := ShiftedBar(a, k, m, t);
      && g.Valid() && EndsExist(g) && a in g.nodes
      && Rel(a, t, k + "|" + m, "directed", None) in g.rels && Rel(a, m + "|" + t, k, "directed", None) in g.rels
  {
    Bars.JoinedClash(a, k, m, t);
  }

  lemma SharedKeyNotBoth(w: Walk, visited: Levels, r: WalkResult, e: GraphEdge, f: GraphEdge)
    requires Answers(w, visited, r) && e != f && EdgeKey(e) == EdgeKey(f)
    ensures !(e in r.edges && f in r.edges)
  {
    FinishedWalked(w, visited, r);
    hide WellFormed, TellsWhatIsMissing, EdgeKey;
    if e in r.edges && f in r.edges {
      SharedKeyOnce(r.edges, e, f);
    }
  }

  lemma SharedKeyOnce(edges: seq<GraphEdge>, e: GraphEdge, f: GraphEdge)
    requires forall i, j :: 0 <= i < j < |edges| ==> EdgeKey(edges[i]) != EdgeKey(edges[j])
    requires e in edges && f in edges && EdgeKey(e) == EdgeKey(f)
    ensures e == f
  {
    hide EdgeKey;
    var i :| 0 <= i < |edges| && edges[i] == e;
    var j :| 0 <= j < |edges| && edges[j] == f;
  }

  /** Without caps or filters an edge out of the seed is seen and both its ends admitted. */
  lemma PlainEdgeSeen(w: Walk, visited: Levels, r: WalkResult, rel: Rel)
    requires Answers(w, visited, r) && w.maxNodes <= 0 && w.maxDepth > 0 && w.filter == Filter(true, [], [])
    requires rel in w.g.rels && rel.from == w.seed && EndsExist(w.g) && w.dir == Out && w.kinds == []
    ensures SeenEdge(w, visited, w.maxDepth, GraphEdge(rel.from, rel.to, rel.kind))
    ensures EndsIn(visited, GraphEdge(rel.from, rel.to, rel.kind))
  {
    hide AllNodes, AllEdges, ClashFree, NodesMatch;
    var e := GraphEdge(rel.from, rel.to, rel.kind);
    assert HopIs(w.g.rels, w.dir, w.kinds, rel.from, rel.to, rel);
    assert SeenFrom(w, visited, w.maxDepth, e, rel.from, rel.to);
    AllNodesComplete(w, visited);
    SeenEndsAdmitted(w, visited, e);
  }
}
