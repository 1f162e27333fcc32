/**
 * `Graph`: nodes indexed by label plus the list of edges. The Java nodes
 * keep their own edge sets; the model keeps them in the node values and
 * `Wf` states the agreement `addEdge` maintains between the two.
 */
module Graph {
  import opened Wrappers
  import CU = CollectionUtil
  import NE = NodeEdge

  datatype Graph = Graph(nodes: map<string, NE.Node>, edges: seq<NE.Edge>)

  /**
   * Every node is stored under its label, the edge list has no repeats, its
   * edges join nodes of the graph and are registered on both ends, and a
   * node knows only listed edges it is an end of.
   */
  ghost predicate Wf(g: Graph)
  {
    (forall l :: l in g.nodes ==> g.nodes[l].name == l)
    && CU.NoDup(g.edges)
    && (forall e :: e in g.edges ==> e.from in g.nodes && e.to in g.nodes)
    && (forall e :: e in g.edges ==> e in g.nodes[e.from].edges && e in g.nodes[e.to].edges)
    && (forall l, e :: l in g.nodes && e in g.nodes[l].edges ==> e in g.edges && (e.from == l || e.to == l))
  }

  /** No edge of the graph is an arc. */
  ghost predicate NoArcs(g: Graph, isArc: NE.Edge -> bool)
  {
    forall e :: e in g.edges ==> !isArc(e)
  }

  /** The constructor: the empty graph. */
  function Empty(): (g: Graph)
    ensures Wf(g) && Size(g) == 0
  {
    Graph(map[], [])
  }

  /** `contains(label)`. */
  predicate Contains(g: Graph, name: string)
  {
    name in g.nodes
  }

  /** `size()`. */
  function Size(g: Graph): nat
  {
    |g.nodes|
  }

  /** `getNode(label)`: the node, or `None` for `null`. */
  function GetNode(g: Graph, name: string): (r: Option<NE.Node>)
    ensures r.Some? <==> Contains(g, name)
    ensures r.Some? ==> r.value == g.nodes[name]
  {
    if name in g.nodes then Some(g.nodes[name]) else None
  }

  /**
   * `addNode(label)`: the known node or a fresh one without edges, stored
   * under its own label.
   */
  function AddNode(g: Graph, name: string): (r: (Graph, NE.Node))
    ensures Contains(g, name) ==> r.1 == g.nodes[name]
    ensures !Contains(g, name) ==> r.1 == NE.Node(name, {})
    ensures r.0.edges == g.edges && Contains(r.0, r.1.name)
  {
    var node := if name in g.nodes then g.nodes[name] else NE.Node(name, {});
    (g.(nodes := g.nodes[node.name := node]), node)
  }

  /**
   * In a well-formed graph the node is stored under the label asked for:
   * the graph gains at most that label and stays well-formed, and a known
   * label leaves it as it was.
   */
  lemma AddNodeKeepsWf(g: Graph, name: string)
    requires Wf(g)
    ensures Wf(AddNode(g, name).0)
    ensures AddNode(g, name).0.nodes.Keys == g.nodes.Keys + {name}
    ensures AddNode(g, name).0.nodes[name] == AddNode(g, name).1
    ensures Size(AddNode(g, name).0) <= Size(g) + 1
    ensures Contains(g, name) ==> AddNode(g, name).0 == g
  {
    var r := AddNode(g, name);
    assert r.1.name == name;
    if Contains(g, name) {
      assert r.0.nodes == g.nodes;
    } else {
      assert r.0.nodes == g.nodes[name := NE.Node(name, {})];
      assert forall l, e :: l in r.0.nodes && e in r.0.nodes[l].edges ==> l in g.nodes && e in g.nodes[l].edges;
    }
  }

  /** Adding a label twice is the same as adding it once. */
  lemma AddNodeIdempotent(g: Graph, name: string)
    requires Wf(g)
    ensures AddNode(AddNode(g, name).0, name) == AddNode(g, name)
    ensures GetNode(AddNode(g, name).0, name) == Some(AddNode(g, name).1)
    ensures forall l :: Contains(AddNode(g, name).0, l) <==> Contains(g, l) || l == name
  {
    AddNodeKeepsWf(g, name);
    AddNodeKeepsWf(AddNode(g, name).0, name);
  }

  /** The edges the node with this label gains from `e`. */
  function Gains(e: NE.Edge, l: string): set<NE.Edge>
  {
    if l == e.from || l == e.to then {e} else {}
  }

  /**
   * `addEdge(edge)`: false, and nothing changes, for a listed edge;
   * otherwise the edge is appended and registered on both of its ends.
   */
  function AddEdge(g: Graph, e: NE.Edge): (r: (Graph, bool))
    ensures r.1 <==> e !in g.edges
    ensures !r.1 ==> r.0 == g
    ensures r.1 ==> r.0.edges == g.edges + [e] && r.0.nodes.Keys == g.nodes.Keys
    ensures r.1 ==> forall l :: l in g.nodes ==> r.0.nodes[l] == NE.Node(g.nodes[l].name, g.nodes[l].edges + Gains(e, l))
  {
    if e in g.edges then (g, false)
    else
      var n1 := if e.from in g.nodes then g.nodes[e.from := NE.AddEdge(g.nodes[e.from], e).0] else g.nodes;
      var n2 := if e.to in n1 then n1[e.to := NE.AddEdge(n1[e.to], e).0] else n1;
      var r := Graph(n2, g.edges + [e]);
      assert forall l :: l in g.nodes ==> r.nodes[l] == NE.Node(g.nodes[l].name, g.nodes[l].edges + Gains(e, l));
      (r, true)
  }

  /** Adding an edge between two nodes of a well-formed graph keeps it well-formed. */
  lemma AddEdgeKeepsWf(g: Graph, e: NE.Edge)
    requires Wf(g) && Contains(g, e.from) && Contains(g, e.to)
    ensures Wf(AddEdge(g, e).0)
  {
    if e !in g.edges {
      CU.NoDupConcat(g.edges, [e]);
    }
  }

  /** Adding an edge twice is the same as adding it once. */
  lemma AddEdgeIdempotent(g: Graph, e: NE.Edge)
    ensures AddEdge(AddEdge(g, e).0, e) == (AddEdge(g, e).0, false)
  {
  }

  /** In a well-formed graph a node's neighbours are the ends of the steps out of it. */
  lemma NeighbourEdges(g: Graph, a: string, isArc: NE.Edge -> bool)
    requires Wf(g) && a in g.nodes
    ensures NE.OthersDefined(g.nodes[a], isArc)
    ensures forall b :: b in Nbrs(g, a, isArc) <==> exists e :: e in g.edges && NE.Step(e, a, b, isArc)
    ensures Nbrs(g, a, isArc) <= g.nodes.Keys
  {
    var n := g.nodes[a];
    NE.NeighbourSteps(n, isArc);
    forall b
      ensures b in NE.NeighbourSet(n, isArc) <==> exists e :: e in g.edges && NE.Step(e, a, b, isArc)
    {
      if exists e :: e in g.edges && NE.Step(e, a, b, isArc) {
        var e :| e in g.edges && NE.Step(e, a, b, isArc);
        assert e in n.edges;
      }
    }
  }

  /** In a well-formed graph a node's predecessors are the starts of the steps into it. */
  lemma PredecessorEdges(g: Graph, b: string, isArc: NE.Edge -> bool)
    requires Wf(g) && b in g.nodes
    ensures NE.OthersDefined(g.nodes[b], isArc)
    ensures forall a :: a in NE.PredecessorSet(g.nodes[b], isArc) <==> exists e :: e in g.edges && NE.Step(e, a, b, isArc)
    ensures NE.PredecessorSet(g.nodes[b], isArc) <= g.nodes.Keys
  {
    var n := g.nodes[b];
    NE.PredecessorSteps(n, isArc);
    forall a
      ensures a in NE.PredecessorSet(n, isArc) <==> exists e :: e in g.edges && NE.Step(e, a, b, isArc)
    {
      if exists e :: e in g.edges && NE.Step(e, a, b, isArc) {
        var e :| e in g.edges && NE.Step(e, a, b, isArc);
        assert e in n.edges;
      }
    }
  }

  /**
   * `getNeighbours` and `getPredecessors` are mirror images: b follows a
   * exactly when a precedes b; without arcs both relations are symmetric.
   */
  lemma NeighbourPredecessorDual(g: Graph, a: string, b: string, isArc: NE.Edge -> bool)
    requires Wf(g) && a in g.nodes && b in g.nodes
    ensures NE.Neighbours(g.nodes[a], isArc).Ok? && NE.Predecessors(g.nodes[b], isArc).Ok?
    ensures b in NE.Neighbours(g.nodes[a], isArc).value <==> a in NE.Predecessors(g.nodes[b], isArc).value
    ensures NoArcs(g, isArc) ==> (b in NE.Neighbours(g.nodes[a], isArc).value <==> a in NE.Neighbours(g.nodes[b], isArc).value)
  {
    NeighbourEdges(g, a, isArc);
    NeighbourEdges(g, b, isArc);
    PredecessorEdges(g, b, isArc);
    if NoArcs(g, isArc) {
      if exists e :: e in g.edges && NE.Step(e, a, b, isArc) {
        var e :| e in g.edges && NE.Step(e, a, b, isArc);
        assert NE.Step(e, b, a, isArc);
      }
      if exists e :: e in g.edges && NE.Step(e, b, a, isArc) {
        var e :| e in g.edges && NE.Step(e, b, a, isArc);
        assert NE.Step(e, a, b, isArc);
      }
    }
  }

  /** Each node of the walk is a predecessor of the one before it. */
  ghost predicate PredWalk(g: Graph, w: seq<string>, isArc: NE.Edge -> bool)
  {
    (forall i :: 0 <= i < |w| ==> w[i] in g.nodes)
    && (forall i :: 0 <= i < |w| - 1 ==> w[i + 1] in NE.PredecessorSet(g.nodes[w[i]], isArc))
  }

  /** Following predecessors can lead back to where it started. */
  ghost predicate HasCycle(g: Graph, isArc: NE.Edge -> bool)
  {
    exists w :: |w| >= 2 && w[0] == w[|w| - 1] && PredWalk(g, w, isArc)
  }

  /**
   * `getRoot()`: from any node, follow any predecessor until a node has
   * none; a predecessor met a second time means a cycle and an exception.
   * Which node and which predecessor are picked is left open.
   */
  method GetRoot(g: Graph, isArc: NE.Edge -> bool) returns (r: Result<Option<NE.Node>>)
    requires Wf(g)
    ensures (r.Ok? && r.value.None?) <==> Size(g) == 0
    ensures r.Ok? && r.value.Some? ==> r.value.value in g.nodes.Values && NE.Predecessors(r.value.value, isArc) == Ok({})
    ensures r.Err? ==> r.error == Runtime && HasCycle(g, isArc)
  {
    if |g.nodes| == 0 {
      return Ok(None);
    }
    var curr :| curr in g.nodes;
    var visited: set<string> := {};
    ghost var walk: seq<string> := [curr];
    while true
      invariant curr in g.nodes && visited <= g.nodes.Keys
      invariant |walk| >= 1 && walk[|walk| - 1] == curr && PredWalk(g, walk, isArc)
      invariant visited == CU.Elems(walk[1..])
      decreases |g.nodes.Keys - visited|
    {
      PredecessorsInGraph(g, curr, isArc);
      var pre := NE.PredecessorSet(g.nodes[curr], isArc);
      if pre == {} {
        assert g.nodes[curr] in g.nodes.Values;
        return Ok(Some(g.nodes[curr]));
      }
      var p :| p in pre;
      if p in visited {
        CycleFound(g, walk, p, isArc);
        return Err(Runtime);
      }
      WalkStep(g, walk, p, isArc);
      FewerLeft(g.nodes.Keys, visited, p);
      ElemsSnoc(walk, p);
      visited := visited + {p};
      walk := walk + [p];
      curr := p;
    }
  }

  lemma FewerLeft(keys: set<string>, visited: set<string>, p: string)
    requires p in keys && p !in visited
    ensures |keys - (visited + {p})| < |keys - visited|
  {
    var left := keys - (visited + {p});
    assert keys - visited == left + {p} && p !in left;
  }

  lemma ElemsSnoc(walk: seq<string>, p: string)
    requires |walk| >= 1
    ensures CU.Elems((walk + [p])[1..]) == CU.Elems(walk[1..]) + {p}
  {
    assert (walk + [p])[1..] == walk[1..] + [p];
  }

  /** A node's predecessors are nodes of the graph, and computing them cannot fail. */
  lemma PredecessorsInGraph(g: Graph, b: string, isArc: NE.Edge -> bool)
    requires Wf(g) && b in g.nodes
    ensures NE.OthersDefined(g.nodes[b], isArc)
    ensures NE.PredecessorSet(g.nodes[b], isArc) <= g.nodes.Keys
  {
    PredecessorEdges(g, b, isArc);
  }

  lemma WalkStep(g: Graph, walk: seq<string>, p: string, isArc: NE.Edge -> bool)
    requires |walk| >= 1 && PredWalk(g, walk, isArc) && p in g.nodes
    requires p in NE.PredecessorSet(g.nodes[walk[|walk| - 1]], isArc)
    ensures PredWalk(g, walk + [p], isArc)
  {
    var w := walk + [p];
    forall i | 0 <= i < |w| - 1
      ensures w[i + 1] in NE.PredecessorSet(g.nodes[w[i]], isArc)
    {
      if i < |walk| - 1 {
        assert w[i] == walk[i] && w[i + 1] == walk[i + 1];
      }
    }
  }

  /** A predecessor already on the walk closes a cycle: the walk from its first visit, and back. */
  lemma CycleFound(g: Graph, walk: seq<string>, p: string, isArc: NE.Edge -> bool)
    requires |walk| >= 1 && PredWalk(g, walk, isArc)
    requires p in NE.PredecessorSet(g.nodes[walk[|walk| - 1]], isArc)
    requires p in CU.Elems(walk[1..])
    ensures HasCycle(g, isArc)
  {
    var i :| 1 <= i < |walk| && walk[i] == p;
    var cycle := walk[i..] + [p];
    forall k | 0 <= k < |cycle| - 1
      ensures cycle[k + 1] in NE.PredecessorSet(g.nodes[cycle[k]], isArc)
    {
      assert cycle[k] == walk[i + k];
      if k < |cycle| - 2 {
        assert cycle[k + 1] == walk[i + k + 1];
      }
    }
    assert PredWalk(g, cycle, isArc);
  }

  /** A node's neighbours are nodes of the graph, and computing them cannot fail. */
  lemma NeighboursInGraph(g: Graph, a: string, isArc: NE.Edge -> bool)
    requires Wf(g) && a in g.nodes
    ensures NE.OthersDefined(g.nodes[a], isArc)
    ensures Nbrs(g, a, isArc) <= g.nodes.Keys
  {
    NeighbourEdges(g, a, isArc);
  }

  /** The neighbours of the node with this label. */
  function Nbrs(g: Graph, a: string, isArc: NE.Edge -> bool): set<string>
    requires a in g.nodes
  {
    NE.NeighbourSet(g.nodes[a], isArc)
  }

  /** No neighbour of a member of the set lies outside it. */
  ghost predicate Closed(g: Graph, s: set<string>, isArc: NE.Edge -> bool)
  {
    forall a {:trigger Nbrs(g, a, isArc)} :: a in s && a in g.nodes ==> Nbrs(g, a, isArc) <= s
  }

  /** c is the least closed set that holds n: the nodes reachable from n. */
  ghost predicate Generated(g: Graph, n: string, c: set<string>, isArc: NE.Edge -> bool)
  {
    n in c && Closed(g, c, isArc) && forall s :: n in s && Closed(g, s, isArc) ==> c <= s
  }

  /** c is what some node of the graph reaches. */
  ghost predicate Component(g: Graph, c: set<string>, isArc: NE.Edge -> bool)
  {
    exists n :: Generated(g, n, c, isArc)
  }

  /**
   * The inner loop of `getCliques`: pop a node, skip it when known, else
   * add it and push its neighbours. The Java stack is a set here, which
   * changes only the order in which nodes are met, not the result.
   */
  method Explore(g: Graph, n: string, isArc: NE.Edge -> bool) returns (comp: set<string>)
    requires Wf(g) && n in g.nodes
    ensures comp <= g.nodes.Keys && Generated(g, n, comp, isArc)
  {
    var pending := {n};
    comp := {};
    while pending != {}
      invariant Exploring(g, n, comp, pending, isArc)
      decreases |g.nodes.Keys - comp|, |pending|
    {
      var x :| x in pending;
      ExploreStep(g, n, comp, pending, x, isArc);
      if x !in comp {
        comp, pending := comp + {x}, pending - {x} + Nbrs(g, x, isArc);
      } else {
        pending := pending - {x};
      }
    }
    ExploreDone(g, n, comp, pending, isArc);
  }

  /**
   * What the exploring loop keeps: the nodes met so far and those still
   * pending lie in every closed set that holds n, and whatever neighbour of
   * a met node is not met yet is pending.
   */
  ghost predicate Exploring(g: Graph, n: string, comp: set<string>, pending: set<string>, isArc: NE.Edge -> bool)
  {
    Wf(g)
    && pending <= g.nodes.Keys && comp <= g.nodes.Keys
    && n in comp + pending
    && (forall a :: a in comp ==> Nbrs(g, a, isArc) <= comp + pending)
    && (forall s :: n in s && Closed(g, s, isArc) ==> comp <= s && pending <= s)
  }

  lemma ExploreStep(g: Graph, n: string, comp: set<string>, pending: set<string>, x: string, isArc: NE.Edge -> bool)
    requires Exploring(g, n, comp, pending, isArc) && x in pending
    ensures x !in comp ==> Exploring(g, n, comp + {x}, pending - {x} + Nbrs(g, x, isArc), isArc)
    ensures x !in comp ==> |g.nodes.Keys - (comp + {x})| < |g.nodes.Keys - comp|
    ensures x in comp ==> Exploring(g, n, comp, pending - {x}, isArc)
  {
    if x !in comp {
      NeighboursInGraph(g, x, isArc);
      FewerLeft(g.nodes.Keys, comp, x);
    }
  }

  lemma ExploreDone(g: Graph, n: string, comp: set<string>, pending: set<string>, isArc: NE.Edge -> bool)
    requires Exploring(g, n, comp, pending, isArc) && pending == {}
    ensures comp <= g.nodes.Keys && Generated(g, n, comp, isArc)
  {
  }

  /** Without arcs, what lies outside a closed set is closed too. */
  lemma ComplementClosed(g: Graph, s: set<string>, isArc: NE.Edge -> bool)
    requires Wf(g) && NoArcs(g, isArc) && Closed(g, s, isArc)
    ensures Closed(g, g.nodes.Keys - s, isArc)
  {
    forall a, b | a in g.nodes.Keys - s && b in Nbrs(g, a, isArc)
      ensures b in g.nodes.Keys - s
    {
      NeighbourEdges(g, a, isArc);
      if b in s {
        NeighbourPredecessorDual(g, a, b, isArc);
        NeighbourEdges(g, b, isArc);
        assert false;
      }
    }
  }

  /** The node sets, each non-empty and closed, cover the graph; without arcs they are disjoint. */
  ghost predicate Parts(g: Graph, comps: seq<set<string>>, isArc: NE.Edge -> bool)
  {
    SetsClosed(g, comps, isArc) && SetsCover(g, comps) && SetsApart(g, comps, isArc)
  }

  ghost predicate SetsClosed(g: Graph, comps: seq<set<string>>, isArc: NE.Edge -> bool)
  {
    forall i :: 0 <= i < |comps| ==> comps[i] <= g.nodes.Keys && comps[i] != {} && Closed(g, comps[i], isArc)
  }

  ghost predicate SetsCover(g: Graph, comps: seq<set<string>>)
  {
    forall l :: l in g.nodes ==> exists i :: 0 <= i < |comps| && l in comps[i]
  }

  ghost predicate SetsApart(g: Graph, comps: seq<set<string>>, isArc: NE.Edge -> bool)
  {
    NoArcs(g, isArc) ==> forall i, j :: 0 <= i < j < |comps| ==> comps[i] * comps[j] == {}
  }

  /** Such a partition whose every set is what one of its nodes reaches. */
  ghost predicate Partitioned(g: Graph, comps: seq<set<string>>, isArc: NE.Edge -> bool)
  {
    Parts(g, comps, isArc) && forall i :: 0 <= i < |comps| ==> Component(g, comps[i], isArc)
  }

  /**
   * The outer loop of `getCliques`: pop any remaining node, collect what it
   * reaches, and drop those nodes from the remaining ones.
   */
  method CliqueSets(g: Graph, isArc: NE.Edge -> bool) returns (comps: seq<set<string>>)
    requires Wf(g)
    ensures Partitioned(g, comps, isArc)
  {
    var remaining := g.nodes.Keys;
    comps := [];
    ghost var seeds: seq<string> := [];
    while remaining != {}
      invariant Splitting(g, comps, seeds, remaining, isArc)
      decreases |remaining|
    {
      var n :| n in remaining;
      var comp := Explore(g, n, isArc);
      SplitStep(g, comps, seeds, remaining, n, comp, isArc);
      comps, seeds, remaining := comps + [comp], seeds + [n], remaining - comp;
    }
    SplitDone(g, comps, seeds, remaining, isArc);
  }

  /**
   * What the component loop keeps: each component is what its seed
   * reaches, every node no longer remaining lies in one, no remaining node
   * does, and without arcs the components are disjoint.
   */
  ghost predicate Splitting(g: Graph, comps: seq<set<string>>, seeds: seq<string>, remaining: set<string>, isArc: NE.Edge -> bool)
  {
    Wf(g) && remaining <= g.nodes.Keys && |seeds| == |comps|
    && (forall i :: 0 <= i < |comps| ==> comps[i] <= g.nodes.Keys && Generated(g, seeds[i], comps[i], isArc))
    && (forall l :: l in g.nodes && l !in remaining ==> exists i :: 0 <= i < |comps| && l in comps[i])
    && (forall i :: 0 <= i < |comps| ==> comps[i] * remaining == {})
    && SetsApart(g, comps, isArc)
  }

  lemma SplitStep(g: Graph, comps: seq<set<string>>, seeds: seq<string>, remaining: set<string>, n: string, comp: set<string>, isArc: NE.Edge -> bool)
    requires Splitting(g, comps, seeds, remaining, isArc) && n in remaining
    requires comp <= g.nodes.Keys && Generated(g, n, comp, isArc)
    ensures Splitting(g, comps + [comp], seeds + [n], remaining - comp, isArc)
    ensures |remaining - comp| < |remaining|
  {
    SplitSeeds(g, comps, seeds, n, comp, isArc);
    SplitCover(g, comps, remaining, comp);
    if NoArcs(g, isArc) {
      SplitApart(g, comps, seeds, remaining, n, comp, isArc);
    }
    var left := remaining - comp;
    assert remaining == left + (remaining * comp) && n in remaining * comp;
    assert forall i :: 0 <= i < |comps + [comp]| ==> (comps + [comp])[i] * left == {};
  }

  lemma SplitSeeds(g: Graph, comps: seq<set<string>>, seeds: seq<string>, n: string, comp: set<string>, isArc: NE.Edge -> bool)
    requires |seeds| == |comps|
    requires forall i :: 0 <= i < |comps| ==> comps[i] <= g.nodes.Keys && Generated(g, seeds[i], comps[i], isArc)
    requires comp <= g.nodes.Keys && Generated(g, n, comp, isArc)
    ensures forall i :: 0 <= i < |comps| + 1 ==> (comps + [comp])[i] <= g.nodes.Keys && Generated(g, (seeds + [n])[i], (comps + [comp])[i], isArc)
  {
    forall i | 0 <= i < |comps| + 1
      ensures (comps + [comp])[i] <= g.nodes.Keys && Generated(g, (seeds + [n])[i], (comps + [comp])[i], isArc)
    {
      if i < |comps| {
        assert (comps + [comp])[i] == comps[i] && (seeds + [n])[i] == seeds[i];
      }
    }
  }

  lemma SplitCover(g: Graph, comps: seq<set<string>>, remaining: set<string>, comp: set<string>)
    requires forall l :: l in g.nodes && l !in remaining ==> exists i :: 0 <= i < |comps| && l in comps[i]
    ensures forall l :: l in g.nodes && l !in remaining - comp ==> exists i :: 0 <= i < |comps| + 1 && l in (comps + [comp])[i]
  {
    var comps' := comps + [comp];
    forall l | l in g.nodes && l !in remaining - comp
      ensures exists i :: 0 <= i < |comps'| && l in comps'[i]
    {
      if l in comp {
        assert comps'[|comps|] == comp;
      } else {
        var i :| 0 <= i < |comps| && l in comps[i];
        assert comps'[i] == comps[i];
      }
    }
  }

  lemma SplitApart(g: Graph, comps: seq<set<string>>, seeds: seq<string>, remaining: set<string>, n: string, comp: set<string>, isArc: NE.Edge -> bool)
    requires Wf(g) && NoArcs(g, isArc) && |seeds| == |comps| && n in remaining && n in g.nodes
    requires forall i :: 0 <= i < |comps| ==> Generated(g, seeds[i], comps[i], isArc)
    requires forall i :: 0 <= i < |comps| ==> comps[i] * remaining == {}
    requires forall i, j :: 0 <= i < j < |comps| ==> comps[i] * comps[j] == {}
    requires Generated(g, n, comp, isArc)
    ensures forall i, j :: 0 <= i < j < |comps| + 1 ==> (comps + [comp])[i] * (comps + [comp])[j] == {}
  {
    var comps' := comps + [comp];
    forall i, j | 0 <= i < j < |comps'|
      ensures comps'[i] * comps'[j] == {}
    {
      if j == |comps| {
        OutsideDisjoint(comps[i], remaining, n);
        ComponentsApart(g, comps[i], seeds[i], n, comp, isArc);
      } else {
        assert comps'[i] == comps[i] && comps'[j] == comps[j];
      }
    }
  }

  lemma OutsideDisjoint(a: set<string>, b: set<string>, x: string)
    requires a * b == {} && x in b
    ensures x !in a
  {
    assert x !in a * b;
  }

  lemma SplitDone(g: Graph, comps: seq<set<string>>, seeds: seq<string>, remaining: set<string>, isArc: NE.Edge -> bool)
    requires Splitting(g, comps, seeds, remaining, isArc) && remaining == {}
    ensures Partitioned(g, comps, isArc)
  {
    SplitDoneSets(g, comps, seeds, isArc);
    SplitDoneCover(g, comps, remaining);
    assert Parts(g, comps, isArc);
  }

  lemma SplitDoneSets(g: Graph, comps: seq<set<string>>, seeds: seq<string>, isArc: NE.Edge -> bool)
    requires |seeds| == |comps|
    requires forall i :: 0 <= i < |comps| ==> comps[i] <= g.nodes.Keys && Generated(g, seeds[i], comps[i], isArc)
    ensures SetsClosed(g, comps, isArc)
    ensures forall i :: 0 <= i < |comps| ==> Component(g, comps[i], isArc)
  {
    forall i | 0 <= i < |comps|
      ensures comps[i] != {} && Component(g, comps[i], isArc)
    {
      assert Generated(g, seeds[i], comps[i], isArc);
    }
  }

  lemma SplitDoneCover(g: Graph, comps: seq<set<string>>, remaining: set<string>)
    requires forall l :: l in g.nodes && l !in remaining ==> exists i :: 0 <= i < |comps| && l in comps[i]
    requires remaining == {}
    ensures SetsCover(g, comps)
  {
  }

  /** Without arcs, a node outside one component reaches nothing inside it. */
  lemma ComponentsApart(g: Graph, c: set<string>, m: string, n: string, comp: set<string>, isArc: NE.Edge -> bool)
    requires Wf(g) && NoArcs(g, isArc) && Generated(g, m, c, isArc)
    requires n in g.nodes && n !in c && Generated(g, n, comp, isArc)
    ensures c * comp == {}
  {
    ComplementClosed(g, c, isArc);
    assert n in g.nodes.Keys - c;
    assert comp <= g.nodes.Keys - c;
  }

  /** The edges of `es` with both ends in s, in order. */
  function Inside(es: seq<NE.Edge>, s: set<string>): (r: seq<NE.Edge>)
    ensures forall e :: e in r <==> e in es && e.from in s && e.to in s
  {
    if |es| == 0 then []
    else
      var rest := Inside(es[1..], s);
      if es[0].from in s && es[0].to in s then
        assert es[0] in es;
        [es[0]] + rest
      else rest
  }

  /** Keeping some edges of a list without repeats leaves none repeated. */
  lemma {:induction false} InsideNoDup(es: seq<NE.Edge>, s: set<string>)
    requires CU.NoDup(es)
    ensures CU.NoDup(Inside(es, s))
    decreases |es|
  {
    if |es| > 0 {
      NoDupDrop([], es);
      assert [] + es[1..] == es[1..];
      InsideNoDup(es[1..], s);
      if es[0].from in s && es[0].to in s {
        assert es[0] !in es[1..];
        CU.NoDupConcat([es[0]], Inside(es[1..], s));
      }
    }
  }

  lemma NoDupDrop(edges: seq<NE.Edge>, es: seq<NE.Edge>)
    requires |es| > 0 && CU.NoDup(edges + es)
    ensures CU.NoDup(edges + es[1..])
    ensures es[0] !in edges && es[0] !in es[1..]
  {
    var all := edges + es;
    var rest := edges + es[1..];
    forall i, j | 0 <= i < j < |rest|
      ensures rest[i] != rest[j]
    {
      var i' := if i < |edges| then i else i + 1;
      var j' := if j < |edges| then j else j + 1;
      assert rest[i] == all[i'] && rest[j] == all[j'];
    }
    assert all[|edges|] == es[0];
    forall k | 0 <= k < |edges|
      ensures edges[k] != es[0]
    {
      assert all[k] == edges[k];
    }
    forall k | 0 <= k < |es| - 1
      ensures es[1..][k] != es[0]
    {
      assert all[|edges| + 1 + k] == es[1..][k];
    }
  }

  /**
   * The edge-copying loop of `getCliques` as written: the copy is built on
   * the original end nodes, so `addEdge` registers it there (where an equal
   * edge is already known) and never on the subgraph's own nodes.
   */
  function CopyEdgesAsWritten(sub: Graph, es: seq<NE.Edge>): (r: Graph)
    ensures r.nodes == sub.nodes
    decreases |es|
  {
    if |es| == 0 then sub
    else
      var e := es[0];
      var next := if e.from in sub.nodes && e.to in sub.nodes && e !in sub.edges then sub.(edges := sub.edges + [e]) else sub;
      CopyEdgesAsWritten(next, es[1..])
  }

  /**
   * The same loop with each copy registered on the subgraph's own nodes:
   * `addEdge` of the subgraph applied to the listed edges inside it.
   */
  function CopyEdges(sub: Graph, es: seq<NE.Edge>): (r: Graph)
    ensures r.nodes.Keys == sub.nodes.Keys
    decreases |es|
  {
    if |es| == 0 then sub
    else
      var e := es[0];
      var next := if e.from in sub.nodes && e.to in sub.nodes then AddEdge(sub, e).0 else sub;
      CopyEdges(next, es[1..])
  }

  /** One copying step when the edge lies inside: the list grows by exactly that edge. */
  lemma CopyStepInside(edges: seq<NE.Edge>, es: seq<NE.Edge>)
    requires |es| > 0 && CU.NoDup(edges + es)
    ensures es[0] !in edges && CU.NoDup(edges + [es[0]] + es[1..])
  {
    NoDupDrop(edges, es);
    assert edges + [es[0]] + es[1..] == edges + es;
  }

  /** Without repeats, the as-written copy lists exactly the edges inside the subgraph, in order. */
  lemma {:induction false} CopyEdgesAsWrittenLists(sub: Graph, es: seq<NE.Edge>)
    requires CU.NoDup(sub.edges + es)
    ensures CopyEdgesAsWritten(sub, es).edges == sub.edges + Inside(es, sub.nodes.Keys)
    decreases |es|
  {
    if |es| > 0 {
      var e := es[0];
      if e.from in sub.nodes && e.to in sub.nodes {
        CopyStepInside(sub.edges, es);
        var next := sub.(edges := sub.edges + [e]);
        CopyEdgesAsWrittenLists(next, es[1..]);
        assert next.edges + Inside(es[1..], sub.nodes.Keys) == sub.edges + Inside(es, sub.nodes.Keys);
      } else {
        NoDupDrop(sub.edges, es);
        CopyEdgesAsWrittenLists(sub, es[1..]);
      }
    }
  }

  /** Copying an edge that lies inside appends it, and leaves the rest of the list without repeats. */
  lemma AddInside(sub: Graph, es: seq<NE.Edge>) returns (next: Graph)
    requires |es| > 0 && CU.NoDup(sub.edges + es) && es[0].from in sub.nodes && es[0].to in sub.nodes
    ensures next.edges == sub.edges + [es[0]] && next.nodes.Keys == sub.nodes.Keys
    ensures CU.NoDup(next.edges + es[1..])
    ensures CopyEdges(sub, es) == CopyEdges(next, es[1..])
    ensures Inside(es, sub.nodes.Keys) == [es[0]] + Inside(es[1..], sub.nodes.Keys)
  {
    next := AddEdge(sub, es[0]).0;
    CopyStepInside(sub.edges, es);
  }

  /** Without repeats, the corrected copy lists the same edges. */
  lemma {:induction false} CopyEdgesLists(sub: Graph, es: seq<NE.Edge>)
    requires CU.NoDup(sub.edges + es)
    ensures CopyEdges(sub, es).edges == sub.edges + Inside(es, sub.nodes.Keys)
    decreases |es|, 1
  {
    if |es| > 0 {
      if es[0].from in sub.nodes && es[0].to in sub.nodes {
        CopyListsInside(sub, es);
      } else {
        NoDupDrop(sub.edges, es);
        CopyEdgesLists(sub, es[1..]);
      }
    }
  }

  /** The step of `CopyEdgesLists` for an edge inside the subgraph. */
  lemma {:induction false} CopyListsInside(sub: Graph, es: seq<NE.Edge>)
    requires |es| > 0 && CU.NoDup(sub.edges + es) && es[0].from in sub.nodes && es[0].to in sub.nodes
    ensures CopyEdges(sub, es).edges == sub.edges + Inside(es, sub.nodes.Keys)
    decreases |es|, 0
  {
    var next := AddInside(sub, es);
    CopyEdgesLists(next, es[1..]);
    Rejoin(sub.edges, es[0], Inside(es[1..], sub.nodes.Keys));
  }

  lemma Rejoin<E>(a: seq<E>, e: E, b: seq<E>)
    ensures a + [e] + b == a + ([e] + b)
  {
  }

  /** The corrected copy keeps the subgraph well-formed. */
  lemma {:induction false} CopyEdgesWf(sub: Graph, es: seq<NE.Edge>)
    requires Wf(sub)
    ensures Wf(CopyEdges(sub, es))
    decreases |es|
  {
    if |es| > 0 {
      var e := es[0];
      var next := if e.from in sub.nodes && e.to in sub.nodes then AddEdge(sub, e).0 else sub;
      if e.from in sub.nodes && e.to in sub.nodes {
        AddEdgeKeepsWf(sub, e);
      }
      CopyEdgesWf(next, es[1..]);
    }
  }

  /** The bare nodes of a component, each without edges. */
  function Bare(comp: set<string>): (g: Graph)
    ensures g.nodes.Keys == comp && g.edges == [] && Wf(g)
    ensures forall l :: l in comp ==> g.nodes[l] == NE.Node(l, {})
  {
    Graph(map l | l in comp :: NE.Node(l, {}), [])
  }

  /** One component graph as `getCliques` builds it. */
  function SubGraphAsWritten(g: Graph, comp: set<string>): (r: Graph)
    ensures r.nodes.Keys == comp
    ensures forall l :: l in comp ==> r.nodes[l] == NE.Node(l, {})
  {
    CopyEdgesAsWritten(Bare(comp), g.edges)
  }

  /** One component graph with its edges registered on its own nodes. */
  function SubGraph(g: Graph, comp: set<string>): (r: Graph)
    ensures r.nodes.Keys == comp
  {
    CopyEdges(Bare(comp), g.edges)
  }

  /** Both component graphs list exactly the original edges with both ends inside. */
  lemma SubGraphEdges(g: Graph, comp: set<string>)
    requires Wf(g)
    ensures SubGraphAsWritten(g, comp).edges == Inside(g.edges, comp)
    ensures SubGraph(g, comp).edges == Inside(g.edges, comp)
    ensures Wf(SubGraph(g, comp))
  {
    CopyEdgesWf(Bare(comp), g.edges);
    assert Bare(comp).edges + g.edges == g.edges;
    CopyEdgesAsWrittenLists(Bare(comp), g.edges);
    CopyEdgesLists(Bare(comp), g.edges);
  }

  /**
   * In a graph without arcs, a component node keeps every edge it had:
   * its far ends are its neighbours, which lie in the closed component.
   */
  lemma SubGraphKeepsNodes(g: Graph, comp: set<string>, isArc: NE.Edge -> bool, l: string)
    requires Wf(g) && NoArcs(g, isArc) && comp <= g.nodes.Keys && Closed(g, comp, isArc) && l in comp
    ensures SubGraph(g, comp).nodes[l] == g.nodes[l]
  {
    var r := SubGraph(g, comp);
    SubGraphEdges(g, comp);
    NeighboursInGraph(g, l, isArc);
    forall e
      ensures e in r.nodes[l].edges <==> e in g.nodes[l].edges
    {
      EdgesAt(g, l, e);
      EdgesAt(r, l, e);
      if e in g.nodes[l].edges {
        assert NE.Across(e, l) in Nbrs(g, l, isArc);
      }
    }
    EdgesAt(g, l, NE.Edge(l, l, 0));
    EdgesAt(r, l, NE.Edge(l, l, 0));
  }

  /** What a well-formed graph knows about one node: its label, and the listed edges it is an end of. */
  lemma EdgesAt(g: Graph, l: string, e: NE.Edge)
    requires Wf(g) && l in g.nodes
    ensures g.nodes[l].name == l
    ensures e in g.nodes[l].edges <==> e in g.edges && (e.from == l || e.to == l)
  {
  }

  /** Everything `GetCliques` promises about one component graph. */
  lemma CliqueFacts(g: Graph, comp: set<string>, isArc: NE.Edge -> bool)
    requires Wf(g) && comp <= g.nodes.Keys && comp != {} && Closed(g, comp, isArc)
    ensures |SubGraph(g, comp).nodes| > 0 && Wf(SubGraph(g, comp))
    ensures SubGraph(g, comp).edges == Inside(g.edges, comp)
    ensures SubGraphAsWritten(g, comp).edges == Inside(g.edges, comp)
    ensures NoArcs(g, isArc) ==> forall l :: l in comp ==> SubGraph(g, comp).nodes[l] == g.nodes[l]
  {
    var n :| n in comp;
    assert n in SubGraph(g, comp).nodes;
    SubGraphEdges(g, comp);
    if NoArcs(g, isArc) {
      forall l | l in comp
        ensures SubGraph(g, comp).nodes[l] == g.nodes[l]
      {
        SubGraphKeepsNodes(g, comp, isArc, l);
      }
    }
  }

  /**
   * The component graphs cover the graph, each is closed under
   * `getNeighbours` and lists exactly the original edges inside it, and
   * without arcs no two share a node.
   */
  ghost predicate Cliques(g: Graph, cliques: seq<Graph>, isArc: NE.Edge -> bool)
  {
    CliquesCover(g, cliques) && CliquesClosed(g, cliques, isArc) && CliquesEdges(g, cliques) && CliquesApart(g, cliques, isArc)
  }

  ghost predicate CliquesCover(g: Graph, cliques: seq<Graph>)
  {
    forall l :: l in g.nodes ==> exists i :: 0 <= i < |cliques| && l in cliques[i].nodes
  }

  ghost predicate CliquesClosed(g: Graph, cliques: seq<Graph>, isArc: NE.Edge -> bool)
  {
    forall i :: 0 <= i < |cliques| ==> cliques[i].nodes.Keys <= g.nodes.Keys && Closed(g, cliques[i].nodes.Keys, isArc)
  }

  ghost predicate CliquesEdges(g: Graph, cliques: seq<Graph>)
  {
    forall i :: 0 <= i < |cliques| ==> cliques[i].edges == Inside(g.edges, cliques[i].nodes.Keys)
  }

  ghost predicate CliquesApart(g: Graph, cliques: seq<Graph>, isArc: NE.Edge -> bool)
  {
    NoArcs(g, isArc) ==> forall i, j :: 0 <= i < j < |cliques| ==> cliques[i].nodes.Keys * cliques[j].nodes.Keys == {}
  }

  /** The component graph of one node set, corrected or as written. */
  function Build(g: Graph, comp: set<string>, corrected: bool): Graph
  {
    if corrected then SubGraph(g, comp) else SubGraphAsWritten(g, comp)
  }

  /** The component graphs have the partition's node sets and list the original edges inside them. */
  ghost predicate Shaped(g: Graph, comps: seq<set<string>>, cliques: seq<Graph>)
  {
    |cliques| == |comps|
    && forall i :: 0 <= i < |comps| ==> cliques[i].nodes.Keys == comps[i] && cliques[i].edges == Inside(g.edges, comps[i])
  }

  /** The component graphs built from a partition of the nodes. */
  lemma CliquesFromParts(g: Graph, comps: seq<set<string>>, cliques: seq<Graph>, isArc: NE.Edge -> bool)
    requires Parts(g, comps, isArc) && Shaped(g, comps, cliques)
    ensures Cliques(g, cliques, isArc)
  {
    CoverFromParts(g, comps, cliques);
    EdgesFromParts(g, comps, cliques);
    ClosedFromParts(g, comps, cliques, isArc);
    ApartFromParts(g, comps, cliques, isArc);
  }

  lemma CoverFromParts(g: Graph, comps: seq<set<string>>, cliques: seq<Graph>)
    requires SetsCover(g, comps) && Shaped(g, comps, cliques)
    ensures CliquesCover(g, cliques)
  {
    forall l | l in g.nodes
      ensures exists i :: 0 <= i < |cliques| && l in cliques[i].nodes
    {
      var i :| 0 <= i < |comps| && l in comps[i];
      assert l in cliques[i].nodes.Keys;
    }
  }

  lemma EdgesFromParts(g: Graph, comps: seq<set<string>>, cliques: seq<Graph>)
    requires Shaped(g, comps, cliques)
    ensures CliquesEdges(g, cliques)
  {
  }

  lemma ClosedFromParts(g: Graph, comps: seq<set<string>>, cliques: seq<Graph>, isArc: NE.Edge -> bool)
    requires SetsClosed(g, comps, isArc) && Shaped(g, comps, cliques)
    ensures CliquesClosed(g, cliques, isArc)
  {
  }

  lemma ApartFromParts(g: Graph, comps: seq<set<string>>, cliques: seq<Graph>, isArc: NE.Edge -> bool)
    requires SetsApart(g, comps, isArc) && Shaped(g, comps, cliques)
    ensures CliquesApart(g, cliques, isArc)
  {
  }

  /** The component graphs of all the node sets, in order. */
  function BuildAll(g: Graph, comps: seq<set<string>>, corrected: bool): (r: seq<Graph>)
    ensures |r| == |comps| && forall i :: 0 <= i < |comps| ==> r[i] == Build(g, comps[i], corrected)
  {
    seq(|comps|, i requires 0 <= i < |comps| => Build(g, comps[i], corrected))
  }

  /** Building each component graph from its node set gives them that shape. */
  lemma CliquesShape(g: Graph, comps: seq<set<string>>, isArc: NE.Edge -> bool, corrected: bool)
    requires Wf(g)
    requires SetsClosed(g, comps, isArc)
    ensures Shaped(g, comps, BuildAll(g, comps, corrected))
  {
    var cliques := BuildAll(g, comps, corrected);
    forall i | 0 <= i < |comps|
      ensures cliques[i].nodes.Keys == comps[i] && cliques[i].edges == Inside(g.edges, comps[i])
    {
      CliqueFacts(g, comps[i], isArc);
    }
  }

  /** No node of an as-written component graph has an edge registered on it. */
  ghost predicate Unregistered(cliques: seq<Graph>)
  {
    forall i, l :: 0 <= i < |cliques| && l in cliques[i].nodes ==> cliques[i].nodes[l].edges == {}
  }

  lemma AsWrittenUnregistered(g: Graph, comps: seq<set<string>>)
    ensures Unregistered(BuildAll(g, comps, false))
  {
  }

  /**
   * Each corrected component graph is well-formed and not empty, and
   * without arcs each node in it is the original node with all its edges.
   */
  ghost predicate Registered(g: Graph, cliques: seq<Graph>, isArc: NE.Edge -> bool)
  {
    (forall i :: 0 <= i < |cliques| ==> Wf(cliques[i]) && |cliques[i].nodes| > 0)
    && (NoArcs(g, isArc) ==> forall i, l :: 0 <= i < |cliques| && l in cliques[i].nodes ==> l in g.nodes && cliques[i].nodes[l] == g.nodes[l])
  }

  lemma CorrectedRegistered(g: Graph, comps: seq<set<string>>, isArc: NE.Edge -> bool)
    requires Wf(g)
    requires SetsClosed(g, comps, isArc)
    ensures Registered(g, BuildAll(g, comps, true), isArc)
  {
    var cliques := BuildAll(g, comps, true);
    forall i | 0 <= i < |cliques|
      ensures Wf(cliques[i]) && |cliques[i].nodes| > 0
      ensures NoArcs(g, isArc) ==> forall l :: l in cliques[i].nodes ==> l in g.nodes && cliques[i].nodes[l] == g.nodes[l]
    {
      CliqueFacts(g, comps[i], isArc);
    }
  }

  /**
   * `getCliques()` as written: the component graphs are as `Cliques` says,
   * but none of their nodes has an edge of its own.
   */
  method GetCliquesAsWritten(g: Graph, isArc: NE.Edge -> bool) returns (cliques: seq<Graph>)
    requires Wf(g)
    ensures Cliques(g, cliques, isArc) && Unregistered(cliques)
  {
    var comps := CliqueSets(g, isArc);
    cliques := BuildAll(g, comps, false);
    CliquesShape(g, comps, isArc, false);
    CliquesFromParts(g, comps, cliques, isArc);
    AsWrittenUnregistered(g, comps);
  }

  /**
   * `getCliques()` with each copied edge registered on the component's own
   * nodes: the component graphs are as `Cliques` says, and well-formed.
   */
  method GetCliques(g: Graph, isArc: NE.Edge -> bool) returns (cliques: seq<Graph>)
    requires Wf(g)
    ensures Cliques(g, cliques, isArc) && Registered(g, cliques, isArc)
  {
    var comps := CliqueSets(g, isArc);
    cliques := BuildAll(g, comps, true);
    CliquesShape(g, comps, isArc, true);
    CliquesFromParts(g, comps, cliques, isArc);
    CorrectedRegistered(g, comps, isArc);
  }

  /** The two-node graph a - b with one undirected edge. */
  function Pair(): (g: Graph)
  {
    var e := NE.Edge("a", "b", 0);
    Graph(map["a" := NE.Node("a", {e}), "b" := NE.Node("b", {e})], [e])
  }

  lemma PairWf()
    ensures Wf(Pair())
  {
  }

  /**
   * In the as-written component of a - b, node a has lost its neighbour:
   * the component lists the edge but no node knows it, so it is not a
   * well-formed graph; the corrected component keeps node a as it was.
   */
  lemma CliquesAsWrittenLoseEdges(isArc: NE.Edge -> bool)
    requires forall e :: !isArc(e)
    ensures NE.Neighbours(Pair().nodes["a"], isArc) == Ok({"b"})
    ensures NE.Neighbours(SubGraphAsWritten(Pair(), {"a", "b"}).nodes["a"], isArc) == Ok({})
    ensures !Wf(SubGraphAsWritten(Pair(), {"a", "b"}))
    ensures SubGraph(Pair(), {"a", "b"}).nodes["a"] == Pair().nodes["a"]
  {
    PairNeighbours(isArc);
    AsWrittenBare(isArc);
    AsWrittenNotWf();
    CorrectedKeepsPair(isArc);
  }

  lemma PairNeighbours(isArc: NE.Edge -> bool)
    requires forall e :: !isArc(e)
    ensures NE.Neighbours(Pair().nodes["a"], isArc) == Ok({"b"})
  {
    var n := Pair().nodes["a"];
    var e := NE.Edge("a", "b", 0);
    assert n == NE.Node("a", {e});
    assert NE.OthersDefined(n, isArc);
    assert NE.NeighbourSet(n, isArc) == {"b"} by {
      assert NE.Across(e, "a") == "b";
    }
  }

  lemma AsWrittenBare(isArc: NE.Edge -> bool)
    ensures NE.Neighbours(SubGraphAsWritten(Pair(), {"a", "b"}).nodes["a"], isArc) == Ok({})
  {
    var n := SubGraphAsWritten(Pair(), {"a", "b"}).nodes["a"];
    assert n == NE.Node("a", {});
    assert NE.NeighbourSet(n, isArc) == {};
  }

  lemma AsWrittenNotWf()
    ensures !Wf(SubGraphAsWritten(Pair(), {"a", "b"}))
  {
    var g := Pair();
    var e := NE.Edge("a", "b", 0);
    PairWf();
    SubGraphEdges(g, {"a", "b"});
    var sub := SubGraphAsWritten(g, {"a", "b"});
    assert e in g.edges && e.from in {"a", "b"} && e.to in {"a", "b"};
    assert e in sub.edges;
    assert sub.nodes[e.from].edges == {};
  }

  lemma CorrectedKeepsPair(isArc: NE.Edge -> bool)
    requires forall e :: !isArc(e)
    ensures SubGraph(Pair(), {"a", "b"}).nodes["a"] == Pair().nodes["a"]
  {
    var g := Pair();
    PairWf();
    assert g.nodes.Keys == {"a", "b"};
    forall x | x in {"a", "b"} && x in g.nodes
      ensures Nbrs(g, x, isArc) <= {"a", "b"}
    {
      NeighboursInGraph(g, x, isArc);
    }
    assert Closed(g, {"a", "b"}, isArc);
    SubGraphKeepsNodes(g, {"a", "b"}, isArc, "a");
  }
}
