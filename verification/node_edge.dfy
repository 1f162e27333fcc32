/**
 * The graph package's `Edge` and `Node`. A node is equal to any node with
 * the same label, so the model names nodes by label: an edge joins two
 * labels, and Java's `Edge.equals` (same from, same to, same weight) is
 * equality of the datatype. Whether an edge is an arc (`isArc`) is not
 * defined in the edge class itself; it is a parameter here.
 */
module NodeEdge {
  import opened Wrappers
  import Text

  datatype Edge = Edge(from: string, to: string, weight: int)

  /** `getOther(node)`: the opposite end, `to` checked first; a node off the edge is an error. */
  function GetOther(e: Edge, node: string): (r: Result<string>)
    ensures r.Ok? <==> node == e.from || node == e.to
    ensures r.Err? ==> r.error == Runtime
    ensures r.Ok? && node == e.to ==> r.value == e.from
    ensures r.Ok? && node != e.to ==> r.value == e.to
  {
    if e.to == node then Ok(e.from)
    else if e.from == node then Ok(e.to)
    else Err(Runtime)
  }

  /** `getNodes()`: both ends, `from` first. */
  function GetNodes(e: Edge): seq<string>
  {
    [e.from, e.to]
  }

  /** Going to the other end twice returns to the start. */
  lemma GetOtherTwice(e: Edge, node: string)
    requires GetOther(e, node).Ok?
    ensures GetOther(e, GetOther(e, node).value) == Ok(node)
  {
  }

  /** The nodes of an edge are exactly those `getOther` accepts. */
  lemma GetNodesAreEnds(e: Edge, node: string)
    ensures node in GetNodes(e) <==> GetOther(e, node).Ok?
    ensures |GetNodes(e)| == 2 && GetNodes(e)[0] == e.from && GetNodes(e)[1] == e.to
  {
  }

  /** `equals(obj)`, with `None` for `null` and for objects that are not edges. */
  predicate EdgeEquals(e: Edge, obj: Option<Edge>)
  {
    obj.Some? && obj.value.to == e.to && obj.value.from == e.from && obj.value.weight == e.weight
  }

  /** Edge equality is value equality, and it tells the two directions apart. */
  lemma EdgeEqualsIsIdentity(e: Edge, f: Edge)
    ensures EdgeEquals(e, Some(f)) <==> e == f
    ensures e.from != e.to ==> !EdgeEquals(e, Some(Edge(e.to, e.from, e.weight)))
  {
  }

  /** `Node.toString()`: the label in parentheses. */
  function NodeString(name: string): (s: string)
    ensures |s| == |name| + 2 && s[0] == '(' && s[|s| - 1] == ')' && s[1..|s| - 1] == name
  {
    "(" + name + ")"
  }

  /** `Edge.toString()`: "(from)-(to)", with the weight in between when it is positive. */
  function EdgeString(e: Edge): (s: string)
    ensures NodeString(e.from) <= s
    ensures exists m :: s == m + NodeString(e.to)
    ensures e.weight > 0 ==> s == NodeString(e.from) + "-(" + Text.IntToString(e.weight) + ")-" + NodeString(e.to)
    ensures e.weight <= 0 ==> s == NodeString(e.from) + "-" + NodeString(e.to)
  {
    if e.weight > 0 then
      var m := NodeString(e.from) + "-(" + Text.IntToString(e.weight) + ")-";
      assert NodeString(e.from) <= m + NodeString(e.to);
      m + NodeString(e.to)
    else
      var m := NodeString(e.from) + "-";
      assert NodeString(e.from) <= m + NodeString(e.to);
      m + NodeString(e.to)
  }

  /** `Edge.hashCode()`: the hash of `toString()`. */
  function EdgeHash(e: Edge): int
  {
    Text.StringHash(EdgeString(e))
  }

  /** Equal edges hash alike. */
  lemma EdgeHashConsistent(e: Edge, f: Edge)
    requires EdgeEquals(e, Some(f))
    ensures EdgeHash(e) == EdgeHash(f)
  {
  }

  /** Unweighted edges (weight 0 or below) print alike, so they hash alike too. */
  lemma NonPositiveWeightsPrintAlike(a: string, b: string, w1: int, w2: int)
    requires w1 <= 0 && w2 <= 0
    ensures EdgeString(Edge(a, b, w1)) == EdgeString(Edge(a, b, w2))
    ensures w1 != w2 ==> !EdgeEquals(Edge(a, b, w1), Some(Edge(a, b, w2)))
  {
  }

  /** A node: its label and the set of edges registered on it. */
  datatype Node = Node(name: string, edges: set<Edge>)

  /** `Node.equals(obj)`: labels only, whatever the edges. */
  predicate NodeEquals(n: Node, obj: Option<Node>)
  {
    obj.Some? && obj.value.name == n.name
  }

  /** `Node.hashCode()`: the label's hash. */
  function NodeHash(n: Node): int
  {
    Text.StringHash(n.name)
  }

  /** Node equality ignores the edges, and equal nodes hash alike. */
  lemma NodeEqualsByLabel(n: Node, m: Node)
    ensures NodeEquals(n, Some(m)) <==> n.name == m.name
    ensures NodeEquals(n, Some(m)) ==> NodeHash(n) == NodeHash(m)
    ensures NodeEquals(n, Some(Node(n.name, {})))
  {
  }

  /**
   * `Node.addEdge(edge)`: false, and nothing changes, for a known edge.
   * The `assert` that the node is an end of the edge is off by default in
   * Java and is not modelled.
   */
  function AddEdge(n: Node, e: Edge): (r: (Node, bool))
    ensures r.1 <==> e !in n.edges
    ensures r.0 == Node(n.name, n.edges + {e})
  {
    if e in n.edges then (n, false)
    else (Node(n.name, n.edges + {e}), true)
  }

  /** Along e one may step from a to b: forward along an arc, either way along an undirected edge. */
  predicate Step(e: Edge, a: string, b: string, isArc: Edge -> bool)
  {
    if isArc(e) then e.from == a && e.to == b
    else (e.from == a && e.to == b) || (e.to == a && e.from == b)
  }

  /** Every undirected edge on the node has it as an end, so `getOther` cannot fail. */
  predicate OthersDefined(n: Node, isArc: Edge -> bool)
  {
    forall e :: e in n.edges && !isArc(e) ==> GetOther(e, n.name).Ok?
  }

  /** The node `getNeighbours` / `getPredecessors` collects for one edge. */
  function Across(e: Edge, name: string): string
  {
    if e.to == name then e.from else e.to
  }

  function NeighbourSet(n: Node, isArc: Edge -> bool): set<string>
  {
    set e | e in n.edges && (isArc(e) ==> e.from == n.name) :: if isArc(e) then e.to else Across(e, n.name)
  }

  function PredecessorSet(n: Node, isArc: Edge -> bool): set<string>
  {
    set e | e in n.edges && (isArc(e) ==> e.to == n.name) :: if isArc(e) then e.from else Across(e, n.name)
  }

  /**
   * `getNeighbours()`: the targets of the node's outgoing arcs and the far
   * ends of its undirected edges; an undirected edge the node is not on
   * makes `getOther` throw.
   */
  function Neighbours(n: Node, isArc: Edge -> bool): (r: Result<set<string>>)
    ensures r.Ok? <==> OthersDefined(n, isArc)
    ensures r.Err? ==> r.error == Runtime
    ensures r.Ok? ==> forall b :: b in r.value <==> exists e :: e in n.edges && Step(e, n.name, b, isArc)
  {
    if !OthersDefined(n, isArc) then Err(Runtime)
    else
      NeighbourSteps(n, isArc);
      Ok(NeighbourSet(n, isArc))
  }

  /**
   * `getPredecessors()`: the sources of the node's incoming arcs and the
   * far ends of its undirected edges.
   */
  function Predecessors(n: Node, isArc: Edge -> bool): (r: Result<set<string>>)
    ensures r.Ok? <==> OthersDefined(n, isArc)
    ensures r.Err? ==> r.error == Runtime
    ensures r.Ok? ==> forall a :: a in r.value <==> exists e :: e in n.edges && Step(e, a, n.name, isArc)
  {
    if !OthersDefined(n, isArc) then Err(Runtime)
    else
      PredecessorSteps(n, isArc);
      Ok(PredecessorSet(n, isArc))
  }

  lemma NeighbourSteps(n: Node, isArc: Edge -> bool)
    requires OthersDefined(n, isArc)
    ensures forall b :: b in NeighbourSet(n, isArc) <==> exists e :: e in n.edges && Step(e, n.name, b, isArc)
  {
    forall b
      ensures b in NeighbourSet(n, isArc) <==> exists e :: e in n.edges && Step(e, n.name, b, isArc)
    {
      if b in NeighbourSet(n, isArc) {
        var e :| e in n.edges && (isArc(e) ==> e.from == n.name)
          && b == (if isArc(e) then e.to else Across(e, n.name));
        if !isArc(e) {
          assert GetOther(e, n.name).Ok?;
        }
        assert Step(e, n.name, b, isArc);
      }
      if exists e :: e in n.edges && Step(e, n.name, b, isArc) {
        var e :| e in n.edges && Step(e, n.name, b, isArc);
        assert b == (if isArc(e) then e.to else Across(e, n.name));
      }
    }
  }

  lemma PredecessorSteps(n: Node, isArc: Edge -> bool)
    requires OthersDefined(n, isArc)
    ensures forall a :: a in PredecessorSet(n, isArc) <==> exists e :: e in n.edges && Step(e, a, n.name, isArc)
  {
    forall a
      ensures a in PredecessorSet(n, isArc) <==> exists e :: e in n.edges && Step(e, a, n.name, isArc)
    {
      if a in PredecessorSet(n, isArc) {
        var e :| e in n.edges && (isArc(e) ==> e.to == n.name)
          && a == (if isArc(e) then e.from else Across(e, n.name));
        if !isArc(e) {
          assert GetOther(e, n.name).Ok?;
        }
        assert Step(e, a, n.name, isArc);
      }
      if exists e :: e in n.edges && Step(e, a, n.name, isArc) {
        var e :| e in n.edges && Step(e, a, n.name, isArc);
        assert a == (if isArc(e) then e.from else Across(e, n.name));
      }
    }
  }
}
