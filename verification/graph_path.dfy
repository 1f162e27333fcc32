/**
 * `Path`: the nodes of a walk, start first. Nodes are compared by label,
 * so the path holds labels. A path is never changed; `extend` copies it.
 */
module GraphPath {
  import opened Wrappers

  datatype Path = Path(nodes: seq<string>)

  /** `size()`. */
  function Size(p: Path): nat
  {
    |p.nodes|
  }

  /** `contains(node)`. */
  predicate Contains(p: Path, node: string)
  {
    node in p.nodes
  }

  /** `getEnd()`: the last node; `get(-1)` fails on an empty list. */
  function GetEnd(p: Path): (r: Result<string>)
    ensures r.Ok? <==> Size(p) > 0
    ensures r.Err? ==> r.error == IndexOutOfBounds
    ensures r.Ok? ==> Contains(p, r.value) && r.value == p.nodes[Size(p) - 1]
  {
    if |p.nodes| == 0 then Err(IndexOutOfBounds) else Ok(p.nodes[|p.nodes| - 1])
  }

  /** `new Path(start)`: the one-node path. */
  function New(start: string): (p: Path)
    ensures Size(p) == 1 && GetEnd(p) == Ok(start)
    ensures forall n :: Contains(p, n) <==> n == start
  {
    Path([start])
  }

  /** `extend(node)`: a copy with the node appended; the path itself is a value and stays as it was. */
  function Extend(p: Path, node: string): (q: Path)
    ensures Size(q) == Size(p) + 1 && GetEnd(q) == Ok(node)
    ensures q.nodes[..Size(p)] == p.nodes
    ensures forall n :: Contains(q, n) <==> Contains(p, n) || n == node
  {
    Path(p.nodes + [node])
  }

  /** Extending a path by the nodes of `ns`, one at a time. */
  function ExtendAll(p: Path, ns: seq<string>): Path
    decreases |ns|
  {
    if |ns| == 0 then p else ExtendAll(Extend(p, ns[0]), ns[1..])
  }

  /** A walk built from `start` by successive `extend`s lists exactly those nodes, in order. */
  lemma {:induction false} ExtendAllAppends(p: Path, ns: seq<string>)
    ensures ExtendAll(p, ns).nodes == p.nodes + ns
    ensures Size(ExtendAll(p, ns)) == Size(p) + |ns|
    decreases |ns|
  {
    if |ns| > 0 {
      ExtendAllAppends(Extend(p, ns[0]), ns[1..]);
      assert ns == [ns[0]] + ns[1..];
    }
  }

  /** The end of a non-trivial walk is its last added node, and the start stays first. */
  lemma WalkEnds(start: string, ns: seq<string>)
    requires |ns| > 0
    ensures GetEnd(ExtendAll(New(start), ns)) == Ok(ns[|ns| - 1])
    ensures ExtendAll(New(start), ns).nodes[0] == start
    ensures forall n :: Contains(ExtendAll(New(start), ns), n) <==> n == start || n in ns
  {
    ExtendAllAppends(New(start), ns);
  }
}
