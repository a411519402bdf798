/** Search nodes of the A* path finder and the Manhattan-distance heuristic.

    A node is a record of its grid coordinates, its cost so far `g`, its
    heuristic estimate `h` and a link to its parent. Nodes live in an arena
    (a `seq<Node>`, see module Search): the identity of a node is its index
    in the arena, and `parent` holds the index of the parent node, or `None`
    for a node whose parent was never assigned (a null reference).
 */
module Nodes {

  datatype Option<T> = None | Some(value: T)

  datatype Node = Node(x: int, y: int, g: int, h: int, parent: Option<nat>) {
    /** The estimated total cost through this node. */
    function F(): (f: int) {
      g + h
    }
  }

  /** A node as the two-argument constructor leaves it: coordinates set,
      costs at their default 0 and no parent. */
  function NewNode(x: int, y: int): (n: Node)
    ensures n.x == x && n.y == y
    ensures n.g == 0 && n.h == 0 && n.parent == None
  {
    Node(x, y, 0, 0, None)
  }

  function Abs(v: int): (r: nat)
    ensures r == v || r == -v
  {
    if v < 0 then -v else v
  }

  /** Sum of the absolute row and column differences of two nodes. */
  function ManhattanDistance(a: Node, b: Node): (d: int)
    ensures d >= 0
    ensures d == 0 <==> a.x == b.x && a.y == b.y
  {
    Abs(a.x - b.x) + Abs(a.y - b.y)
  }

  /** The distance depends only on the coordinates, in either order. */
  lemma ManhattanSymmetric(a: Node, b: Node)
    ensures ManhattanDistance(a, b) == ManhattanDistance(b, a)
  {
  }

  /** Two nodes are 4-adjacent: they differ by exactly 1 in exactly one
      coordinate. */
  predicate Adjacent(a: Node, b: Node) {
    (a.x == b.x && Abs(a.y - b.y) == 1) || (a.y == b.y && Abs(a.x - b.x) == 1)
  }

  /** Being 4-adjacent is the same as being at Manhattan distance 1. */
  lemma AdjacentIsDistanceOne(a: Node, b: Node)
    ensures Adjacent(a, b) <==> ManhattanDistance(a, b) == 1
  {
  }

  /** The heuristic is consistent: one step changes the distance to any
      target node by at most 1. */
  lemma ManhattanConsistent(a: Node, b: Node, target: Node)
    requires Adjacent(a, b)
    ensures ManhattanDistance(a, target) <= ManhattanDistance(b, target) + 1
    ensures ManhattanDistance(b, target) <= ManhattanDistance(a, target) + 1
  {
  }

  /** Every consecutive pair of `walk` is 4-adjacent. */
  predicate IsWalk(walk: seq<Node>) {
    forall k :: 0 <= k < |walk| - 1 ==> Adjacent(walk[k], walk[k + 1])
  }

  /** A walk of 4-adjacent steps takes at least as many steps as the
      Manhattan distance between its ends. */
  lemma {:induction false} WalkAtLeastManhattan(walk: seq<Node>)
    requires |walk| >= 1 && IsWalk(walk)
    ensures ManhattanDistance(walk[0], walk[|walk| - 1]) <= |walk| - 1
  {
    if |walk| > 1 {
      var rest := walk[1..];
      assert IsWalk(rest) by {
        forall k | 0 <= k < |rest| - 1 ensures Adjacent(rest[k], rest[k + 1]) {
          assert rest[k] == walk[k + 1] && rest[k + 1] == walk[k + 2];
        }
      }
      WalkAtLeastManhattan(rest);
      assert Adjacent(walk[0], walk[1]);
      ManhattanConsistent(walk[0], walk[1], walk[|walk| - 1]);
    }
  }
}
