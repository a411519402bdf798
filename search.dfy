/** The A* search over the grid.

    The search keeps its nodes in an arena, `arena: seq<Node>`; a node's
    identity is its index there, so the open list, the closed list and the
    returned path's parent links are sequences of indices, and a membership
    test on a list compares identities, as object references do. Every node
    is appended to the arena when it is built, which makes a node's parent
    index smaller than its own.
 */
module Search {
  import opened Nodes
  import opened Grid

  /** What a search ends with: a path, the answer that there is none
      (the open list ran empty), or that the iteration bound was reached. */
  datatype Outcome = Found(path: seq<Node>) | NoPath | OutOfFuel

  /** The sequence in the opposite order. */
  function Reverse<T>(s: seq<T>): (r: seq<T>)
    ensures |r| == |s|
    ensures forall k :: 0 <= k < |s| ==> r[k] == s[|s| - 1 - k]
  {
    if s == [] then [] else [s[|s| - 1]] + Reverse(s[..|s| - 1])
  }

  /** The indices from `lo` up to, not including, `hi`. */
  function Range(lo: nat, hi: nat): (r: seq<nat>)
    requires lo <= hi
    ensures |r| == hi - lo
    ensures forall k :: 0 <= k < |r| ==> r[k] == lo + k
    decreases hi - lo
  {
    if lo == hi then [] else [lo] + Range(lo + 1, hi)
  }

  /** The nodes that a sequence of arena indices refers to. */
  function Deref(arena: seq<Node>, ids: seq<nat>): (nodes: seq<Node>)
    requires forall k :: 0 <= k < |ids| ==> ids[k] < |arena|
  {
    seq(|ids|, k requires 0 <= k < |ids| => arena[ids[k]])
  }

  /** No index occurs twice. */
  predicate Distinct(s: seq<nat>) {
    forall a, b :: 0 <= a < b < |s| ==> s[a] != s[b]
  }

  /** Every parent link points to an earlier node of the arena. */
  predicate ParentsEarlier(arena: seq<Node>) {
    forall k :: 0 <= k < |arena| && arena[k].parent.Some? ==> arena[k].parent.value < k
  }

  /** The parent chain ending at node `n`, in root-to-`n` order: the last
      element is `n`, the first has no parent, and each element is the
      parent of the one after it. */
  method BuildPath(arena: seq<Node>, n: nat) returns (path: seq<nat>)
    requires n < |arena| && ParentsEarlier(arena)
    ensures |path| >= 1 && path[|path| - 1] == n
    ensures forall k :: 0 <= k < |path| ==> path[k] < |arena|
    ensures arena[path[0]].parent == None
    ensures forall k :: 0 <= k < |path| - 1 ==> arena[path[k + 1]].parent == Some(path[k])
  {
    var reversed: seq<nat> := [];
    var current: Option<nat> := Some(n);
    while current.Some?
      invariant current.Some? ==> current.value < |arena|
      invariant forall k :: 0 <= k < |reversed| ==> reversed[k] < |arena|
      invariant |reversed| == 0 ==> current == Some(n)
      invariant |reversed| > 0 ==> reversed[0] == n && arena[reversed[|reversed| - 1]].parent == current
      invariant forall k :: 0 <= k < |reversed| - 1 ==> arena[reversed[k]].parent == Some(reversed[k + 1])
      decreases if current.Some? then current.value + 1 else 0
    {
      reversed := reversed + [current.value];
      current := arena[current.value].parent;
    }
    path := Reverse(reversed);
  }

  /** The position of the first node of lowest `F` in a non-empty list. */
  method FindLowestF(nodes: seq<Node>) returns (lowest: nat)
    requires |nodes| > 0
    ensures lowest < |nodes|
    ensures forall k :: 0 <= k < |nodes| ==> nodes[lowest].F() <= nodes[k].F()
    ensures forall k :: 0 <= k < lowest ==> nodes[k].F() > nodes[lowest].F()
  {
    lowest := 0;
    for k := 0 to |nodes|
      invariant lowest < |nodes| && lowest <= k
      invariant forall j :: 0 <= j < k ==> nodes[lowest].F() <= nodes[j].F()
      invariant forall j :: 0 <= j < lowest ==> nodes[j].F() > nodes[lowest].F()
    {
      if nodes[k].F() < nodes[lowest].F() {
        lowest := k;
      }
    }
  }

  /** The neighbour loop of one expansion. The neighbours were just built,
      so they sit at the arena indices from `first` on, while every index
      on the open and closed lists is below `first`: neither membership
      test ever matches, and every neighbour is given `current` as parent,
      cost `g + 1`, its distance to `end`, and is appended to the open list. */
  method Relax(arena: seq<Node>, open: seq<nat>, closed: seq<nat>, current: nat, first: nat, end: Node)
    returns (arena': seq<Node>, open': seq<nat>)
    requires current < first <= |arena|
    requires forall k :: 0 <= k < |open| ==> open[k] < first
    requires forall k :: 0 <= k < |closed| ==> closed[k] < first
    ensures |arena'| == |arena|
    ensures forall k :: 0 <= k < first ==> arena'[k] == arena[k]
    ensures forall k :: first <= k < |arena| ==>
      arena'[k] == arena[k].(parent := Some(current), g := arena[current].g + 1, h := ManhattanDistance(arena[k], end))
    ensures open' == open + Range(first, |arena|)
  {
    arena', open' := arena, open;
    for neighbor := first to |arena|
      invariant |arena'| == |arena|
      invariant forall k :: 0 <= k < first ==> arena'[k] == arena[k]
      invariant forall k :: first <= k < neighbor ==>
        arena'[k] == arena[k].(parent := Some(current), g := arena[current].g + 1, h := ManhattanDistance(arena[k], end))
      invariant forall k :: neighbor <= k < |arena| ==> arena'[k] == arena[k]
      invariant open' == open + Range(first, neighbor)
    {
      if neighbor in closed {
        continue;
      }
      var tentativeG := arena'[current].g + 1;
      var neighborG := arena'[neighbor].g;
      if neighbor !in open' || tentativeG < neighborG {
        arena' := arena'[neighbor := arena'[neighbor].(parent := Some(current), g := tentativeG,
                                                     h := ManhattanDistance(arena'[neighbor], end))];
        if neighbor !in open' {
          open' := open' + [neighbor];
        }
      }
    }
  }

  /** Node `k` was built as a passable 4-neighbour of its parent, which
      sits earlier in the arena; it costs one step more than its parent
      and estimates its distance to `end`. */
  ghost predicate TreeNode(grid: array2<char>, end: Node, arena: seq<Node>, k: nat)
    reads grid
    requires k < |arena|
  {
    && arena[k].parent.Some?
    && arena[k].parent.value < k
    && Adjacent(arena[k], arena[arena[k].parent.value])
    && arena[k].g == arena[arena[k].parent.value].g + 1
    && arena[k].h == ManhattanDistance(arena[k], end)
    && Passable(grid, arena[k].x, arena[k].y)
  }

  /** The arena is a search tree rooted at `start`: node 0 is `start`,
      which has no parent, and every other node is a tree node. */
  ghost predicate SearchTree(grid: array2<char>, start: Node, end: Node, arena: seq<Node>)
    reads grid
  {
    && |arena| >= 1 && arena[0] == start && start.parent == None
    && forall k :: 1 <= k < |arena| ==> TreeNode(grid, end, arena, k)
  }

  /** A search tree's parent links point backwards. */
  lemma SearchTreeParentsEarlier(grid: array2<char>, start: Node, end: Node, arena: seq<Node>)
    requires SearchTree(grid, start, end, arena)
    ensures ParentsEarlier(arena)
    ensures forall k :: 0 <= k < |arena| ==> (arena[k].parent == None <==> k == 0)
  {
    forall k | 1 <= k < |arena| ensures arena[k].parent.Some? && arena[k].parent.value < k {
      assert TreeNode(grid, end, arena, k);
    }
  }

  /** Along a parent chain from the root, the cost grows by one per step. */
  lemma {:induction false} ChainCosts(grid: array2<char>, start: Node, end: Node, arena: seq<Node>, ids: seq<nat>, k: nat)
    requires SearchTree(grid, start, end, arena)
    requires forall j :: 0 <= j < |ids| ==> ids[j] < |arena|
    requires |ids| >= 1 && ids[0] == 0
    requires forall j :: 0 <= j < |ids| - 1 ==> arena[ids[j + 1]].parent == Some(ids[j])
    requires k < |ids|
    ensures arena[ids[k]].g == start.g + k
  {
    if k > 0 {
      ChainCosts(grid, start, end, arena, ids, k - 1);
      assert arena[ids[k]].parent == Some(ids[k - 1]);
      assert ids[k] != 0;
      assert TreeNode(grid, end, arena, ids[k]);
    }
  }

  /** The estimate `F` never decreases from a parent to its child, as long
      as the root's own estimate does not exceed its true distance to `end`
      (the root keeps the `h` it came with, 0 for a node the marker scan
      built). */
  lemma {:induction false} FAlongTree(grid: array2<char>, start: Node, end: Node, arena: seq<Node>, k: nat)
    requires SearchTree(grid, start, end, arena)
    requires start.h <= ManhattanDistance(start, end)
    requires 1 <= k < |arena|
    ensures arena[k].parent.Some? && arena[k].parent.value < k
    ensures arena[k].F() >= arena[arena[k].parent.value].F()
  {
    assert TreeNode(grid, end, arena, k);
    var p := arena[k].parent.value;
    ManhattanConsistent(arena[k], arena[p], end);
    if p != 0 {
      assert TreeNode(grid, end, arena, p);
    }
  }

  /** Relaxing freshly built passable neighbours of a node of the tree
      keeps the arena a search tree. */
  lemma ExpansionKeepsTree(grid: array2<char>, start: Node, end: Node, arena: seq<Node>, current: nat,
                           neighbors: seq<Node>, arena': seq<Node>)
    requires SearchTree(grid, start, end, arena)
    requires current < |arena|
    requires forall k :: 0 <= k < |neighbors| ==>
      Adjacent(neighbors[k], arena[current]) && Passable(grid, neighbors[k].x, neighbors[k].y)
    requires |arena'| == |arena| + |neighbors|
    requires forall k :: 0 <= k < |arena| ==> arena'[k] == (arena + neighbors)[k]
    requires forall k :: |arena| <= k < |arena'| ==>
      arena'[k] == (arena + neighbors)[k].(parent := Some(current), g := (arena + neighbors)[current].g + 1,
                                        h := ManhattanDistance((arena + neighbors)[k], end))
    ensures SearchTree(grid, start, end, arena')
  {
    forall k | 0 <= k < |arena| ensures arena'[k] == arena[k] {
      assert (arena + neighbors)[k] == arena[k];
    }
    forall k | 1 <= k < |arena'| ensures TreeNode(grid, end, arena', k) {
      if k < |arena| {
        assert TreeNode(grid, end, arena, k);
      } else {
        assert (arena + neighbors)[k] == neighbors[k - |arena|];
        assert (arena + neighbors)[current] == arena[current];
      }
    }
  }

  /** The open list after an expansion (the selected position `i`
      removed, the fresh indices from `first` to `hi` appended) holds each
      index once and only indices below `hi`. */
  lemma OpenAfterExpansion(open: seq<nat>, i: nat, first: nat, hi: nat)
    requires i < |open| && first <= hi
    requires Distinct(open) && forall k :: 0 <= k < |open| ==> open[k] < first
    ensures var open' := open[..i] + open[i + 1..] + Range(first, hi);
      && Distinct(open')
      && forall k :: 0 <= k < |open'| ==> open'[k] < hi
  {
  }


  /** What a returned path is: it begins with `start` and ends at the
      coordinates of `end`; consecutive nodes are 4-adjacent; every node
      after the first is a passable cell, costs one more than the one
      before it, and estimates its distance to `end`. */
  ghost predicate SearchPath(grid: array2<char>, start: Node, end: Node, path: seq<Node>)
    reads grid
  {
    && |path| >= 1
    && path[0] == start
    && path[|path| - 1].x == end.x && path[|path| - 1].y == end.y
    && IsWalk(path)
    && (forall k :: 1 <= k < |path| ==> Passable(grid, path[k].x, path[k].y))
    && (forall k :: 0 <= k < |path| ==> path[k].g == start.g + k)
    && (forall k :: 1 <= k < |path| ==> path[k].h == ManhattanDistance(path[k], end))
  }

  /** A walk from the start cell to the end cell whose every cell after
      the first is passable. */
  ghost predicate PassableWalk(grid: array2<char>, start: Node, end: Node, walk: seq<Node>)
    reads grid
  {
    && |walk| >= 1 && IsWalk(walk)
    && walk[0].x == start.x && walk[0].y == start.y
    && walk[|walk| - 1].x == end.x && walk[|walk| - 1].y == end.y
    && forall k :: 1 <= k < |walk| ==> Passable(grid, walk[k].x, walk[k].y)
  }

  /** A passable walk to a different cell leaves the start through one of
      its passable steps. */
  lemma WalkLeavesByPassableStep(grid: array2<char>, start: Node, end: Node, walk: seq<Node>)
    requires PassableWalk(grid, start, end, walk)
    requires start.x != end.x || start.y != end.y
    ensures HasPassableStep(grid, start)
  {
    assert |walk| >= 2;
    assert Adjacent(walk[0], walk[1]);
    assert Adjacent(walk[1], start);
    var d := Direction(start, walk[1]);
    assert Passable(grid, Step(start, d).x, Step(start, d).y);
  }

  /** A start cell with no passable step reaches no other cell. */
  lemma IsolatedStartReachesNothing(grid: array2<char>, start: Node, end: Node)
    requires !HasPassableStep(grid, start)
    requires start.x != end.x || start.y != end.y
    ensures forall walk :: !PassableWalk(grid, start, end, walk)
  {
    forall walk | PassableWalk(grid, start, end, walk) ensures false {
      WalkLeavesByPassableStep(grid, start, end, walk);
    }
  }

  /** Expanding a node of the tree always yields a neighbour, once the
      start is passable and has a passable step: the start's own step, or,
      for any other node, the step back to its parent. */
  lemma ExpansionHasNeighbor(grid: array2<char>, start: Node, end: Node, arena: seq<Node>, current: nat,
                             neighbors: seq<Node>)
    requires SearchTree(grid, start, end, arena)
    requires Passable(grid, start.x, start.y) && HasPassableStep(grid, start)
    requires current < |arena|
    requires forall d :: 0 <= d < 4 && Passable(grid, Step(arena[current], d).x, Step(arena[current], d).y) ==>
      Step(arena[current], d) in neighbors
    ensures |neighbors| >= 1
  {
    if current == 0 {
      var d :| 0 <= d < 4 && Passable(grid, Step(start, d).x, Step(start, d).y);
      assert Step(arena[current], d) in neighbors;
    } else {
      assert TreeNode(grid, end, arena, current);
      var p := arena[current].parent.value;
      if p != 0 {
        assert TreeNode(grid, end, arena, p);
      }
      assert Passable(grid, arena[p].x, arena[p].y);
      assert Adjacent(arena[p], arena[current]);
      var d := Direction(arena[current], arena[p]);
      assert Step(arena[current], d) in neighbors;
    }
  }

  /** The state of the search loop: the arena is a search tree, and the
      open and closed lists hold indices of its nodes, the open list each
      at most once. */
  ghost predicate SearchState(grid: array2<char>, start: Node, end: Node, arena: seq<Node>,
                              open: seq<nat>, closed: seq<nat>)
    reads grid
  {
    && SearchTree(grid, start, end, arena)
    && (forall k :: 0 <= k < |open| ==> open[k] < |arena|)
    && (forall k :: 0 <= k < |closed| ==> closed[k] < |arena|)
    && Distinct(open)
  }

  /** One expansion of the open-list node at position `i` keeps the loop
      state, and leaves the open list non-empty once the start is passable
      and has a passable step. */
  lemma ExpansionKeepsState(grid: array2<char>, start: Node, end: Node, arena: seq<Node>,
                            open: seq<nat>, closed: seq<nat>, i: nat,
                            neighbors: seq<Node>, arena': seq<Node>, open': seq<nat>)
    requires SearchState(grid, start, end, arena, open, closed)
    requires i < |open|
    requires forall k :: 0 <= k < |neighbors| ==>
      Adjacent(neighbors[k], arena[open[i]]) && Passable(grid, neighbors[k].x, neighbors[k].y)
    requires forall d :: 0 <= d < 4 && Passable(grid, Step(arena[open[i]], d).x, Step(arena[open[i]], d).y) ==>
      Step(arena[open[i]], d) in neighbors
    requires |arena'| == |arena| + |neighbors|
    requires forall k :: 0 <= k < |arena| ==> arena'[k] == (arena + neighbors)[k]
    requires forall k :: |arena| <= k < |arena'| ==>
      arena'[k] == (arena + neighbors)[k].(parent := Some(open[i]), g := (arena + neighbors)[open[i]].g + 1,
                                        h := ManhattanDistance((arena + neighbors)[k], end))
    requires open' == open[..i] + open[i + 1..] + Range(|arena|, |arena'|)
    ensures SearchState(grid, start, end, arena', open', closed + [open[i]])
    ensures Passable(grid, start.x, start.y) && HasPassableStep(grid, start) ==> |open'| >= 1
  {
    ExpansionKeepsTree(grid, start, end, arena, open[i], neighbors, arena');
    OpenAfterExpansion(open, i, |arena|, |arena'|);
    if Passable(grid, start.x, start.y) && HasPassableStep(grid, start) {
      ExpansionHasNeighbor(grid, start, end, arena, open[i], neighbors);
    }
  }

  /** The nodes `Relax` gave `current` as parent, at the arena indices the
      neighbours from `GetNeighbors` took, are its passable 4-neighbours, one
      per passable cell and in direction order, each costing one step more
      than `current` and estimating its distance to `end`. */
  lemma AppendedNeighbors(grid: array2<char>, end: Node, arena: seq<Node>, current: nat,
                          neighbors: seq<Node>, arena': seq<Node>)
    requires current < |arena|
    requires forall k :: 0 <= k < |neighbors| ==>
      Adjacent(neighbors[k], arena[current]) && Passable(grid, neighbors[k].x, neighbors[k].y)
    requires forall k, l :: 0 <= k < l < |neighbors| ==>
      Direction(arena[current], neighbors[k]) < Direction(arena[current], neighbors[l])
    requires forall d :: 0 <= d < 4 && Passable(grid, Step(arena[current], d).x, Step(arena[current], d).y) ==>
      Step(arena[current], d) in neighbors
    requires |arena'| == |arena| + |neighbors|
    requires forall k :: |arena| <= k < |arena'| ==>
      arena'[k] == (arena + neighbors)[k].(parent := Some(current), g := (arena + neighbors)[current].g + 1,
                                           h := ManhattanDistance((arena + neighbors)[k], end))
    ensures forall k :: |arena| <= k < |arena'| ==>
      && Adjacent(arena'[k], arena[current])
      && Passable(grid, arena'[k].x, arena'[k].y)
      && arena'[k].parent == Some(current)
      && arena'[k].g == arena[current].g + 1
      && arena'[k].h == ManhattanDistance(arena'[k], end)
    ensures forall k, l :: |arena| <= k < l < |arena'| ==>
      Direction(arena[current], arena'[k]) < Direction(arena[current], arena'[l])
    ensures forall d :: 0 <= d < 4 && Passable(grid, Step(arena[current], d).x, Step(arena[current], d).y) ==>
      exists k :: |arena| <= k < |arena'| && arena'[k].x == Step(arena[current], d).x && arena'[k].y == Step(arena[current], d).y
  {
    var base := |arena|;
    assert (arena + neighbors)[current] == arena[current];
    forall k | base <= k < |arena'|
      ensures arena'[k].x == neighbors[k - base].x && arena'[k].y == neighbors[k - base].y
      ensures arena'[k].parent == Some(current) && arena'[k].g == arena[current].g + 1
      ensures arena'[k].h == ManhattanDistance(arena'[k], end)
      ensures Adjacent(arena'[k], arena[current]) && Passable(grid, arena'[k].x, arena'[k].y)
    {
      assert (arena + neighbors)[k] == neighbors[k - base];
      assert Adjacent(neighbors[k - base], arena[current]);
    }
    forall k, l | base <= k < l < |arena'|
      ensures Direction(arena[current], arena'[k]) < Direction(arena[current], arena'[l])
    {
      assert Direction(arena[current], neighbors[k - base]) < Direction(arena[current], neighbors[l - base]);
    }
    forall d | 0 <= d < 4 && Passable(grid, Step(arena[current], d).x, Step(arena[current], d).y)
      ensures exists k :: base <= k < |arena'| && arena'[k].x == Step(arena[current], d).x && arena'[k].y == Step(arena[current], d).y
    {
      var j :| 0 <= j < |neighbors| && neighbors[j] == Step(arena[current], d);
      assert arena'[base + j].x == neighbors[j].x;
    }
  }

  /** One expansion of the A* loop: the node at position `i` of the open
      list moves to the closed list, and its new neighbours are appended to
      the arena and the open list with `current` as their parent. */
  method Expand(grid: array2<char>, ghost start: Node, end: Node, arena: seq<Node>, open: seq<nat>,
                closed: seq<nat>, i: nat)
    returns (arena': seq<Node>, open': seq<nat>, closed': seq<nat>)
    requires SearchState(grid, start, end, arena, open, closed)
    requires i < |open|
    ensures closed' == closed + [open[i]]
    ensures |arena| <= |arena'| <= |arena| + 4 && arena'[..|arena|] == arena
    ensures forall k :: |arena| <= k < |arena'| ==>
      && Adjacent(arena'[k], arena[open[i]])
      && Passable(grid, arena'[k].x, arena'[k].y)
      && arena'[k].parent == Some(open[i])
      && arena'[k].g == arena[open[i]].g + 1
      && arena'[k].h == ManhattanDistance(arena'[k], end)
    ensures forall d :: 0 <= d < 4 && Passable(grid, Step(arena[open[i]], d).x, Step(arena[open[i]], d).y) ==>
      exists k :: |arena| <= k < |arena'| && arena'[k].x == Step(arena[open[i]], d).x && arena'[k].y == Step(arena[open[i]], d).y
    ensures forall k, l :: |arena| <= k < l < |arena'| ==>
      Direction(arena[open[i]], arena'[k]) < Direction(arena[open[i]], arena'[l])
    ensures open' == open[..i] + open[i + 1..] + Range(|arena|, |arena'|)
    ensures SearchState(grid, start, end, arena', open', closed')
    ensures Passable(grid, start.x, start.y) && HasPassableStep(grid, start) ==> |open'| >= 1
  {
    var current := open[i];
    // Remove deletes the first occurrence of `current`; the open list
    // holds each index once, so that is position i.
    assert forall j :: 0 <= j < i ==> open[j] != current;
    open' := open[..i] + open[i + 1..];
    closed' := closed + [current];
    var neighbors := GetNeighbors(grid, arena[current]);
    // The nodes GetNeighbors built take the next free arena indices.
    var first := |arena|;
    arena' := arena + neighbors;
    arena', open' := Relax(arena', open', closed', current, first, end);
    ExpansionKeepsState(grid, start, end, arena, open, closed, i, neighbors, arena', open');
    assert arena'[..|arena|] == arena;
    AppendedNeighbors(grid, end, arena, current, neighbors, arena');
  }

  /** The program's A* loop, run for at most `fuel` iterations. */
  method AStar(grid: array2<char>, start: Node, end: Node, fuel: nat) returns (r: Outcome)
    requires start.parent == None
    ensures r.Found? ==> SearchPath(grid, start, end, r.path)
    ensures r.Found? ==> ManhattanDistance(start, end) <= |r.path| - 1
    ensures start.x == end.x && start.y == end.y && fuel > 0 ==> r == Found([start])
    ensures r.NoPath? ==> start.x != end.x || start.y != end.y
    ensures r.NoPath? && Passable(grid, start.x, start.y) ==> !HasPassableStep(grid, start)
    ensures r.NoPath? && Passable(grid, start.x, start.y) ==> forall walk :: !PassableWalk(grid, start, end, walk)
    ensures fuel >= 1 && (start.x != end.x || start.y != end.y) && !HasPassableStep(grid, start) ==> r == NoPath
  {
    var arena: seq<Node> := [start];
    var open: seq<nat> := [0];
    var closed: seq<nat> := [];
    var steps := 0;
    while |open| > 0
      invariant SearchState(grid, start, end, arena, open, closed)
      invariant steps <= fuel
      invariant steps == 0 ==> arena == [start] && open == [0]
      invariant start.x == end.x && start.y == end.y ==> steps == 0
      invariant steps >= 1 && Passable(grid, start.x, start.y) && HasPassableStep(grid, start) ==> |open| >= 1
      invariant steps >= 1 && !HasPassableStep(grid, start) ==> open == []
      decreases fuel - steps
    {
      if steps == fuel {
        return OutOfFuel;
      }
      steps := steps + 1;
      var i := FindLowestF(Deref(arena, open));
      var current := open[i];
      if arena[current].x == end.x && arena[current].y == end.y {
        SearchTreeParentsEarlier(grid, start, end, arena);
        var ids := BuildPath(arena, current);
        r := Found(Deref(arena, ids));
        FoundPath(grid, start, end, arena, ids);
        return;
      }
      ghost var expanded, selected := arena, current;
      arena, open, closed := Expand(grid, start, end, arena, open, closed, i);
      if |arena| > |expanded| {
        // A node was appended, so the expanded node has a passable step.
        var d := Direction(expanded[selected], arena[|expanded|]);
        assert Passable(grid, Step(expanded[selected], d).x, Step(expanded[selected], d).y);
        assert HasPassableStep(grid, expanded[selected]);
      }
    }
    if Passable(grid, start.x, start.y) {
      IsolatedStartReachesNothing(grid, start, end);
    }
    return NoPath;
  }

  /** The parent chain of a node at the end coordinates is a path with
      every property the search promises. */
  lemma FoundPath(grid: array2<char>, start: Node, end: Node, arena: seq<Node>, ids: seq<nat>)
    requires SearchTree(grid, start, end, arena)
    requires start.parent == None
    requires |ids| >= 1 && forall j :: 0 <= j < |ids| ==> ids[j] < |arena|
    requires arena[ids[0]].parent == None
    requires forall j :: 0 <= j < |ids| - 1 ==> arena[ids[j + 1]].parent == Some(ids[j])
    requires arena[ids[|ids| - 1]].x == end.x && arena[ids[|ids| - 1]].y == end.y
    ensures SearchPath(grid, start, end, Deref(arena, ids))
    ensures ManhattanDistance(start, end) <= |Deref(arena, ids)| - 1
  {
    var path := Deref(arena, ids);
    SearchTreeParentsEarlier(grid, start, end, arena);
    assert ids[0] == 0;
    forall k | 1 <= k < |ids| ensures ids[k] != 0 && TreeNode(grid, end, arena, ids[k]) {
      assert arena[ids[k]].parent == Some(ids[k - 1]);
    }
    forall k | 0 <= k < |ids| ensures path[k].g == start.g + k {
      ChainCosts(grid, start, end, arena, ids, k);
    }
    assert IsWalk(path) by {
      forall k | 0 <= k < |path| - 1 ensures Adjacent(path[k], path[k + 1]) {
        assert arena[ids[k + 1]].parent == Some(ids[k]);
        assert TreeNode(grid, end, arena, ids[k + 1]);
      }
    }
    WalkAtLeastManhattan(path);
  }
}
