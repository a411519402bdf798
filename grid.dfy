/** The character grid the search runs on: neighbour generation and the
    scans for the start and end markers.

    The grid is a two-dimensional, read-only character array; the first
    index (`x`) is the row, the second (`y`) the column. A cell holding
    `'#'` is a wall; every other character, the markers included, is
    passable.
 */
module Grid {
  import opened Nodes

  const Wall: char := '#'
  const StartMarker: char := 'S'
  const EndMarker: char := 'E'

  predicate InBounds(grid: array2<char>, x: int, y: int) {
    0 <= x < grid.Length0 && 0 <= y < grid.Length1
  }

  /** The cell is inside the grid and is not a wall. */
  predicate Passable(grid: array2<char>, x: int, y: int)
    reads grid
  {
    InBounds(grid, x, y) && grid[x, y] != Wall
  }

  /** Row and column offsets of the four directions, in the order the
      neighbours are generated: up, down, left, right. */
  const DX: seq<int> := [-1, 1, 0, 0]
  const DY: seq<int> := [0, 0, -1, 1]

  /** The cell one step from `current` in direction `d`. */
  function Step(current: Node, d: nat): (n: Node)
    requires d < 4
    ensures Adjacent(n, current)
    ensures n.g == 0 && n.h == 0 && n.parent == None
  {
    NewNode(current.x + DX[d], current.y + DY[d])
  }

  /** The direction in which `n` lies from `current`, for a 4-adjacent `n`. */
  function Direction(current: Node, n: Node): (d: nat)
    requires Adjacent(n, current)
    ensures d < 4 && n.x == Step(current, d).x && n.y == Step(current, d).y
  {
    if n.x == current.x - 1 then 0
    else if n.x == current.x + 1 then 1
    else if n.y == current.y - 1 then 2
    else 3
  }

  /** Some step from `n` leads to a passable cell. */
  predicate HasPassableStep(grid: array2<char>, n: Node)
    reads grid
  {
    exists d :: 0 <= d < 4 && Passable(grid, Step(n, d).x, Step(n, d).y)
  }

  /** The fresh nodes at the passable cells among the first `n` steps from
      `current`, in direction order. */
  function PassableSteps(grid: array2<char>, current: Node, n: nat): (steps: seq<Node>)
    requires n <= 4
    reads grid
    ensures |steps| <= n
  {
    if n == 0 then []
    else
      var s := Step(current, n - 1);
      PassableSteps(grid, current, n - 1) + (if Passable(grid, s.x, s.y) then [s] else [])
  }

  /** Element `k` of the passable steps among the first `n` is a fresh,
      passable 4-neighbour of `current` in a direction below `n`. */
  lemma {:induction false} PassableStepAt(grid: array2<char>, current: Node, n: nat, k: nat)
    requires n <= 4 && k < |PassableSteps(grid, current, n)|
    ensures Adjacent(PassableSteps(grid, current, n)[k], current)
    ensures Passable(grid, PassableSteps(grid, current, n)[k].x, PassableSteps(grid, current, n)[k].y)
    ensures PassableSteps(grid, current, n)[k] == NewNode(PassableSteps(grid, current, n)[k].x, PassableSteps(grid, current, n)[k].y)
    ensures Direction(current, PassableSteps(grid, current, n)[k]) < n
  {
    var prev := PassableSteps(grid, current, n - 1);
    if k < |prev| {
      assert PassableSteps(grid, current, n)[k] == prev[k];
      PassableStepAt(grid, current, n - 1, k);
    } else {
      assert PassableSteps(grid, current, n)[k] == Step(current, n - 1);
      assert Direction(current, Step(current, n - 1)) == n - 1;
    }
  }

  /** Among the passable steps, an earlier one has a smaller direction. */
  lemma {:induction false} PassableStepsOrderedAt(grid: array2<char>, current: Node, n: nat, k: nat, l: nat)
    requires n <= 4 && k < l < |PassableSteps(grid, current, n)|
    requires Adjacent(PassableSteps(grid, current, n)[k], current)
    requires Adjacent(PassableSteps(grid, current, n)[l], current)
    ensures Direction(current, PassableSteps(grid, current, n)[k]) < Direction(current, PassableSteps(grid, current, n)[l])
  {
    var prev := PassableSteps(grid, current, n - 1);
    var a, b := PassableSteps(grid, current, n)[k], PassableSteps(grid, current, n)[l];
    assert a == prev[k];
    PassableStepAt(grid, current, n - 1, k);
    var da := Direction(current, a);
    if l < |prev| {
      assert b == prev[l];
      PassableStepAt(grid, current, n - 1, l);
      PassableStepsOrderedAt(grid, current, n - 1, k, l);
      assert da < Direction(current, b);
    } else {
      assert b == Step(current, n - 1);
      assert da < n - 1 == Direction(current, b);
    }
  }

  /** A passable step in a direction below `n` is among the passable steps. */
  lemma {:induction false} PassableStepIncluded(grid: array2<char>, current: Node, n: nat, d: nat)
    requires d < n <= 4 && Passable(grid, Step(current, d).x, Step(current, d).y)
    ensures Step(current, d) in PassableSteps(grid, current, n)
  {
    var prev := PassableSteps(grid, current, n - 1);
    var s := Step(current, n - 1);
    if d == n - 1 {
      assert PassableSteps(grid, current, n) == prev + [s];
      assert PassableSteps(grid, current, n)[|prev|] == s;
    } else {
      PassableStepIncluded(grid, current, n - 1, d);
      var j :| 0 <= j < |prev| && prev[j] == Step(current, d);
      assert PassableSteps(grid, current, n)[j] == prev[j];
    }
  }

  /** The passable steps among the first `n` are fresh, 4-adjacent and
      passable, strictly ordered by direction, and include every passable
      step of a direction below `n`. */
  lemma {:induction false} PassableStepsAreNeighbors(grid: array2<char>, current: Node, n: nat)
    requires n <= 4
    ensures forall k :: 0 <= k < |PassableSteps(grid, current, n)| ==>
      var s := PassableSteps(grid, current, n)[k];
      && Adjacent(s, current)
      && Passable(grid, s.x, s.y)
      && s == NewNode(s.x, s.y)
      && Direction(current, s) < n
    ensures forall k, l :: 0 <= k < l < |PassableSteps(grid, current, n)| ==>
      Direction(current, PassableSteps(grid, current, n)[k]) < Direction(current, PassableSteps(grid, current, n)[l])
    ensures forall d :: 0 <= d < n && Passable(grid, Step(current, d).x, Step(current, d).y) ==>
      Step(current, d) in PassableSteps(grid, current, n)
  {
    var steps := PassableSteps(grid, current, n);
    forall k | 0 <= k < |steps|
      ensures Adjacent(steps[k], current) && Passable(grid, steps[k].x, steps[k].y)
      ensures steps[k] == NewNode(steps[k].x, steps[k].y) && Direction(current, steps[k]) < n
    {
      PassableStepAt(grid, current, n, k);
    }
    forall k, l | 0 <= k < l < |steps|
      ensures Direction(current, steps[k]) < Direction(current, steps[l])
    {
      PassableStepAt(grid, current, n, k);
      PassableStepAt(grid, current, n, l);
      PassableStepsOrderedAt(grid, current, n, k, l);
    }
    forall d | 0 <= d < n && Passable(grid, Step(current, d).x, Step(current, d).y)
      ensures Step(current, d) in steps
    {
      PassableStepIncluded(grid, current, n, d);
    }
  }

  /** The passable 4-neighbours of `current`, each a freshly built node,
      in the order up, down, left, right. */
  method GetNeighbors(grid: array2<char>, current: Node) returns (neighbors: seq<Node>)
    ensures |neighbors| <= 4
    ensures forall k :: 0 <= k < |neighbors| ==>
      && Adjacent(neighbors[k], current)
      && Passable(grid, neighbors[k].x, neighbors[k].y)
      && neighbors[k] == NewNode(neighbors[k].x, neighbors[k].y)
    ensures forall k, l :: 0 <= k < l < |neighbors| ==>
      Direction(current, neighbors[k]) < Direction(current, neighbors[l])
    ensures forall d :: 0 <= d < 4 && Passable(grid, Step(current, d).x, Step(current, d).y) ==>
      Step(current, d) in neighbors
  {
    neighbors := [];
    var dx := DX;
    var dy := DY;
    for i := 0 to 4
      invariant neighbors == PassableSteps(grid, current, i)
    {
      var x := current.x + dx[i];
      var y := current.y + dy[i];
      if 0 <= x < grid.Length0 && 0 <= y < grid.Length1 && grid[x, y] != Wall {
        var neighbor := NewNode(x, y);
        assert neighbor == Step(current, i);
        neighbors := neighbors + [neighbor];
      }
    }
    PassableStepsAreNeighbors(grid, current, 4);
  }

  /** Cell (i', j') comes before cell (i, j) in row-major order. */
  predicate RowMajorBefore(i': int, j': int, i: int, j: int) {
    i' < i || (i' == i && j' < j)
  }

  /** A node at the first cell, in row-major order, holding `marker`, or
      `None` when no cell holds it. */
  method FindMarker(grid: array2<char>, marker: char) returns (r: Option<Node>)
    ensures r.Some? ==>
      && r.value == NewNode(r.value.x, r.value.y)
      && InBounds(grid, r.value.x, r.value.y)
      && grid[r.value.x, r.value.y] == marker
      && forall i, j :: InBounds(grid, i, j) && RowMajorBefore(i, j, r.value.x, r.value.y) ==>
           grid[i, j] != marker
    ensures r.None? <==> forall i, j :: InBounds(grid, i, j) ==> grid[i, j] != marker
  {
    r := None;
    var i := 0;
    while i < grid.Length0
      invariant 0 <= i <= grid.Length0
      invariant r.None?
      invariant forall i', j' :: InBounds(grid, i', j') && i' < i ==> grid[i', j'] != marker
    {
      var j := 0;
      while j < grid.Length1
        invariant 0 <= j <= grid.Length1
        invariant r.None?
        invariant forall j' :: 0 <= j' < j ==> grid[i, j'] != marker
      {
        if grid[i, j] == marker {
          r := Some(NewNode(i, j));
          break;
        }
        j := j + 1;
      }
      if r.Some? {
        break;
      }
      i := i + 1;
    }
  }

  /** The node at the first `'S'` cell in row-major order, or `None`. */
  method FindStart(grid: array2<char>) returns (r: Option<Node>)
    ensures r.Some? ==>
      && r.value == NewNode(r.value.x, r.value.y)
      && InBounds(grid, r.value.x, r.value.y)
      && grid[r.value.x, r.value.y] == StartMarker
      && forall i, j :: InBounds(grid, i, j) && RowMajorBefore(i, j, r.value.x, r.value.y) ==>
           grid[i, j] != StartMarker
    ensures r.None? <==> forall i, j :: InBounds(grid, i, j) ==> grid[i, j] != StartMarker
  {
    r := FindMarker(grid, StartMarker);
  }

  /** The node at the first `'E'` cell in row-major order, or `None`. */
  method FindEnd(grid: array2<char>) returns (r: Option<Node>)
    ensures r.Some? ==>
      && r.value == NewNode(r.value.x, r.value.y)
      && InBounds(grid, r.value.x, r.value.y)
      && grid[r.value.x, r.value.y] == EndMarker
      && forall i, j :: InBounds(grid, i, j) && RowMajorBefore(i, j, r.value.x, r.value.y) ==>
           grid[i, j] != EndMarker
    ensures r.None? <==> forall i, j :: InBounds(grid, i, j) ==> grid[i, j] != EndMarker
  {
    r := FindMarker(grid, EndMarker);
  }
}
