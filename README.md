# A* path finding on a character grid — a Dafny model

The program searches a rectangular `char` grid for a path from the cell
marked `'S'` to the cell marked `'E'`. It uses A* with 4-directional moves,
unit step cost and the Manhattan distance as its heuristic, and treats `'#'`
as a wall. This project models the search and its helpers:

- the node record (`X`, `Y`, `G`, `H`, `Parent`, and `F = G + H`);
- the A* loop with its open and closed lists;
- the path reconstruction over parent links;
- the lowest-`F` selection;
- neighbour generation;
- the Manhattan distance;
- the two marker scans.

It then proves what the code guarantees about them.

The model follows the code, not textbook A*. `Node` does not override
equality, so the open-list and closed-list membership tests compare object
identity. `GetNeighbors` builds a new node for every neighbour. So:

- the closed-list test never matches;
- the open-list test never matches;
- every neighbour is appended to the open list, and the same cell can be
  on the open list many times.

The model keeps nodes in an arena, a `seq<Node>` in which a node's identity
is its index. Membership tests compare indices. The nodes `GetNeighbors`
builds take the next free indices, so a parent's index is always smaller
than its child's. `Search.Relax` runs both membership tests as written and
proves that neither ever matches.

Modules:

- `Nodes` (nodes.dfy): the node record, the Manhattan distance, 4-adjacency,
  and walks.
- `Grid` (grid.dfy): passability, `GetNeighbors`, `FindStart` and `FindEnd`.
  The grid is a read-only `array2<char>`. The first index (`x`) is the row
  and the second (`y`) is the column.
- `Search` (search.dfy): `BuildPath`, `FindLowestF`, the neighbour loop,
  one expansion step (`Expand`), `AStar`, and the search-tree invariant with its lemmas.

Where textbook A* and this code differ, the model follows the code:

- the start node's `H` is never set, so it stays at what the caller gave
  (0 for a node built by `FindStart`);
- nodes are never updated in place on the open list, because the identity
  tests never match;
- the search is not guaranteed to terminate: with an unreachable goal and a
  passable start that has a passable neighbour, the open list never empties,
  so the loop never ends (the closed list and the duplicate nodes keep
  growing); a start with no passable step ends in `null` after one
  iteration;
- a missing marker is not reported as an error: it makes the later call
  crash on a null reference.

## Model

| member | source | states |
|---|---|---|
| `Nodes.NewNode` | AStarPathFinding.cs:28-40 | a node built by the two-argument constructor has the given X and Y, G = H = 0 and no parent |
| `Nodes.ManhattanDistance` | AStarPathFinding.cs:144-147 | the distance is non-negative, and it is 0 exactly when the two nodes have equal X and equal Y |
| `Nodes.ManhattanSymmetric` | AStarPathFinding.cs:144-147 | the distance is the same with its arguments swapped |
| `Nodes.AdjacentIsDistanceOne` | AStarPathFinding.cs:127-135 | a neighbour step (exactly one coordinate changes by exactly 1) is the same as being at Manhattan distance 1 |
| `Nodes.ManhattanConsistent` | AStarPathFinding.cs:144-147 | one 4-adjacent step changes the distance to any target by at most 1 (the heuristic is consistent) |
| `Nodes.WalkAtLeastManhattan` | AStarPathFinding.cs:123-147 | a walk of 4-adjacent steps has at least as many steps as the Manhattan distance between its ends |
| `Grid.GetNeighbors` | AStarPathFinding.cs:123-142 | at most 4 new nodes (G = H = 0, no parent); each is 4-adjacent to `current`, in bounds and not `'#'`; they come in the order x-1, x+1, y-1, y+1; every in-bounds non-wall neighbour cell is among them |
| `Grid.PassableStepsAreNeighbors` | AStarPathFinding.cs:123-142 | the fresh nodes at the passable cells among the first n directions are 4-adjacent and passable, strictly ordered by direction, and include every passable cell of a direction below n |
| `Grid.FindMarker` | AStarPathFinding.cs:149-171 | a new node at an in-bounds cell holding the marker, with no earlier cell in row-major order holding it; `None` exactly when no cell holds it |
| `Grid.FindStart` | AStarPathFinding.cs:149-171 | a new node at the first `'S'` cell in row-major order, or `None` exactly when the grid has no `'S'` |
| `Grid.FindEnd` | AStarPathFinding.cs:173-195 | a new node at the first `'E'` cell in row-major order, or `None` exactly when the grid has no `'E'` |
| `Search.Reverse` | AStarPathFinding.cs:104 | the result has the same length, and element k is element \|s\|-1-k of the input |
| `Search.BuildPath` | AStarPathFinding.cs:94-106 | the parent chain of `n` in root-to-`n` order: it ends with `n`, its first node has no parent, and each node is the parent of the next |
| `Search.FindLowestF` | AStarPathFinding.cs:108-121 | on a non-empty list, the position of a node whose F is at most every node's F, and no earlier node's F is that low (the first minimum, from the strict `<`) |
| `Search.Relax` | AStarPathFinding.cs:68-88 | neither membership test matches a freshly built neighbour; each neighbour gets `current` as parent, G = current.G + 1 and H = its distance to `end`, and all neighbours are appended to the open list in order; nothing else changes |
| `Search.SearchTreeParentsEarlier` | AStarPathFinding.cs:79 | in the search tree every parent link points to an earlier node, and the start node is the only node with no parent |
| `Search.ChainCosts` | AStarPathFinding.cs:75-80 | along a parent chain from the start node, the node at position k has G = start.G + k |
| `Search.FAlongTree` | AStarPathFinding.cs:42-45 | F never decreases from a parent to its child, provided the start node's H does not exceed its distance to `end` |
| `Search.ExpansionKeepsTree` | AStarPathFinding.cs:75-85 | relaxing the new neighbours of a tree node keeps the invariant: each non-start node is a passable 4-neighbour of its earlier parent, with G = parent.G + 1 and H = distance to `end` |
| `Search.OpenAfterExpansion` | AStarPathFinding.cs:63-85 | after removing the selected node and appending the new ones, the open list still holds each node at most once and only existing nodes |
| `Search.FoundPath` | AStarPathFinding.cs:58-61 | the chain `BuildPath` returns for a node at `end`'s coordinates starts with `start`, ends at `end`'s coordinates, and is a walk of 4-adjacent steps; every node has G = start.G + index, and every node after the first is passable and has H = distance to `end`; its step count is at least the Manhattan distance from start to end |
| `Search.WalkLeavesByPassableStep` | AStarPathFinding.cs:127-135 | a walk of passable cells from the start to a different cell leaves the start through one of its passable steps |
| `Search.IsolatedStartReachesNothing` | AStarPathFinding.cs:127-135 | a start with no passable step has no passable walk to any other cell |
| `Search.ExpansionHasNeighbor` | AStarPathFinding.cs:66-85 | when the start is passable and has a passable step, expanding any node yields at least one neighbour: the start's own step, or the step back to the node's parent |
| `Search.AppendedNeighbors` | AStarPathFinding.cs:66-85 | the nodes appended and relaxed for `current` keep the coordinates `GetNeighbors` gave them: passable 4-neighbours of `current`, one per passable cell in direction order, each with `current` as parent, G = current.G + 1 and H = distance to `end` |
| `Search.ExpansionKeepsState` | AStarPathFinding.cs:63-88 | removing the selected node, closing it and relaxing its new neighbours keeps the search state: a valid search tree, an open list of distinct existing nodes and a closed list of existing nodes; for a passable start with a passable step the open list stays non-empty |
| `Search.Expand` | AStarPathFinding.cs:63-88 | the selected node moves from the open list to the end of the closed list; at most 4 new nodes are appended, each a passable 4-neighbour of it with it as parent, G one more than its G and H = distance to `end`; they come one per passable neighbour cell, in the order x-1, x+1, y-1, y+1, and every passable neighbour cell is among them; the open list becomes the old one without position i, followed by the new nodes in order; the search state is kept |
| `Search.AStar` | AStarPathFinding.cs:48-92 | a found path has all the properties listed for `FoundPath`; when start and end share coordinates, the result is exactly `[start]`; no path (the `null` of line 91) is reported only when start and end differ and, for a passable start, only when the start has no passable step, so that no passable walk joins start to end; conversely, with at least one iteration allowed, a start with no passable step and coordinates different from `end`'s yields `NoPath` (after one iteration the open list is empty) |

## Left out

- `Main` (lines 8-26) and `PrintGrid` (lines 197-215) are left out. They only build a fixed demo grid and write to the console.
- `Search.AStar`: takes an extra argument `fuel`, a bound on the number of loop iterations, and returns `OutOfFuel` when the bound is reached. The source loop has no bound and need not terminate: with an unreachable goal and a passable start that has a passable step, the loop never ends. Termination is proved only where the code guarantees it: a start with no passable step ends in `null` after one iteration, and a start at `end`'s coordinates returns `[start]` in the first iteration. Otherwise only partial correctness is proved. Every neighbour is appended and nothing is pruned, and the heuristic is consistent with `start.H` = 0, so a returned path is a shortest one; this optimality is not proved here.
- `Search.AStar`: requires that `start` has no parent. The only caller passes a node just built by `FindStart`. With a parent set, path reconstruction would follow links outside the search.
- A `null` start or end node is not modelled. Both are non-null `Node` values here. The source dereferences `null` when a marker is missing. A missing marker shows up only in the `None` result of `FindStart` and `FindEnd`.
- 32-bit `int` arithmetic is not modelled. Coordinates, `G`, `H` and the Manhattan distance are unbounded integers. The source's values would wrap only after about 2^31 iterations, or for coordinates far outside any grid.
- The returned path holds node values (coordinates, `G`, `H`, parent index), not references. Object aliasing between the path and the search's lists is not modelled.
- `Search.Reverse`: models the in-place `List.Reverse` as a function on a sequence.
