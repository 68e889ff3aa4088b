# Verified model of the step-driven A* search in `PathFinder`

This project models the grid A* search of `PathFinder` in Dafny: the `PathMarker`
node with its location-only `Equals`, and the `PathFinder` operations
`BeginSearch`, `Search`, `UpdateMarker`, `IsClose` and `GetPath`, together with the
`!done` guard that `Update` places on the step key.

The model is built in two layers.

* `AStar` (astar.dfy) describes one call of `Search` as functions on a value of the
  search state:
  * `Visit` handles one neighbour offset: the bounds test, the wall test, the
    closed test, the three costs, and then the update in place or the append.
  * `Expand` is the loop over all the direction offsets.
  * `SearchStep` is the whole call: the goal test, the expansion, the stable
    re-sort by (F, then H) from `CostOrder`, and the move of the head of the open
    list to the closed list.
* `Finder.PathFinder` (pathfinder.dfy) is the object itself. Its fields are the
  marker arena, the open and closed lists of arena indices, the current node,
  `done` and the goal. Its methods update these fields with the loops the source
  uses, and each method is proved to leave exactly the state the `AStar`
  functions describe.

A `PathMarker` reference becomes an index into the marker arena `markers`, and
the start marker is `markers[0]`. The invariant `SearchInvariant.SearchInv`
holds between steps. It says:

* no index is held twice, either within one list or across the open and closed
  lists;
* the markers held have pairwise distinct locations;
* every marker lies on a passable cell and has F = G + H, and its parent is one
  neighbour offset away;
* every open marker stands on the start cell, or hangs off the start marker or
  off a closed marker;
* every closed marker stands on the start cell, or hangs off the start marker or
  off a marker closed before it;
* the current node is the start marker until something is closed, and the marker
  closed last after that.

`StepProperties` and `Paths` hold the properties of one step and of the walk that
`GetPath` does along the parent links.

The cost function `Vector2.Distance` is a function `dist` from two cells to a real
number. The invariant and the step properties hold for any such function. Only
`StartNode` uses two laws of a distance, `StartNode.DistanceLike`: the function is
never negative, and it is positive between distinct cells. With these laws the
start marker is the first marker closed and keeps G = H = F = 0 and no parent for
the whole search (`StartNode.StartKept`). The finder requires these laws when it
is made and keeps the property in `Valid()`.

## Model

| member | source | states |
|---|---|---|
| Markers.Equals | Assets/Scripts/PathFinding/PathFinder.cs:22-26 | A marker equals an object exactly when the object is a marker with the same location. A null argument or a `MapLocation` is never equal. |
| AStar.FirstOpenWith | Assets/Scripts/PathFinding/PathFinder.cs:116-118 | Gives the position of the first open marker at the location. `None` means no open marker is at the location. |
| AStar.Visit | Assets/Scripts/PathFinding/PathFinder.cs:85-102 | One neighbour leaves the closed list, the goal, `done` and the current node alone. It keeps every existing location and the expanded marker. It adds at most one marker, and a new marker is appended to the open list. |
| AStar.Expand | Assets/Scripts/PathFinding/PathFinder.cs:83-103 | The neighbour loop leaves the closed list, the current node, `done` and the goal alone, and never removes a marker. |
| AStar.ExpandShape | Assets/Scripts/PathFinding/PathFinder.cs:83-103 | The neighbour loop keeps the expanded marker and every location. It keeps the old open list as a prefix and extends it by exactly the new markers, in creation order. |
| AStar.SearchStep | Assets/Scripts/PathFinding/PathFinder.cs:79-112 | A null node does nothing. The goal is reached exactly when the node has the goal's location, and then only `done` changes (to true). Any other step keeps `done` and the goal. |
| CostOrder.SortByCost | Assets/Scripts/PathFinding/PathFinder.cs:105 | The re-sorted open list is a permutation of the old one. |
| CostOrder.SortByCostSorted | Assets/Scripts/PathFinding/PathFinder.cs:105 | The re-sorted open list is non-decreasing by F and, for equal F, by H. |
| CostOrder.SortByCostStable | Assets/Scripts/PathFinding/PathFinder.cs:105 | The sort is stable: for every (F, H) key, the markers with that key keep their relative order. |
| CostOrder.InsertSorted | Assets/Scripts/PathFinding/PathFinder.cs:105 | Inserting into a sorted list keeps it sorted. |
| CostOrder.InsertStable | Assets/Scripts/PathFinding/PathFinder.cs:105 | Inserting an element puts it before every element with an equal key and leaves the order of each key's elements unchanged. |
| SearchInvariant.BeginEstablishesInv | Assets/Scripts/PathFinding/PathFinder.cs:53-77 | The state after `BeginSearch` satisfies the search invariant when the start cell is passable. |
| SearchInvariant.VisitPreserves | Assets/Scripts/PathFinding/PathFinder.cs:85-102 | Visiting one neighbour of the current node keeps the search invariant. |
| SearchInvariant.ExpandPreserves | Assets/Scripts/PathFinding/PathFinder.cs:83-103 | The whole neighbour loop keeps the search invariant. |
| SearchInvariant.CloseHeadPreserves | Assets/Scripts/PathFinding/PathFinder.cs:105-111 | Closing the head of any permutation of the open list, and making it the current node, keeps the search invariant. |
| SearchInvariant.StepPreservesInv | Assets/Scripts/PathFinding/PathFinder.cs:79-112 | Every step from the current node keeps the search invariant. |
| StepProperties.ExpandTouched | Assets/Scripts/PathFinding/PathFinder.cs:90-123 | After the neighbour loop, every marker is unchanged or is a kept neighbour of the node with G = Dist(node, nb) + node.G, H = Dist(nb, goal), F = G + H and parent = node. |
| StepProperties.ExpandSkipsBlocked | Assets/Scripts/PathFinding/PathFinder.cs:86-87 | A marker on a wall or outside 1 <= x < width, 1 <= z < depth is neither inserted nor updated. |
| StepProperties.ExpandCovers | Assets/Scripts/PathFinding/PathFinder.cs:83-102 | Every kept neighbour is in the open list after the loop, with the costs and parent computed from the node. |
| StepProperties.ExpandKeepsCosts | Assets/Scripts/PathFinding/PathFinder.cs:101-102 | An open marker that already has the node's costs keeps its place, its location and those costs through the rest of the loop. |
| StepProperties.ExhaustedLeavesState | Assets/Scripts/PathFinding/PathFinder.cs:106 | A step that finds the open list empty after the expansion leaves the state exactly as it was. |
| StepProperties.StepClosesCheapest | Assets/Scripts/PathFinding/PathFinder.cs:105-111 | A closing step appends the head of the re-sorted open list to the closed list and makes it the current node. The head followed by the new open list is a sorted and stable permutation of the expanded open list. |
| StepProperties.ClosedOnlyGrows | Assets/Scripts/PathFinding/PathFinder.cs:107 | The closed list keeps its old contents as a prefix. It grows by exactly one marker when a step closes one and is unchanged otherwise. |
| StepProperties.OpenLocationsDistinct | Assets/Scripts/PathFinding/PathFinder.cs:101-118 | Between steps, no two open markers share a location, no open marker shares a location with a closed one, and no two closed markers share a location. |
| Paths.ChainSnoc | Assets/Scripts/PathFinding/PathFinder.cs:135-139 | One more pass of the `GetPath` loop extends the emitted prefix by the location of the marker it leaves. |
| Paths.ChainThenStop | Assets/Scripts/PathFinding/PathFinder.cs:135 | When the loop condition fails, the emitted prefix is the whole walk. |
| Paths.WalkUnique | Assets/Scripts/PathFinding/PathFinder.cs:133-139 | The walk from a marker is unique, so `GetPath` is determined by the state. |
| Paths.WalkSteps | Assets/Scripts/PathFinding/PathFinder.cs:133-141 | Under the invariant, the walk from the start marker or a closed marker visits passable cells only, each one direction offset from the next, ending at the start. |
| Paths.PathSteps | Assets/Scripts/PathFinding/PathFinder.cs:133-141 | The walk followed by the start location runs over passable cells, with one direction offset between consecutive cells. |
| Paths.WalkAdvance | Assets/Scripts/PathFinding/PathFinder.cs:135-138 | One pass of the `GetPath` loop from a closed marker off the start cell extends the emitted prefix. It reaches the parent, which exists and stands on the start cell or was closed earlier. |
| Paths.ParentClosedBefore | Assets/Scripts/PathFinding/PathFinder.cs:135-138 | The parent of a closed marker that is not on the start cell exists, and it stands on the start cell or was closed earlier. This is why `GetPath` terminates. |
| StartNode.ExpandKeepsMarker | Assets/Scripts/PathFinding/PathFinder.cs:83-118 | The neighbour loop never changes a marker on a closed cell, because the closed test skips it. It never changes a marker on the expanded node's own cell either, because that cell is no neighbour offset away. |
| StartNode.FirstExpansionCosts | Assets/Scripts/PathFinding/PathFinder.cs:90-92 | With the distance laws, every marker the first expansion creates has F > 0. |
| StartNode.FirstStepClosesStart | Assets/Scripts/PathFinding/PathFinder.cs:105-111 | With the distance laws, the first step after `BeginSearch` (start not the goal) closes the start marker. The start marker heads the re-sort, becomes the current node, and keeps its costs. |
| StartNode.StepKeepsStart | Assets/Scripts/PathFinding/PathFinder.cs:79-112 | With the distance laws, every step keeps the start marker at G = H = F = 0 with no parent, and keeps it the first marker closed. |
| Finder.PathFinder.constructor | Assets/Scripts/PathFinding/PathFinder.cs:41-43 | A new finder has empty lists, no current node and `done` false. |
| Finder.PathFinder.BeginSearch | Assets/Scripts/PathFinding/PathFinder.cs:53-77 | The markers become just the start marker with G = H = F = 0 and no parent. Open becomes [start], closed becomes empty, the current node is the start, `done` is false, and the invariant holds. |
| Finder.PathFinder.IsClose | Assets/Scripts/PathFinding/PathFinder.cs:144-149 | Returns true exactly when some closed marker has the location. |
| Finder.PathFinder.UpdateMarker | Assets/Scripts/PathFinding/PathFinder.cs:114-128 | Returns true exactly when some open marker has the position. Then it overwrites the first such marker's G, H, F and parent without comparing costs, and no other marker changes. Otherwise it returns false and nothing changes. |
| Finder.PathFinder.VisitNeighbour | Assets/Scripts/PathFinding/PathFinder.cs:85-102 | One pass of the neighbour loop leaves exactly the state `AStar.Visit` describes. |
| Finder.PathFinder.ExpandNeighbours | Assets/Scripts/PathFinding/PathFinder.cs:83-103 | The neighbour loop over the direction offsets leaves exactly the state `AStar.Expand` describes. |
| Finder.PathFinder.ExpandAndClose | Assets/Scripts/PathFinding/PathFinder.cs:83-111 | The expansion, the re-sort and the move of the head to the closed list leave exactly the state and outcome `AStar.SearchStep` gives for a node that is not the goal. |
| Finder.PathFinder.Search | Assets/Scripts/PathFinding/PathFinder.cs:79-112 | One call leaves exactly the state and outcome of `AStar.SearchStep`. It keeps the invariant, and it keeps the start marker at zero costs and first closed. |
| Finder.PathFinder.Step | Assets/Scripts/PathFinding/PathFinder.cs:155-156 | Once `done` is set, the step key changes nothing. Otherwise it performs `Search` on the current node. |
| Finder.PathFinder.GetPath | Assets/Scripts/PathFinding/PathFinder.cs:130-142 | Gives the locations from the current node back along the parent links until a marker on the start cell or a null parent, then the start location. The path runs over passable cells, each one direction offset from the next. |
| AsWritten.IsCloseAsWritten | Assets/Scripts/PathFinding/PathFinder.cs:144-149 | The closed test as written never returns true. |
| AsWritten.ClosedCellReopened | Assets/Scripts/PathFinding/PathFinder.cs:147 | On a closed list holding a marker at (1, 1), the intended test reports (1, 1) as closed and the written test does not. |

## Left out

- Unity plumbing is not modelled because it is presentation only:
  - `MonoBehaviour`, `Instantiate` and `Destroy`;
  - the start, goal and path game objects and `RemoveAllMarkers`;
  - the `marker` field of `PathMarker`;
  - the TextMesh cost labels and the material swap on closing.
- Keyboard dispatch in `Update` is not modelled. `BeginSearch` and `GetPath` are plain methods, and `Step` models the step key with its `!done` guard.
- The random choice of start and goal is not modelled. This covers the candidate list, `Shuffle`, and its x loop, which is bounded by `depth` instead of `width`. `BeginSearch` takes start and goal as parameters and requires both to be passable.
- Floating point is not modelled. Costs are reals. `Vector2.Distance` is a function `dist`, fixed when the finder is made, that is constrained only by the two laws of `StartNode.DistanceLike`. There is no rounding, and the `"0.00"` formatting is left out.
- `Maze` and `MapLocation` are not part of this model:
  - Their code is add, componentwise equality, the map, the bounds and the direction offsets, taken as a value.
  - The model assumes the map covers every cell inside the bounds and that no entry of `Maze.directions` is the zero offset. `Maze` is not shown, so both are assumptions about it.
- `GetHashCode`, which returns 0, is not modelled because it has no effect on the search.
- Bounds test order: the model tests the bounds before the wall. The source reads `maze.map` before testing the bounds, so an out-of-array neighbour throws there instead of being skipped.
- Empty open list: the source's `ElementAt(0)` throws when the open list is empty after the expansion. The model returns the outcome `Exhausted` instead, and `ExhaustedLeavesState` proves nothing changed.
- `Finder.PathFinder.GetPath` returns `None` before any `BeginSearch`. The source dereferences a null start node there.
- `Finder.PathFinder.Search` requires its argument to be the current node. This is the only call the source makes, at line 156.
- Object identity is not modelled: markers are arena entries addressed by index. The goal marker is represented by the goal location, the only thing `Equals` reads from it.
- `Finder.PathFinder.IsClose`: models the intended location test, not the test as written (see Findings). The search functions use the intended test too.

## Findings

| source | as written | input that shows it | evidently intended | confidence | as-written member | corrected member |
|---|---|---|---|---|---|---|
| Assets/Scripts/PathFinding/PathFinder.cs:147 | `IsClose` hands a `MapLocation` to `PathMarker.Equals`. `Equals` rejects any argument whose run-time type is not `PathMarker`, so `IsClose` never returns true and closed cells go back into the open list. | Closed list with one marker at (1, 1), test location (1, 1) | True exactly when some closed marker has the location | not executed | AsWritten.IsCloseAsWritten | Finder.PathFinder.IsClose |
