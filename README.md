# Labyrinths: a verified model of the maze core

This project models the core of the Labyrinths maze program in Dafny. It covers:

- the grid of cells;
- the random helpers shared by the generators;
- the Prim and Wilson generators;
- the min-heap, the predecessor table and the path restoration shared by the solvers;
- the Dijkstra and depth-first solvers;
- the expanding renderer, which doubles the grid, cuts passages, marks a path and prints the result through a palette.

Each component keeps the shape of the program:

- **Objects whose fields change become classes.** The generators, the solvers, the heap, the random source and the renderer are classes with `modifies` clauses.
- **Loops become methods with invariants.** Each such method is proved against a specification function or a state predicate.
- **Pure helpers become functions and lemmas.**

The maze is a value: a map from coordinates to cells, plus a height and a width. Cell types are unbounded integers. Wall, LightedPass and Pass are 0, 1 and 2. The renderer's markers are negative. Randomness comes from an injected `Random.Source` holding a finite stream of draws. When the stream runs out, the random source has failed, and the caller sees an `Err`.

Main results:

- **Prim.** On success the maze is perfect. Every cell is a passage and transitions are symmetric. They join side-adjacent cells only and repeat no cell. Every cell reaches every other, and an undirected edge set of `height * width - 1` edges describes the transitions.
- **Wilson.** On success the maze is spanning. Every cell is a passage and transitions are symmetric and between side-adjacent cells. Every cell reaches every other. An undirected edge set of `height * width - 1` edges describes the transitions, so the passages form a tree, although a transition list may name a cell twice.
- **Dijkstra.** The path is empty exactly when start is end or end is unreachable. Otherwise it is a walk from start to end with no repeated cell, and no walk between the two weighs less.
- **DFS.** The path is empty exactly when start is end or end is unreachable. Otherwise it is a walk from start to end with no repeated cell.
- **Heap.** Pop returns an item of least weight and removes exactly one copy of it. Push adds exactly the item. Both keep the heap order.
- **Renderer, cell by cell.** The output is the picture of the cut, expanded maze:
  - every original cell lands on the doubled coordinates with its type;
  - each transition becomes a passage cell between the two images;
  - walls no transition crosses stay empty;
  - marking a walk draws its passages as `Path`;
  - when every cell prints as one character, the text of cell (x, y) sits at position `y * (width + 1) + x` of the printed text. Longer palette texts shift the positions.

## Model

| member | source | states |
|---|---|---|
| Cells.TypeValues | internal/domain/maze/cells/cell.go:19-23 | Wall, LightedPass and Pass are 0, 1 and 2, in ascending cost. Among maze types, exactly LightedPass and Pass are significant (above zero). |
| Cells.TypesAscending | internal/domain/maze/cells/cell.go:26 | `Types` lists the three maze types in strictly ascending order. A type is listed exactly when it is a maze type. |
| Cells.ZeroCellIsWall | internal/domain/maze/cells/cell.go:4-7 | The zero value of a cell is a Wall without transitions, and it is not significant. |
| Mazes.New | internal/domain/maze/maze.go:15-27 | The maze has the requested height and width. Its cells are exactly the coordinates inside the grid, `height * width` of them, each a Wall without transitions. |
| Mazes.GridSize | internal/domain/maze/maze.go:15-27 | A height x width grid has `height * width` coordinates. |
| Random.Source.Next | internal/domain/generator/utils.go:94-101 | A draw takes the head of the stream. With the stream exhausted it fails and the stream stays empty. |
| GeneratorUtils.OffsetsAreSides | internal/domain/generator/utils.go:11-14 | The four offsets reach exactly the four side-adjacent cells. |
| GeneratorUtils.GetRandomInt | internal/domain/generator/utils.go:94-101 | On success the number lies in `[0, limit)` and one draw is used. It fails exactly when no draw is left, and then consumes nothing. |
| GeneratorUtils.GetRandomCoords | internal/domain/generator/utils.go:22-34 | On success the coordinates lie inside the grid. |
| GeneratorUtils.GetRandomCoordsFrom | internal/domain/generator/utils.go:37-57 | On success the result is a member of the key set and at least one draw was used. |
| GeneratorUtils.GetRandomAdjacentCoords | internal/domain/generator/utils.go:60-73 | On success the result lies inside the grid, is side-adjacent to `coords` and differs from it. |
| GeneratorUtils.SignificantOfMembers | internal/domain/generator/utils.go:78-84 | The filtered list holds exactly the listed types above zero. |
| GeneratorUtils.GetRandomSignificantType | internal/domain/generator/utils.go:76-91 | On success the type is LightedPass or Pass. |
| Heaps.RootIsMinimal | internal/domain/solvers/sutils/heap.go:42-44 | In a heap-ordered prefix, the first item weighs no more than any other. |
| Heaps.ChildSlots | internal/domain/solvers/sutils/heap.go:37-44 | Slot `c` has parent `i` exactly when `c` is `2i+1` or `2i+2`. |
| Heaps.Heap.constructor | internal/domain/solvers/sutils/heap.go:21-29 | A new heap is empty and valid. |
| Heaps.Heap.Len | internal/domain/solvers/sutils/heap.go:32-34 | The length is the number of items held. |
| Heaps.Heap.Swap | internal/domain/solvers/sutils/heap.go:55-57 | Exchanges two slots and keeps the multiset of items. |
| Heaps.Heap.Append | internal/domain/solvers/sutils/heap.go:59-61 | Adds the item at the end of the slice. |
| Heaps.Heap.RemoveLast | internal/domain/solvers/sutils/heap.go:63-71 | Returns the last item and shortens the slice by one. |
| Heaps.Heap.Up | internal/domain/solvers/sutils/heap.go:37-39 | Sifting an item up restores the heap order and keeps the multiset. |
| Heaps.Heap.Down | internal/domain/solvers/sutils/heap.go:42-44 | Sifting the root down within the first `n` slots makes them heap-ordered. It keeps the multiset and leaves the slots from `n` on as they were. |
| Heaps.Heap.Push | internal/domain/solvers/sutils/heap.go:37-39 | The heap stays valid, gains exactly the pushed item and grows by one. |
| Heaps.Heap.Pop | internal/domain/solvers/sutils/heap.go:42-44 | Returns an item of least weight and removes exactly one copy of it. The heap stays valid and shrinks by one. |
| Heaps.PopTwice | internal/domain/solvers/sutils/heap.go:42-44 | Two pops from a valid heap, with no push in between, return non-decreasing weights. |
| Heaps.PopOrderExample | internal/domain/solvers/sutils/heap.go:37-44 | Pushing weights 5, 1 and 3 and popping three times yields 1, 3, 5. |
| Predecessors.MissingIsOutside | internal/domain/solvers/sutils/predecessors.go:5-8 | The sentinel is (-1, -1) and lies outside every grid. |
| Predecessors.NewPredecessors | internal/domain/solvers/sutils/predecessors.go:14-25 | The table has an entry for exactly the coordinates of the grid, each the sentinel, `height * width` entries. |
| PathRestore.ChainDistinct | internal/domain/solvers/sutils/utils.go:17-24 | Before the backward walk first lands on its target, it never visits a cell twice. |
| PathRestore.ReadBackShape | internal/domain/solvers/sutils/utils.go:8-35 | The path read back from `end` holds no repeats and ends at `end`. Each cell is recorded as the predecessor of the next. It starts at `start` unless `start` is its own predecessor. |
| PathRestore.RestorePath | internal/domain/solvers/sutils/utils.go:8-35 | The result is the path read back from `end` when the walk passed through `start`, and empty otherwise. It is also empty when start is end. Each cell is the predecessor of the next, and no cell repeats. |
| PathRestore.Reverse | internal/domain/solvers/sutils/utils.go:26-28 | The result holds the cells in the opposite order. |
| Prim.PassagesNearby | internal/domain/generators/prim/prim.go:128-135 | The collected list holds exactly the in-grid, side-adjacent neighbours that are not Walls. |
| Prim.WallsNearby | internal/domain/generators/prim/prim.go:112-119 | The border gains exactly the in-grid, side-adjacent neighbours that are still Walls. |
| Prim.StartGrowing | internal/domain/generators/prim/prim.go:54-59 | An all-Wall grid with one random cell on the border satisfies the loop invariant: no passage yet, no edge. |
| Prim.CarveStep | internal/domain/generators/prim/prim.go:61-78 | One turn keeps the invariant and carves exactly one new cell. The invariant: the passages form a tree holding the first cell, with one edge fewer than cells; the border is Walls next to passages; every neighbour of a passage is a passage or on the border. |
| Prim.AllCarved | internal/domain/generators/prim/prim.go:61 | Once the border is empty, every cell of the grid is a passage. |
| Prim.EdgesDone | internal/domain/generators/prim/prim.go:95-105 | Edges recorded at both ends between adjacent cells give symmetric transitions between side-adjacent cells. |
| Prim.ReachDone | internal/domain/generators/prim/prim.go:50 | With a walk from the first cell to every cell and symmetric transitions, every cell reaches every other. |
| Prim.GrowingDone | internal/domain/generators/prim/prim.go:50-80 | When the loop stops, the maze is perfect: spanning, with no repeated transition, and described by `height * width - 1` undirected edges. |
| Prim.Generator.constructor | internal/domain/generators/prim/prim.go:18-22 | A new generator has an empty border. |
| Prim.Generator.Generate | internal/domain/generators/prim/prim.go:25-34 | On failure it returns the empty maze. On success it returns the built maze, which is perfect for the requested size. |
| Prim.Generator.Prepare | internal/domain/generators/prim/prim.go:84-86 | The maze becomes an all-Wall grid of the requested size. |
| Prim.Generator.Prim | internal/domain/generators/prim/prim.go:37-81 | On success the border is empty and the maze is perfect. |
| Prim.Generator.CarveNext | internal/domain/generators/prim/prim.go:62-77 | One turn of the loop, on success: the invariant is kept and one more cell is carved. |
| Prim.Generator.LinkToPassage | internal/domain/generators/prim/prim.go:89-108 | On success the cell is joined, at both ends, to one random neighbouring passage, or left alone when there is none. On failure a neighbouring passage existed and the maze is unchanged. |
| Prim.Generator.UpdateBorder | internal/domain/generators/prim/prim.go:111-122 | The border gains the cell's Wall neighbours and loses the cell itself. |
| Prim.Generator.RandomAdjacentPassage | internal/domain/generators/prim/prim.go:125-147 | Returns (-1, -1) when no neighbour is a passage, and otherwise one of the neighbouring passages. It fails only when a draw was needed and none was left, and then the stream is empty. |
| Wilson.AddLinkFresh | internal/domain/generators/wilson/wilson.go:147-152 | Recording a step onto an unrecorded cell gives that cell exactly the cell stepped from. The step is appended to the other end's list. |
| Wilson.AddLinkKeeps | internal/domain/generators/wilson/wilson.go:147-152 | Recording a step never creates a self-link and keeps every link recorded at both ends. A step in place records nothing. |
| Wilson.WalkSteps | internal/domain/generators/wilson/wilson.go:127-141 | A step of the walk onto an unrecorded cell keeps the walk state. The trail is a chain of side-adjacent cells, linked at both ends in the record. |
| Wilson.CommitKeeps | internal/domain/generators/wilson/wilson.go:164-176 | Committing a finished walk keeps the invariant between walks and shrinks the unvisited set. The invariant: visited cells are passages reachable from the first cell, with symmetric, side-adjacent transitions. |
| Wilson.SettledDone | internal/domain/generators/wilson/wilson.go:69-81 | With no unvisited cell left, the maze is spanning. |
| Wilson.TrailEdgesCount | internal/domain/generators/wilson/wilson.go:127-141 | A walk without repeated cells has exactly one step fewer than it has cells, counting each step as one edge. |
| Wilson.CommitUndirected | internal/domain/generators/wilson/wilson.go:164-176 | After a commit a cell's transitions are exactly its old edges plus the steps of the walk that touch it. A stale cell gains no new edge, because its re-appended links are transitions it already had. |
| Wilson.CommitCounted | internal/domain/generators/wilson/wilson.go:164-176 | A commit keeps the edge count: the transitions are described by a set of undirected edges with one edge fewer than the cells no longer unvisited. A walk of k steps adds k new cells and k new edges, and an empty record adds nothing. |
| Wilson.WalkCommitted | internal/domain/generators/wilson/wilson.go:69-79 | One turn of the outer loop, a finished walk followed by its commit, keeps both the state between walks and the edge count. |
| Wilson.CountedDone | internal/domain/generators/wilson/wilson.go:60 | With no unvisited cell left, the transitions form `height * width - 1` undirected edges. |
| Wilson.Generator.constructor | internal/domain/generators/wilson/wilson.go:19-24 | A new generator has nothing unvisited and nothing recorded. |
| Wilson.Generator.Generate | internal/domain/generators/wilson/wilson.go:27-36 | On failure it returns the empty maze. On success it returns the built maze, which is spanning for the requested size and whose transitions form `height * width - 1` undirected edges: a spanning tree. |
| Wilson.Generator.Prepare | internal/domain/generators/wilson/wilson.go:85-91 | The maze becomes an all-Wall grid of the requested size, and every cell is unvisited. |
| Wilson.Generator.Wilson | internal/domain/generators/wilson/wilson.go:39-82 | On success nothing is unvisited, the maze is spanning, and its transitions form `height * width - 1` undirected edges. |
| Wilson.Generator.WanderAll | internal/domain/generators/wilson/wilson.go:69-79 | The outer loop walks and commits until nothing is unvisited. On success the maze is still reachable from the first cell, has symmetric side-adjacent transitions, and has one undirected edge fewer than its cells. |
| Wilson.Generator.ProcessRandomStartingCoords | internal/domain/generators/wilson/wilson.go:94-108 | On success one random cell becomes a passage and leaves the unvisited set. Nothing else changes. |
| Wilson.Generator.RandomlyWander | internal/domain/generators/wilson/wilson.go:111-144 | On success the walk ends on a visited cell. Its record links the trail's cells at both ends, and at least one draw was used. |
| Wilson.Generator.AddCoordsToWandering | internal/domain/generators/wilson/wilson.go:147-152 | The record gains the step at both ends; a step in place changes nothing. |
| Wilson.Generator.ResetWandering | internal/domain/generators/wilson/wilson.go:155-158 | The record is cleared and the walk restarts from its first cell. |
| Wilson.Generator.AddWanderingToMaze | internal/domain/generators/wilson/wilson.go:161-179 | On success every recorded cell gets a passable type, has its recorded links appended and leaves the unvisited set. |
| DijkstraSearch.InitSearch | internal/domain/solvers/dijkstra/dijkstra.go:57-60 | Giving start its own type as distance and pushing it establishes the search invariant. |
| DijkstraSearch.PopOptimal | internal/domain/solvers/dijkstra/dijkstra.go:63 | The lightest item of the heap carries a distance no walk from start undercuts. |
| DijkstraSearch.PopStep | internal/domain/solvers/dijkstra/dijkstra.go:63 | The popped cell is reached, not yet settled, and its distance is optimal. |
| DijkstraSearch.Discover | internal/domain/solvers/dijkstra/dijkstra.go:70-74 | Giving a neighbour at INF a distance, a heap item and a predecessor keeps the search invariant. |
| DijkstraSearch.SkipReached | internal/domain/solvers/dijkstra/dijkstra.go:70 | A neighbour already reached is skipped, and is already no farther than one step beyond the popped cell. |
| DijkstraSearch.Settle | internal/domain/solvers/dijkstra/dijkstra.go:69-75 | Once all neighbours are looked at, the popped cell joins the settled cells. |
| DijkstraSearch.Drained | internal/domain/solvers/dijkstra/dijkstra.go:62 | With the heap empty, every reached cell is settled. |
| DijkstraSearch.TreeWalk | internal/domain/solvers/dijkstra/dijkstra.go:71-73 | A chain of predecessor steps from start is a walk that weighs the distance of its end. |
| DijkstraSearch.Finish | internal/domain/solvers/dijkstra/dijkstra.go:62-76 | On break at end, the predecessor chain passes through start and spells a shortest walk. When the heap drains without meeting end, end is unreachable. |
| Dijkstra.Solver.constructor | internal/domain/solvers/dijkstra/dijkstra.go:22-29 | A new solver has no distances and an empty heap. |
| Dijkstra.Solver.Solve | internal/domain/solvers/dijkstra/dijkstra.go:32-38 | The path is empty exactly when start is end or end is unreachable. Otherwise it is a shortest walk from start to end with no repeated cell. |
| Dijkstra.Solver.Prepare | internal/domain/solvers/dijkstra/dijkstra.go:80-88 | Every grid cell gets distance INF and the sentinel predecessor. |
| Dijkstra.Solver.Run | internal/domain/solvers/dijkstra/dijkstra.go:42-77 | The predecessor table left behind reads back a shortest walk when end was met. Otherwise end is unreachable. |
| Dijkstra.Solver.Explore | internal/domain/solvers/dijkstra/dijkstra.go:62-76 | The main loop ends with the table stated for `Run`. |
| Dijkstra.Solver.Step | internal/domain/solvers/dijkstra/dijkstra.go:63-75 | One pop keeps the search invariant. It either meets end with an optimal distance or settles one more cell. |
| Dijkstra.Solver.Expand | internal/domain/solvers/dijkstra/dijkstra.go:69-75 | Looking at every neighbour of the popped cell keeps the search invariant. Each neighbour ends up reached, no farther than one step beyond the popped cell. |
| DfsSearch.PushStep | internal/domain/solvers/dfs/dfs.go:49-56 | Pushing each unvisited neighbour with its type as weight covers the neighbours looked at so far. |
| DfsSearch.PopStep | internal/domain/solvers/dfs/dfs.go:58-60 | Neighbours are entered in ascending weight: the popped one weighs least among those left. |
| DfsSearch.EnterNext | internal/domain/solvers/dfs/dfs.go:40-41 | Recording the predecessor and marking the cell visited keeps the search invariant. |
| DfsSearch.LeaveFrame | internal/domain/solvers/dfs/dfs.go:58-61 | Once a frame's heap is empty, every neighbour of the cell is visited and the cell's predecessor is still the cell it was entered from. |
| DfsSearch.Conclude | internal/domain/solvers/dfs/dfs.go:27-29 | After the search, the predecessor chain from end passes through start when end was visited. When end was not visited, end is unreachable. |
| DfsSearch.TreePathWalk | internal/domain/solvers/dfs/dfs.go:40 | A path of recorded predecessors is a walk of the maze. |
| Dfs.Solver.constructor | internal/domain/solvers/dfs/dfs.go:17-21 | A new solver has nothing visited. |
| Dfs.Solver.Solve | internal/domain/solvers/dfs/dfs.go:24-30 | The path is empty exactly when start is end or end is unreachable. Otherwise it is a walk from start to end with no repeated cell. Every recorded predecessor has a transition to its cell. |
| Dfs.Solver.Prepare | internal/domain/solvers/dfs/dfs.go:64-67 | The solver keeps the maze and a table with the sentinel for every grid cell. |
| Dfs.Solver.Dfs | internal/domain/solvers/dfs/dfs.go:33-61 | Enters `current` from `previous` and keeps the search invariant. At end it records only that cell. Otherwise it enters the unvisited neighbours in ascending weight. |
| Dfs.Solver.Visit | internal/domain/solvers/dfs/dfs.go:40-45 | Records the predecessor and marks the cell visited, keeping the search invariant. |
| Dfs.Solver.EnterLightest | internal/domain/solvers/dfs/dfs.go:58-60 | Pops the lightest neighbour and searches from it, keeping the invariant and the ascending entry order. |
| Dfs.Solver.Gather | internal/domain/solvers/dfs/dfs.go:47-56 | The local heap holds exactly the unvisited neighbours, each weighted by its type. |
| Expander.CutStep | internal/domain/renderer/expander.go:77-99 | Cutting one transition of an even cell advances the scan state by one transition. |
| Expander.CutFrom | internal/domain/renderer/expander.go:75-100 | Cutting every transition of the even cell (x, y) advances the scan to the next cell. |
| Expander.CutEdges | internal/domain/renderer/expander.go:72-106 | Keeps the grid. On a doubled grid whose transitions join cells two steps apart, the result is the fully cut maze. |
| Expander.CutEven | internal/domain/renderer/expander.go:96-99 | Every even cell keeps its type and gains, after its transitions, one transition per transition to the cell halfway to it. |
| Expander.CutPassage | internal/domain/renderer/expander.go:77-94 | The cell halfway along a transition becomes Path when both ends are path parts, and Transition otherwise. It is linked to the even cell both ways. |
| Expander.CutUncrossed | internal/domain/renderer/expander.go:72-106 | A wall cell no transition crosses keeps what it held. |
| Expander.DoubleCell | internal/domain/renderer/expander.go:51-64 | Copies cell (x, y) to (2x, 2y) with its type and its transitions doubled. |
| Expander.ExpandMaze | internal/domain/renderer/expander.go:46-69 | The result is a (2h-1) x (2w-1) grid. When transitions join side-adjacent cells, it is the expanded maze. |
| Expander.ExpandedCell | internal/domain/renderer/expander.go:46-99 | Cell (x, y) lands at (2x, 2y) with its type. Its transitions are doubled, then followed by one transition per original transition to the cell between the images. |
| Expander.ExpandedPassage | internal/domain/renderer/expander.go:46-99 | Between the images of two cells joined by a transition lies a passage marked Path or Transition, linked both ways to the first image. |
| Expander.ExpandedWall | internal/domain/renderer/expander.go:46-106 | Between the images of two adjacent cells not joined in either direction, the cell stays a zero Wall. |
| Expander.ExpandedCorner | internal/domain/renderer/expander.go:46-106 | A cell with two odd coordinates stays a zero Wall. |
| Expander.OverlayPath | internal/domain/renderer/expander.go:109-122 | The result is the maze with the path marked: Start first, End last, Path between, and the last write to a cell wins. |
| Expander.OverlaidShape | internal/domain/renderer/expander.go:109-122 | Marking changes only types and only on the path. The grid and every transition stay as they were. |
| Expander.OverlaidKeeps | internal/domain/renderer/expander.go:109-122 | Marking keeps the size, the grid, transitions inside the grid, and side-adjacency. |
| Expander.OverlaidRoles | internal/domain/renderer/expander.go:110-118 | On a path without repeats, the first cell is Start, the last is End when there are two cells or more, and every other cell is Path. |
| Expander.PathDrawn | internal/domain/renderer/expander.go:82-118 | Where the three markers are path parts, the passage between two successive cells of a marked walk is Path in the expanded maze. |
| Expander.ConvertToString | internal/domain/renderer/expander.go:125-137 | The text is the picture of the maze: each row's cells through the palette, then a line break, row after row. |
| Expander.LineLayout | internal/domain/renderer/expander.go:129-131 | When every cell prints as one character, character x of row y's line is the palette text of cell (x, y). |
| Expander.PictureSize | internal/domain/renderer/expander.go:125-137 | When every cell prints as one character, a picture of `h` rows has `h * (width + 1)` characters. |
| Expander.PictureAt | internal/domain/renderer/expander.go:128-134 | When every cell prints as one character, position `y * (width + 1) + x` holds the text of cell (x, y), or the line break for x == width. |
| Expander.ExpandPalette | internal/domain/renderer/expander.go:36-43 | Adds texts for Transition, Start, End and Path, with a later write winning on a shared type. Every other entry stays. |
| Expander.MarkerGlyphs | internal/domain/renderer/expander.go:37-40 | Every marker text is a single character. |
| Expander.Renderer.constructor | internal/domain/renderer/expander.go:19-23 | The renderer holds the expanded palette. |
| Expander.Renderer.Render | internal/domain/renderer/expander.go:26-28 | On a maze whose transitions join side-adjacent cells, prints the picture of the expanded maze. |
| Expander.Renderer.RenderPath | internal/domain/renderer/expander.go:31-33 | On such a maze, prints the picture of the expanded maze with the path marked. |

## Left out

- **Generators need a positive size.** `Prim.Generator.Generate` and `Wilson.Generator.Generate` require a height and width of at least 1: the program's random draw with a zero limit panics.
- **Randomness.** The random source is a finite stream of numbers: no cryptographic source, and no distribution of the draws. A generator or a retry loop that would draw forever ends with an error when the stream runs out.
- **Map order.** Go's map iteration order in `GetRandomCoordsFrom` and `addWanderingToMaze` is an unspecified choice.
- **Wilson.Generator.Generate:** states that the maze is a spanning tree read as a set of edges, not that transition lists are free of repeats. The same holds for `Wilson.Generator.Wilson`. The walk record is never cleared after a commit. Cells of an earlier walk can therefore be given a new type and have their links appended a second time, so a transition list may name the same neighbour twice. The edge set and the edge count are unaffected, since the re-appended links are transitions already present.
- **Reusing a generator or solver.** Each is modelled for one call on a fresh object: an empty border or record, an empty distance table and heap, an empty visited set. The program keeps `visited`, `dist` and leftover heap items between calls, and that reuse is not modelled.
- **Dijkstra.Solver.Solve:** requires every cell type to be Wall, LightedPass or Pass, and distances below INF. Negative weights and overflow past INF are not modelled.
- **Dfs.Solver.Solve:** requires transitions to stay inside the grid. It does not state that a cell is entered at most once.
- **Expander.CutEdges:** the cut contents are stated only for grids whose transitions join cells two steps apart. `ExpandMaze`, `Render` and `RenderPath` likewise state their contents only when transitions join side-adjacent cells. For other mazes they state only the size of the result.
- **Expander.ExpandMaze:** requires a height and width of at least 1, because the program cannot allocate a grid of negative size.
- **Aliasing.** The maze and the palette are values. `overlayPath` writes into the caller's maze and `expandPalette` into the caller's palette; that sharing is not modelled. A solver run after rendering a path would see the markers.
- **Marker values.** The values of Start and End and the set of path-part types are taken as unknown constants. Their definitions are not part of this model.
- **The renderer factory and the palette it supplies.** `internal/domain/renderer/renderer.go` is not part of this model.
- **Text encoding.** Texts are sequences of Unicode characters, not UTF-8 bytes.
- **Grid layout.** `maze.go` stores cells as rows of slices while the generators index them by coordinates. Both are modelled as one map from coordinates to cells.
