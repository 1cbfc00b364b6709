# Randomized Kruskal maze generator

A model of a Unity maze generator. It builds a `W x H` grid of tiles, each
with four walls, and carves a maze into it with randomized Kruskal.

Set-up does three things:

- It checks the dimensions.
- It creates the tiles column by column.
- It stores every tile's North and West wall in a random free slot of a
  list of `2 * W * H` edges.

The builder then takes the edges off the front of that list. Each tile owns
a node of a disjoint-set forest. An edge whose neighbour tile lies inside the
grid, and whose two tiles are not yet connected, is opened:

- the two trees are joined;
- the wall is removed on both sides.

Any other edge is dropped.

The model is split into modules:

- `MazeTiles` (`maze_tile.dfy`): directions, edges as values, and the
  `MazeTile` class with its array of four wall slots. A removed wall is
  `None`.
- `UnionFind` (`union_find.dfy`): the tree nodes. The forest is a specification
  on parent sequences, and the `Forest` class holds a parent array that
  `Connect` updates in place. A ghost depth per node makes `GetRoot` terminate.
- `MazeGrid` (`maze_grid.dfy`): grid membership, tile numbering, and which
  pool edge stands for each wall slot.
- `EdgePool` (`edge_pool.dfy`): the random placement done by `SetupMaze`, as a
  specification. The random numbers are a sequence of picks supplied by the
  caller.
- `MazePaths` (`maze_paths.dfy`): walks through opened walls, and the link
  between them and the trees of the forest.
- `KruskalMaze` (`kruskal_maze.dfy`): the generator class. It holds the edge
  list, the `array2` grid of tiles and the forest, and has the imperative
  set-up and builder loops.

The main result is `KruskalMaze.KuskalMazeAlgorithm.Start`. For a non-zero
width and height (and any picks in range), the finished maze has:

- one tree;
- exactly `W * H - 1` opened walls;
- every two tiles linked by a walk through opened walls;
- every opened wall joining two tiles that the walls opened before it did
  not link, so the opened walls close no loop;
- every wall slot removed exactly when its edge was opened.

`ConsiderEdge` and `BuilderRound` prove the rule behind the loop-free result:
an edge is opened exactly when it is internal and its two tiles are not yet
linked through opened walls.

## Model

| member | source | states |
|---|---|---|
| MazeTiles.SlotIndex | Assets/Scripts/MazeTile.cs:7-14 | The enum values of the directions: the four real directions are slots 0..3 and only DirDefault is 4. |
| MazeTiles.SlotDirection | Assets/Scripts/MazeTile.cs:7-14 | Every slot 0..3 belongs to exactly one real direction. |
| MazeTiles.Offset | Assets/Scripts/MazeTile.cs:62-79 | The step stored for an edge's direction: a unit step for each real direction, and the zero step for DirDefault. |
| MazeTiles.Opposite | Assets/Scripts/MazeTile.cs:127-139 | The mirror direction used by getOppositeEdge. Only DirDefault maps to DirDefault, and the mirror's step is the negated step. |
| MazeTiles.DefaultEdge | Assets/Scripts/MazeTile.cs:53 | The edge the parameterless constructor makes: direction DirDefault at position (0, 0), with the zero step. These are the placeholders SetupMaze's first loop adds. |
| MazeTiles.GetNeighboorTileIndex | Assets/Scripts/MazeTile.cs:55-85 | The neighbour of an edge with a real direction is the tile one unit step away, on the side the direction names. An edge with DirDefault has the zero offset and "neighbours" its own tile. |
| MazeTiles.OppositeIsInvolution | Assets/Scripts/MazeTile.cs:125-141 | The mirror map swaps North/South and West/East. It is an involution with no fixed point on the four real directions. |
| MazeTiles.OppositeEdgeFacesBack | Assets/Scripts/MazeTile.cs:125-141 | The neighbour's mirrored wall faces back to the edge's own tile. |
| MazeTiles.MazeTile.SetTileObject | Assets/Scripts/MazeTile.cs:94-105 | A new tile has a fresh array of four slots, and slot d holds the wall on side d of this tile. |
| MazeTiles.MazeTile.GetEdge | Assets/Scripts/MazeTile.cs:107-123 | Returns slot d for a real direction and nothing for DirDefault. |
| MazeTiles.MazeTile.GetOppositeEdge | Assets/Scripts/MazeTile.cs:125-141 | Returns the slot of the mirrored direction for a real direction and nothing for DirDefault. |
| MazeTiles.MazeTile.RemoveEdge | Assets/Scripts/MazeTile.cs:143-167 | For a real direction, empties exactly that slot and returns true. For DirDefault, changes nothing and returns false. The wall must still be there. |
| UnionFind.Root | Assets/Scripts/MazeTile.cs:23-29 | Following parent links from a node ends, in an acyclic forest, at a node without a parent. |
| UnionFind.RootReachable | Assets/Scripts/MazeTile.cs:23-29 | That root is reached from the node by walking Steps parent links. |
| UnionFind.RootUnique | Assets/Scripts/MazeTile.cs:23-29 | Any parentless node reachable from a node is the root that GetRoot returns. |
| UnionFind.ConnectedIffCommonRoot | Assets/Scripts/MazeTile.cs:35-38 | Two nodes have equal roots if and only if some root is reachable from both. |
| UnionFind.Forest.GetRoot | Assets/Scripts/MazeTile.cs:23-29 | The recursive root lookup on the parent array terminates, returns a parentless node, and agrees with Root. |
| UnionFind.Forest.IsConnected | Assets/Scripts/MazeTile.cs:35-38 | True exactly when a common root is reachable from both nodes. |
| UnionFind.Forest.constructor | Assets/Scripts/MazeTile.cs:104 | n fresh nodes, each a root of its own tree: n components. |
| UnionFind.SingletonsAreForest | Assets/Scripts/MazeTile.cs:104 | Parentless nodes form a forest in which every node is its own root, with one component per node. |
| UnionFind.Link | Assets/Scripts/MazeTile.cs:33 | The parent array after Connect: the child's root now has the given node as parent. LinkKeepsForest and LinkMerges state what this means. |
| UnionFind.LinkKeepsForest | Assets/Scripts/MazeTile.cs:31-34 | Hanging the child's root under a node of another tree keeps the forest acyclic. |
| UnionFind.LinkMerges | Assets/Scripts/MazeTile.cs:31-34 | That link merges the child's component into the other node's component. Every other node keeps its root, and exactly one root disappears. |
| UnionFind.LinkingConnectedNodesMakesCycle | Assets/Scripts/MazeTile.cs:31-34 | Linking two nodes that are already connected gives a parent graph that no depth assignment makes acyclic. So "not connected" is Connect's precondition. |
| UnionFind.Forest.Connect | Assets/Scripts/MazeTile.cs:31-34 | Exactly one parent cell changes: the child's old root now points at the given node, which need not be a root. The forest stays acyclic, the two components merge and the root count drops by one. |
| MazeGrid.InGrid | Assets/Scripts/KuskalMazeAlgorithm.cs:122 | The range check of the builder: 0 <= x < width and 0 <= y < height. |
| MazeGrid.AreaIsProduct | Assets/Scripts/KuskalMazeAlgorithm.cs:59 | The tile count, built up column by column, is width * height. |
| MazeGrid.TileIdInjective | Assets/Scripts/KuskalMazeAlgorithm.cs:80-88 | Numbering tiles in creation order (column by column) gives different tiles different nodes. |
| MazeGrid.TileOfId | Assets/Scripts/KuskalMazeAlgorithm.cs:80-88 | Every node number below the tile count belongs to a tile of the grid. |
| MazeGrid.SlotEdgeOwners | Assets/Scripts/KuskalMazeAlgorithm.cs:90-98 | A North or West edge stands for exactly two wall slots: its own slot and the mirrored slot of the neighbour. |
| MazeGrid.InternalSlotFacesTile | Assets/Scripts/KuskalMazeAlgorithm.cs:122 | When the edge of a slot is internal, that slot's neighbour is inside the grid. |
| MazeGrid.GridIsConnected | Assets/Scripts/KuskalMazeAlgorithm.cs:104-139 | A marking that agrees across every internal edge is constant: the grid graph is connected. |
| EdgePool.GridEdgesAt | Assets/Scripts/KuskalMazeAlgorithm.cs:90-98 | Tile p's North wall is the 2*id(p)-th edge placed, and its West wall the next one. |
| EdgePool.GridEdgesMember | Assets/Scripts/KuskalMazeAlgorithm.cs:90-98 | The edges placed are exactly the North and West walls of the grid's tiles. |
| EdgePool.GridEdgesDistinct | Assets/Scripts/KuskalMazeAlgorithm.cs:90-98 | No edge is placed twice. |
| EdgePool.InitialPlacement | Assets/Scripts/KuskalMazeAlgorithm.cs:73-77 | After the first loop there are 2*W*H placeholder slots and 2*W*H free indices, all in range. |
| EdgePool.InitialConsistent | Assets/Scripts/KuskalMazeAlgorithm.cs:73-77 | Every free slot holds a placeholder, and no free index is listed twice. |
| EdgePool.PlaceOne | Assets/Scripts/KuskalMazeAlgorithm.cs:92-98 | One random placement keeps every free index in range, keeps the list length, and shrinks the free list by exactly one. |
| EdgePool.PlaceOneConsistent | Assets/Scripts/KuskalMazeAlgorithm.cs:92-98 | One placement writes only a free slot and keeps the free list duplicate-free. |
| EdgePool.PlaceOnePermutes | Assets/Scripts/KuskalMazeAlgorithm.cs:92-98 | One placement trades one placeholder for the placed edge. |
| EdgePool.PlacedStep | Assets/Scripts/KuskalMazeAlgorithm.cs:92-98 | The m-th pick indexes the free list, and placing the m-th edge is one PlaceOne step. |
| EdgePool.PlaceFirst | Assets/Scripts/KuskalMazeAlgorithm.cs:80-100 | After n placements, each in the free slot its pick selects, the list keeps its length and the free list has shrunk by n. |
| EdgePool.PlacedAfter | Assets/Scripts/KuskalMazeAlgorithm.cs:80-100 | The state of the placement loop after n of the 2*W*H pool edges, taken in creation order: 2*W*H slots and 2*W*H - n free indices, all in range. |
| EdgePool.Shuffled | Assets/Scripts/KuskalMazeAlgorithm.cs:70-100 | The edge list SetupMaze leaves, which has 2*W*H entries. ShuffledIsPermutation and ShuffledPool say what it holds. |
| EdgePool.PlaceFirstConsistent | Assets/Scripts/KuskalMazeAlgorithm.cs:80-100 | Any number of placements keeps the edge list and free list consistent. |
| EdgePool.PlaceFirstPermutes | Assets/Scripts/KuskalMazeAlgorithm.cs:80-100 | n placements trade n placeholders for the n edges placed. |
| EdgePool.ShuffledIsPermutation | Assets/Scripts/KuskalMazeAlgorithm.cs:70-100 | The finished edge list is a permutation of the North and West walls of all tiles. |
| EdgePool.ShuffledUsesEverySlot | Assets/Scripts/KuskalMazeAlgorithm.cs:70-100 | No placeholder is left: every slot was written exactly once. |
| EdgePool.NoDupCounts | Assets/Scripts/KuskalMazeAlgorithm.cs:70-100 | A list has no duplicates if and only if every element occurs at most once in its multiset. |
| EdgePool.ShuffledPool | Assets/Scripts/KuskalMazeAlgorithm.cs:70-100 | The edge list has 2*W*H entries and no duplicates, and holds an entry exactly when it is a pool edge of the grid. |
| MazePaths.BackwardsIsWalk | Assets/Scripts/KuskalMazeAlgorithm.cs:131-132 | Both sides of an opened wall are removed, so a walk through opened walls can be taken backwards. |
| MazePaths.ThenIsWalk | Assets/Scripts/KuskalMazeAlgorithm.cs:131-132 | Two walks through opened walls that meet can be joined into one. |
| MazePaths.WalkStaysInTree | Assets/Scripts/KuskalMazeAlgorithm.cs:127-132 | If every opened wall lies inside one tree, a walk through opened walls never leaves the tree it starts in. |
| MazePaths.RoutesFromAll | Assets/Scripts/KuskalMazeAlgorithm.cs:104-139 | The tile-by-tile statement of the routes holds if and only if every tile has its route. |
| MazePaths.SpansRooted | Assets/Scripts/KuskalMazeAlgorithm.cs:127-132 | Each tile's route through opened walls ends at the root of the tile's own tree. |
| MazePaths.StaysSpan | Assets/Scripts/MazeTile.cs:104 | With every tile its own tree and nothing opened, the empty walks are the routes. |
| MazePaths.JoinKeepsSpans | Assets/Scripts/KuskalMazeAlgorithm.cs:127-132 | After merging along a newly opened wall, every tile still has a walk through opened walls to its new root: the absorbed tree's routes cross the new opening. |
| MazePaths.LinkedIffSameRoot | Assets/Scripts/KuskalMazeAlgorithm.cs:127 | Two tiles are linked by a walk through opened walls if and only if they are in the same tree. So the IsConnected test is exactly "already reachable in the maze". |
| KruskalMaze.PoolShapeStep | Assets/Scripts/KuskalMazeAlgorithm.cs:109-110 | Popping the front edge leaves a duplicate-free pool of pool edges. The opened edges are distinct internal edges that are no longer in the pool, so an opened edge is never met again. |
| KruskalMaze.SkipKeepsJoined | Assets/Scripts/KuskalMazeAlgorithm.cs:122-127 | Dropping a boundary edge, or an edge inside one tree, keeps every internal edge already taken inside one tree. |
| KruskalMaze.JoinKeepsJoined | Assets/Scripts/KuskalMazeAlgorithm.cs:127-130 | Merging along an accepted edge puts that edge inside one tree and keeps the earlier edges inside theirs. |
| KruskalMaze.OneComponent | Assets/Scripts/KuskalMazeAlgorithm.cs:104-139 | Once every internal edge has been taken, all tiles share the root of tile (0, 0), and it is the only root. |
| KruskalMaze.StartBuilding | Assets/Scripts/KuskalMazeAlgorithm.cs:68-101 | Before building: the pool is the shuffled list, nothing is opened, and there are W*H trees. |
| KruskalMaze.SkipKeepsBuilding | Assets/Scripts/KuskalMazeAlgorithm.cs:122-127 | A dropped edge keeps the builder's bookkeeping: trees plus opened walls make up all tiles, and the routes still hold. |
| KruskalMaze.JoinKeepsBuilding | Assets/Scripts/KuskalMazeAlgorithm.cs:127-132 | An accepted edge keeps the bookkeeping: one tree fewer, one opened wall more, and the routes extended across the new opening. |
| KruskalMaze.JoinsNewStep | Assets/Scripts/KuskalMazeAlgorithm.cs:126-132 | Opening an internal edge whose tiles are not linked yet keeps every opened wall a join of two parts that were not linked before it. |
| KruskalMaze.KuskalMazeAlgorithm.InitializeAndErrorCheck | Assets/Scripts/KuskalMazeAlgorithm.cs:34-66 | Fails if and only if the width or height is 0, and then changes nothing. Otherwise the tile count is W*H, the grid is a fresh W x H array and the edge list is empty. |
| KruskalMaze.KuskalMazeAlgorithm.SetupMaze | Assets/Scripts/KuskalMazeAlgorithm.cs:68-101 | Every tile is created with all walls up and a tree of its own. The edge list is the shuffled pool, and the builder invariant holds. |
| KruskalMaze.KuskalMazeAlgorithm.ClearEdgeList | Assets/Scripts/KuskalMazeAlgorithm.cs:73-77 | The first loop yields 2*W*H placeholders and the free list 0..2*W*H-1. |
| KruskalMaze.KuskalMazeAlgorithm.BuildGrid | Assets/Scripts/KuskalMazeAlgorithm.cs:80-100 | The nested loops create every tile with all walls up and leave the shuffled list in the edge list. |
| KruskalMaze.KuskalMazeAlgorithm.SetupColumn | Assets/Scripts/KuskalMazeAlgorithm.cs:82-99 | The inner loop creates column x's tiles and places their edges. |
| KruskalMaze.KuskalMazeAlgorithm.SetupTile | Assets/Scripts/KuskalMazeAlgorithm.cs:84-98 | One iteration creates one tile and places its two edges. |
| KruskalMaze.KuskalMazeAlgorithm.CreateTile | Assets/Scripts/KuskalMazeAlgorithm.cs:86-88 | The new tile is stored at its grid position with all four walls present and its node numbered by its position. |
| KruskalMaze.KuskalMazeAlgorithm.PlaceTileEdges | Assets/Scripts/KuskalMazeAlgorithm.cs:90-98 | The tile's North wall, then its West wall, each go to the free slot the next pick selects. |
| KruskalMaze.KuskalMazeAlgorithm.PlaceEdge | Assets/Scripts/KuskalMazeAlgorithm.cs:92-94 | The m-th placement: the pick is within the free list, the slot it selects receives the edge, and the free list loses exactly that entry. |
| KruskalMaze.KuskalMazeAlgorithm.StartBuild | Assets/Scripts/KuskalMazeAlgorithm.cs:68-101 | The state set-up leaves satisfies the builder invariant, and every tile is its own root. |
| KruskalMaze.KuskalMazeAlgorithm.Start | Assets/Scripts/KuskalMazeAlgorithm.cs:25-32 | A zero width or height builds nothing and changes nothing. Otherwise the finished maze has one tree and W*H-1 opened walls. Every two tiles are linked through opened walls, each opened wall joined two tiles not linked before it, and the walls match the opened edges. |
| KruskalMaze.KuskalMazeAlgorithm.MazeBuilder | Assets/Scripts/KuskalMazeAlgorithm.cs:104-140 | The loop runs exactly once per edge of the list (2*W*H times after set-up), never takes the null-edge exit, and keeps the builder invariant. It also keeps the opened walls loop-free: each one joined two tiles not linked before it. |
| KruskalMaze.KuskalMazeAlgorithm.BuilderRound | Assets/Scripts/KuskalMazeAlgorithm.cs:106-115 | One iteration pops the front edge, which is never null, and keeps the builder invariant. The edge is added to the opened list if and only if it is internal and its tiles are not yet linked through opened walls; otherwise the opened list is unchanged. Loop-freedom of the opened walls is kept. |
| KruskalMaze.KuskalMazeAlgorithm.SpanningTree | Assets/Scripts/KuskalMazeAlgorithm.cs:104-139 | With the list used up there is one tree, W*H-1 walls are opened, all tiles share tile (0, 0)'s root, and every two tiles are linked through opened walls. |
| KruskalMaze.KuskalMazeAlgorithm.ConsiderEdge | Assets/Scripts/KuskalMazeAlgorithm.cs:117-136 | The edge is opened if and only if its neighbour is inside the grid and the tiles' roots differ. Equivalently, it is opened if and only if it is internal and its tiles are not yet linked through opened walls. A dropped edge leaves forest and walls unchanged. An opened edge changes one parent cell and is appended to the opened list. |
| KruskalMaze.KuskalMazeAlgorithm.JoinTiles | Assets/Scripts/KuskalMazeAlgorithm.cs:127-132 | Opening an edge between two unconnected tiles joins their trees, removes the wall on both sides and keeps the builder invariant. |
| KruskalMaze.KuskalMazeAlgorithm.MergeTrees | Assets/Scripts/KuskalMazeAlgorithm.cs:130 | The neighbour's root now hangs below the tile's node, and the bookkeeping holds with the edge counted as opened. |
| KruskalMaze.KuskalMazeAlgorithm.RemoveWalls | Assets/Scripts/KuskalMazeAlgorithm.cs:131-132 | Both walls are still present when removed. Afterwards exactly the tile's slot and the neighbour's mirrored slot are empty, and every slot is empty exactly when its edge is opened. |

## Left out

- Unity objects (`Transform`, `GameObject`, `Instantiate`, `transform.Find`,
  `SetActive`) are not modelled. A wall is an `Option<TileEdge>` slot, and a
  tile's position is its integer grid position. This is the position at
  which the tile object is instantiated.
- Camera centring and the `m_Tile` null check are left out: they are
  presentation and scene set-up.
- `Vector2` float arithmetic and its `(int)` casts are left out. All the
  values are whole tile indices, so integer positions are used.
- `m_directionToIndex` is not stored. It is always the offset of the edge's
  direction, and zero for an edge made by the parameterless constructor.
- The coroutine (`StartCoroutine`, `WaitForSeconds`) is not modelled.
  `MazeBuilder` is a plain loop that `Start` runs to the end, and the
  `yield break` on a null edge is an early return.
- `Debug.Log` and `Debug.LogError` are left out.
- `Random.Range` is not modelled. The random numbers are a sequence of picks
  supplied by the caller, each within the current free-list size. Their
  distribution is not modelled.
- KruskalMaze.KuskalMazeAlgorithm.InitializeAndErrorCheck: the `uint`
  product `m_MazeWidth * m_MazeHeight` and the `(int)` capacity cast are
  unbounded integers here. Wrap-around for huge dimensions is not modelled,
  and neither is the list's initial capacity.
- Width and height are constants of the generator. In the source they are
  public fields set before `Start` runs.
- A tile's `MazeTreeNode` object is its node number in one parent array. The
  source creates each node with its tile; the model allocates the whole
  forest when the tiles are in place, before any node is used.
- The graph-theory step from the facts `Start` proves to the word "tree" is
  not proved. Those facts are: one component, `W*H - 1` opened walls, every
  two tiles linked, and each opened wall joining tiles not linked before it.
- MazeTiles.MazeTile.RemoveEdge: removing a wall that is already gone throws
  a null-reference exception in the source. That path is not modelled: the
  wall must still be present. Both calls in the builder are proved to meet
  this.
- `Connect` is not modelled on already-connected nodes, which the caller
  never does. `LinkingConnectedNodesMakesCycle` shows what would go wrong.
