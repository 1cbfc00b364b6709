/**
 * The randomized Kruskal maze generator. It checks the dimensions, builds a
 * width x height grid of fully walled tiles, and places every tile's North
 * and West walls in random order in an edge list. It then takes the edges
 * front first. An edge is opened (both sides of the wall removed, the two
 * tiles' trees joined) exactly when its neighbour lies inside the grid and
 * the two tiles are not connected yet.
 */
module KruskalMaze {
  import opened MazeTiles
  import opened MazeGrid
  import opened EdgePool
  import opened UnionFind
  import opened MazePaths

  /** The pool holds distinct pool edges, and the opened edges are distinct
      internal edges no longer in the pool. */
  ghost predicate PoolShape(width: nat, height: nat, pool: seq<Option<TileEdge>>, open: seq<TileEdge>)
  {
    NoDup(pool) &&
    (forall o {:trigger o in pool} :: o in pool ==> o.Some? && IsPoolEdge(width, height, o.value)) &&
    NoDup(open) &&
    (forall e {:trigger e in open} :: e in open ==> IsInternal(width, height, e) && Some(e) !in pool)
  }

  /** Taking the front edge off the pool keeps the pool's shape, whether
      the edge is then opened (when it is internal) or dropped. */
  lemma PoolShapeStep(width: nat, height: nat, edge: TileEdge, pool: seq<Option<TileEdge>>,
                      open: seq<TileEdge>, joined: bool)
    requires PoolShape(width, height, [Some(edge)] + pool, open)
    requires joined ==> IsInternal(width, height, edge)
    ensures IsPoolEdge(width, height, edge) && edge !in open
    ensures PoolShape(width, height, pool, if joined then open + [edge] else open)
  {
    var full := [Some(edge)] + pool;
    assert Some(edge) in full;
    NoDupTail(Some(edge), pool);
    forall o | o in pool ensures o in full { }
    if joined {
      var open' := open + [edge];
      forall i, j | 0 <= i < j < |open'| ensures open'[i] != open'[j] {
        if j == |open| {
          assert open'[i] in open;
        }
      }
      forall e | e in open' ensures IsInternal(width, height, e) && Some(e) !in pool {
        if e != edge {
          assert e in open;
        }
      }
    }
  }

  /** The two tiles of every internal edge outside pool are in the same
      tree of forest (p, d). */
  ghost predicate JoinedAlong(width: nat, height: nat, p: seq<int>, d: seq<nat>, pool: seq<Option<TileEdge>>)
    requires IsForest(p, d) && |p| == Area(width, height)
  {
    forall e {:trigger IsInternal(width, height, e)} :: IsInternal(width, height, e) && Some(e) !in pool ==>
      Root(p, d, TileId(width, height, e.parentTilePosition)) ==
      Root(p, d, TileId(width, height, GetNeighboorTileIndex(e)))
  }

  /** Taking an edge off the pool without joining keeps every tile pair
      joined, provided the edge is on the boundary or its tiles are in one
      tree already. */
  lemma SkipKeepsJoined(width: nat, height: nat, p: seq<int>, d: seq<nat>, edge: TileEdge,
                        pool: seq<Option<TileEdge>>)
    requires IsForest(p, d) && |p| == Area(width, height)
    requires JoinedAlong(width, height, p, d, [Some(edge)] + pool)
    requires IsInternal(width, height, edge) ==>
      Root(p, d, TileId(width, height, edge.parentTilePosition)) ==
      Root(p, d, TileId(width, height, GetNeighboorTileIndex(edge)))
    ensures JoinedAlong(width, height, p, d, pool)
  {
    forall e | IsInternal(width, height, e) && Some(e) !in pool
      ensures Root(p, d, TileId(width, height, e.parentTilePosition)) ==
              Root(p, d, TileId(width, height, GetNeighboorTileIndex(e)))
    {
      if e != edge {
        assert Some(e) !in [Some(edge)] + pool;
      }
    }
  }

  /** Merging the trees of an internal edge's two tiles joins that edge,
      and every pair joined before stays joined. */
  lemma JoinKeepsJoined(width: nat, height: nat, p: seq<int>, d: seq<nat>, q: seq<int>, f: seq<nat>,
                        edge: TileEdge, pool: seq<Option<TileEdge>>)
    requires IsInternal(width, height, edge) && |p| == Area(width, height)
    requires Merged(p, d, q, f, TileId(width, height, edge.parentTilePosition),
                    TileId(width, height, GetNeighboorTileIndex(edge)))
    requires JoinedAlong(width, height, p, d, [Some(edge)] + pool)
    ensures JoinedAlong(width, height, q, f, pool)
  {
    forall e | IsInternal(width, height, e) && Some(e) !in pool
      ensures Root(q, f, TileId(width, height, e.parentTilePosition)) ==
              Root(q, f, TileId(width, height, GetNeighboorTileIndex(e)))
    {
      if e != edge {
        assert Some(e) !in [Some(edge)] + pool;
      }
    }
  }

  /** When the two tiles of every internal edge share a root, the whole
      grid is one tree: every tile has the root of tile (0, 0), and that is
      the forest's only root. */
  lemma OneComponent(width: nat, height: nat, p: seq<int>, d: seq<nat>)
    requires IsForest(p, d) && |p| == Area(width, height) > 0
    requires JoinedAlong(width, height, p, d, [])
    ensures forall q {:trigger TileId(width, height, q)} ::
      InGrid(width, height, q) ==> Root(p, d, TileId(width, height, q)) == Root(p, d, 0)
    ensures Roots(p) == {Root(p, d, 0)}
  {
    var mark := seq(|p|, i requires 0 <= i < |p| => Root(p, d, i));
    forall q | InGrid(width, height, q)
      ensures Root(p, d, TileId(width, height, q)) == Root(p, d, 0)
    {
      GridIsConnected(width, height, mark, q);
    }
    forall r | r in Roots(p) ensures r == Root(p, d, 0) {
      var q := TileOfId(width, height, r);
      assert Root(p, d, r) == r;
      assert Root(p, d, TileId(width, height, q)) == Root(p, d, 0);
    }
  }

  /**
   * The builder's bookkeeping, on plain values, while pool is still to
   * come and open holds the opened edges: the pool and the opened edges
   * have their shape; trees plus opened edges make up all tiles; the two
   * tiles of every internal edge already taken from the pool are in one
   * tree; and routes links every tile to its root through opened walls.
   */
  ghost predicate Building(width: nat, height: nat, pool: seq<Option<TileEdge>>, open: seq<TileEdge>,
                           p: seq<int>, d: seq<nat>, routes: seq<Walk>)
    requires IsForest(p, d) && |p| == Area(width, height)
  {
    PoolShape(width, height, pool, open) &&
    |Roots(p)| + |open| == |p| &&
    JoinedAlong(width, height, p, d, pool) &&
    Spans(width, height, p, open, routes)
  }

  /** Before any edge is taken: the whole shuffled pool to come, nothing
      opened, every tile a tree of its own that it does not leave. */
  lemma StartBuilding(width: nat, height: nat, picks: seq<nat>, p: seq<int>, d: seq<nat>)
    requires PicksFor(width, height, picks)
    requires IsForest(p, d) && |p| == Area(width, height) && |Roots(p)| == |p|
    requires forall i :: 0 <= i < |p| ==> p[i] == NoParent
    ensures Building(width, height, Shuffled(width, height, picks), [], p, d, Stays(|p|))
  {
    ShuffledPool(width, height, picks);
    forall j | 0 <= j < |p| ensures Root(p, d, j) == j {
      assert p[j] == NoParent;
    }
    assert p == Singletons(|p|);
    StaysSpan(width, height, |p|);
  }

  /** Dropping the front edge, on the boundary or inside one tree, keeps
      the bookkeeping. */
  lemma SkipKeepsBuilding(width: nat, height: nat, p: seq<int>, d: seq<nat>, edge: TileEdge,
                          pool: seq<Option<TileEdge>>, open: seq<TileEdge>, routes: seq<Walk>)
    requires IsForest(p, d) && |p| == Area(width, height)
    requires Building(width, height, [Some(edge)] + pool, open, p, d, routes)
    requires IsInternal(width, height, edge) ==>
      Root(p, d, TileId(width, height, edge.parentTilePosition)) ==
      Root(p, d, TileId(width, height, GetNeighboorTileIndex(edge)))
    ensures Building(width, height, pool, open, p, d, routes)
  {
    PoolShapeStep(width, height, edge, pool, open, false);
    SkipKeepsJoined(width, height, p, d, edge, pool);
  }

  /** Opening the front edge, an internal edge between two trees, while
      the trees are merged into one keeps the bookkeeping, with the routes
      of the absorbed tree extended across the new opening. */
  lemma JoinKeepsBuilding(width: nat, height: nat, p: seq<int>, d: seq<nat>, q: seq<int>, f: seq<nat>,
                          edge: TileEdge, pool: seq<Option<TileEdge>>, open: seq<TileEdge>, routes: seq<Walk>)
    requires IsInternal(width, height, edge) && |p| == Area(width, height)
    requires Merged(p, d, q, f, TileId(width, height, edge.parentTilePosition),
                    TileId(width, height, GetNeighboorTileIndex(edge)))
    requires |Roots(q)| == |Roots(p)| - 1
    requires Building(width, height, [Some(edge)] + pool, open, p, d, routes)
    ensures edge !in open && Rooted(width, height, p, d, open, routes)
    ensures Building(width, height, pool, open + [edge], q, f,
                     JoinRoutes(width, height, p, d, open, routes, edge, TileId(width, height, edge.parentTilePosition),
                                TileId(width, height, GetNeighboorTileIndex(edge))))
  {
    PoolShapeStep(width, height, edge, pool, open, true);
    JoinKeepsJoined(width, height, p, d, q, f, edge, pool);
    OpenedInTrees(width, height, p, d, [Some(edge)] + pool, open);
    SpansRooted(width, height, p, d, open, routes);
    JoinKeepsSpans(width, height, p, d, q, f, open, routes, edge, TileId(width, height, edge.parentTilePosition),
                   TileId(width, height, GetNeighboorTileIndex(edge)));
  }

  /** Every opened edge has left the pool, so it lies inside one tree. */
  lemma OpenedInTrees(width: nat, height: nat, p: seq<int>, d: seq<nat>, pool: seq<Option<TileEdge>>,
                      open: seq<TileEdge>)
    requires IsForest(p, d) && |p| == Area(width, height)
    requires PoolShape(width, height, pool, open) && JoinedAlong(width, height, p, d, pool)
    ensures InTrees(width, height, p, d, open)
  {
  }

  /** Every opened edge, when it was opened, joined two tiles that the
      edges opened before it did not link: the opened walls never close a
      loop. */
  ghost predicate EachJoinsNew(width: nat, height: nat, open: seq<TileEdge>)
  {
    forall i :: 0 <= i < |open| ==>
      IsInternal(width, height, open[i]) &&
      !Linked(width, height, open[..i], TileId(width, height, open[i].parentTilePosition),
              TileId(width, height, GetNeighboorTileIndex(open[i])))
  }

  /** Opening an internal edge whose tiles are not linked yet keeps the
      opened walls loop-free. */
  lemma JoinsNewStep(width: nat, height: nat, open: seq<TileEdge>, e: TileEdge)
    requires EachJoinsNew(width, height, open) && IsInternal(width, height, e)
    requires !Linked(width, height, open, TileId(width, height, e.parentTilePosition),
                     TileId(width, height, GetNeighboorTileIndex(e)))
    ensures EachJoinsNew(width, height, open + [e])
  {
    var more := open + [e];
    forall i | 0 <= i < |more|
      ensures IsInternal(width, height, more[i]) &&
        !Linked(width, height, more[..i], TileId(width, height, more[i].parentTilePosition),
                TileId(width, height, GetNeighboorTileIndex(more[i])))
    {
      if i < |open| {
        assert more[..i] == open[..i] && more[i] == open[i];
      } else {
        assert more[..i] == open;
      }
    }
  }

  class KuskalMazeAlgorithm {
    const mazeWidth: nat
    const mazeHeight: nat
    var nrOfMazeTiles: nat
    /** The edges still to be processed, front first. */
    var mazeEdges: seq<Option<TileEdge>>
    var grid: array2<MazeTile?>
    /** The tiles' tree nodes; the node of the tile at p is TileId(p). */
    var forest: Forest

    /** The edges the builder has opened so far, in order. */
    ghost var accepted: seq<TileEdge>
    /** The tiles of the grid. */
    ghost var tiles: set<MazeTile>
    /** The wall array of each tile, mapped to the tile's position. */
    ghost var cellOf: map<array<Option<TileEdge>>, Position>
    /** For each tree node, a walk through opened walls to its root. */
    ghost var routes: seq<Walk>

    /** A generator for a width x height maze; nothing is built yet. */
    constructor (width: nat, height: nat)
      ensures mazeWidth == width && mazeHeight == height
    {
      mazeWidth, mazeHeight := width, height;
      nrOfMazeTiles := 0;
      mazeEdges := [];
      grid := new MazeTile?[0, 0];
      forest := new Forest(0);
      accepted, tiles, cellOf, routes := [], {}, map[], [];
    }

    /** The state InitializeAndErrorCheck leaves on success. */
    ghost predicate Initialized()
      reads this
    {
      grid.Length0 == mazeWidth && grid.Length1 == mazeHeight &&
      nrOfMazeTiles == Area(mazeWidth, mazeHeight) && mazeEdges == [] &&
      tiles == {} && cellOf == map[]
    }

    /** The first n tiles (in creation order, see TileId) are in place: each
        has four wall slots of its own and the tree node numbered by its
        position. */
    ghost predicate TilesIn(n: nat)
      reads this`grid, this`tiles, this`cellOf, grid, tiles
    {
      grid.Length0 == mazeWidth && grid.Length1 == mazeHeight &&
      forall x: int, y: int {:trigger grid[x, y]} ::
        InGrid(mazeWidth, mazeHeight, Position(x, y)) && TileId(mazeWidth, mazeHeight, Position(x, y)) < n ==>
        grid[x, y] != null && grid[x, y] in tiles && grid[x, y].edges.Length == 4 &&
        grid[x, y].edges in cellOf && cellOf[grid[x, y].edges] == Position(x, y) &&
        grid[x, y].treeNode == TileId(mazeWidth, mazeHeight, Position(x, y))
    }

    /** Every wall of the first n tiles is present. */
    ghost predicate WallsUp(n: nat)
      reads this`grid, this`tiles, this`cellOf, grid, tiles, cellOf.Keys
      requires TilesIn(n)
    {
      forall x: int, y: int, k {:trigger grid[x, y].edges[k]} ::
        InGrid(mazeWidth, mazeHeight, Position(x, y)) && TileId(mazeWidth, mazeHeight, Position(x, y)) < n && 0 <= k < 4 ==>
        grid[x, y].edges[k] == Some(TileEdge(SlotDirection(k), Position(x, y)))
    }

    /** Object invariant: every tile is in place and there is one tree node
        per tile. */
    ghost predicate Valid()
      reads this`nrOfMazeTiles, this`grid, this`tiles, this`cellOf,
        this`forest, grid, tiles, forest, forest.parent
    {
      nrOfMazeTiles == Area(mazeWidth, mazeHeight) &&
      TilesIn(nrOfMazeTiles) &&
      forest.Valid() && forest.parent.Length == nrOfMazeTiles
    }

    /** The root of the tree of the tile at p. */
    function RootOf(p: Position): nat
      reads this`nrOfMazeTiles, this`forest, forest, forest.parent
      requires nrOfMazeTiles == Area(mazeWidth, mazeHeight)
      requires forest.Valid() && forest.parent.Length == nrOfMazeTiles
      requires InGrid(mazeWidth, mazeHeight, p)
    {
      forest.GetRoot(TileId(mazeWidth, mazeHeight, p))
    }

    /** A wall slot is removed exactly when the edge it stands for is among
        the opened ones; otherwise it holds its initial edge. */
    ghost predicate WallsMatch(open: seq<TileEdge>)
      reads this`nrOfMazeTiles, this`grid, this`tiles, this`cellOf,
        grid, tiles, cellOf.Keys
      requires nrOfMazeTiles == Area(mazeWidth, mazeHeight) && TilesIn(nrOfMazeTiles)
    {
      forall x: int, y: int, k {:trigger grid[x, y].edges[k]} ::
        InGrid(mazeWidth, mazeHeight, Position(x, y)) && 0 <= k < 4 ==>
        grid[x, y].edges[k] ==
          if SlotEdge(Position(x, y), k) in open then None
          else Some(TileEdge(SlotDirection(k), Position(x, y)))
    }

    /** What holds while the builder runs with pool still to come: a wall
        is removed exactly when its edge was opened, and the bookkeeping of
        Building holds for the forest and the routes. */
    ghost predicate BuildInvariant(pool: seq<Option<TileEdge>>)
      reads this`nrOfMazeTiles, this`grid, this`tiles, this`cellOf,
        this`forest, this`accepted, this`routes, grid, tiles, cellOf.Keys, forest, forest.parent
      requires Valid()
    {
      WallsMatch(accepted) &&
      Building(mazeWidth, mazeHeight, pool, accepted, forest.parent[..], forest.depth, routes)
    }

    /** Check the dimensions and size the maze. A zero width or height is
        refused, and then nothing changes. */
    method InitializeAndErrorCheck() returns (ok: bool)
      modifies this
      ensures ok <==> mazeWidth != 0 && mazeHeight != 0
      ensures ok ==> Initialized() && fresh(grid) && nrOfMazeTiles == mazeWidth * mazeHeight
      ensures !ok ==> unchanged(this)
    {
      if mazeWidth == 0 || mazeHeight == 0 {
        return false;
      }
      nrOfMazeTiles := mazeWidth * mazeHeight;
      AreaIsProduct(mazeWidth, mazeHeight);
      mazeEdges := [];
      grid := new MazeTile?[mazeWidth, mazeHeight];
      tiles, cellOf := {}, map[];
      ok := true;
    }

    /** Build the grid of walled tiles and store the North and West walls
        of every tile in the edge list, each in the free slot that the next
        pick selects; then give every tile a tree node of its own. */
    method SetupMaze(picks: seq<nat>)
      requires Initialized() && PicksFor(mazeWidth, mazeHeight, picks)
      modifies this`mazeEdges, this`forest, this`accepted, this`routes, this`tiles, this`cellOf, grid
      ensures Valid() && BuildInvariant(mazeEdges) && WallsMatch([])
      ensures mazeEdges == Shuffled(mazeWidth, mazeHeight, picks)
      ensures accepted == [] && |Roots(forest.parent[..])| == nrOfMazeTiles
      ensures forall p {:trigger RootOf(p)} :: InGrid(mazeWidth, mazeHeight, p) ==> RootOf(p) == TileId(mazeWidth, mazeHeight, p)
      ensures fresh(forest) && fresh(forest.parent)
      ensures forall a :: a in cellOf ==> fresh(a)
    {
      var availableTileIndicies := ClearEdgeList();
      BuildGrid(picks, availableTileIndicies);
      forest := new Forest(nrOfMazeTiles);
      accepted, routes := [], Stays(nrOfMazeTiles);
      StartBuild(picks);
    }

    /** The first loop of SetupMaze: an edge list of 2 * nrOfMazeTiles
        placeholder edges, and every slot number free. */
    method ClearEdgeList() returns (availableTileIndicies: seq<nat>)
      requires mazeEdges == []
      modifies this`mazeEdges
      ensures Placement(mazeEdges, availableTileIndicies) == InitialPlacement(2 * nrOfMazeTiles)
    {
      var count := nrOfMazeTiles * 2;
      availableTileIndicies := [];
      var i := 0;
      while i < count
        invariant 0 <= i <= count
        invariant availableTileIndicies == seq(i, j => j)
        invariant mazeEdges == Placeholders(i)
      {
        availableTileIndicies := availableTileIndicies + [i];
        mazeEdges := mazeEdges + [Some(DefaultEdge)];
        i := i + 1;
      }
    }

    /** The nested loops of SetupMaze: the tiles column by column. */
    method BuildGrid(picks: seq<nat>, available: seq<nat>)
      requires grid.Length0 == mazeWidth && grid.Length1 == mazeHeight
      requires nrOfMazeTiles == Area(mazeWidth, mazeHeight) && PicksFor(mazeWidth, mazeHeight, picks)
      requires Placement(mazeEdges, available) == InitialPlacement(2 * nrOfMazeTiles)
      requires tiles == {} && cellOf == map[]
      modifies this`mazeEdges, this`tiles, this`cellOf, grid
      ensures TilesIn(nrOfMazeTiles) && WallsUp(nrOfMazeTiles)
      ensures mazeEdges == Shuffled(mazeWidth, mazeHeight, picks)
      ensures forall a :: a in cellOf ==> fresh(a)
    {
      var availableTileIndicies := available;
      var width := 0;
      ghost var done := 0;
      while width < mazeWidth
        invariant 0 <= width <= mazeWidth && done == Area(width, mazeHeight) <= nrOfMazeTiles
        invariant Placement(mazeEdges, availableTileIndicies) == PlacedAfter(mazeWidth, mazeHeight, picks, 2 * done)
        invariant TilesIn(done) && WallsUp(done)
        invariant forall a :: a in cellOf ==> fresh(a)
      {
        AreaMonotone(width + 1, mazeWidth, mazeHeight);
        availableTileIndicies := SetupColumn(width, picks, availableTileIndicies);
        width, done := width + 1, done + mazeHeight;
      }
    }

    /** The inner loop of SetupMaze: the tiles of column x, bottom to top. */
    method SetupColumn(x: nat, picks: seq<nat>, available: seq<nat>) returns (rest: seq<nat>)
      requires x < mazeWidth && PicksFor(mazeWidth, mazeHeight, picks)
      requires Area(x + 1, mazeHeight) <= Area(mazeWidth, mazeHeight)
      requires TilesIn(Area(x, mazeHeight)) && WallsUp(Area(x, mazeHeight))
      requires Placement(mazeEdges, available) == PlacedAfter(mazeWidth, mazeHeight, picks, 2 * Area(x, mazeHeight))
      modifies this`mazeEdges, this`tiles, this`cellOf, grid
      ensures TilesIn(Area(x + 1, mazeHeight)) && WallsUp(Area(x + 1, mazeHeight))
      ensures Placement(mazeEdges, rest) == PlacedAfter(mazeWidth, mazeHeight, picks, 2 * Area(x + 1, mazeHeight))
      ensures forall a :: a in cellOf ==> a in old(cellOf) || fresh(a)
    {
      rest := available;
      var height := 0;
      var n := Area(x, mazeHeight);
      while height < mazeHeight
        invariant 0 <= height <= mazeHeight && n == Area(x, mazeHeight) + height
        invariant Placement(mazeEdges, rest) == PlacedAfter(mazeWidth, mazeHeight, picks, 2 * n)
        invariant TilesIn(n) && WallsUp(n)
        invariant forall a :: a in cellOf ==> a in old(cellOf) || fresh(a)
      {
        rest := SetupTile(x, height, n, picks, rest);
        height, n := height + 1, n + 1;
      }
      assert n == Area(x + 1, mazeHeight);
    }

    /** One pass of the inner loop of SetupMaze: create the tile at (x, y),
        the n-th tile, and place its North and West walls. */
    method SetupTile(x: nat, y: nat, n: nat, picks: seq<nat>, available: seq<nat>) returns (rest: seq<nat>)
      requires InGrid(mazeWidth, mazeHeight, Position(x, y)) && PicksFor(mazeWidth, mazeHeight, picks)
      requires n == TileId(mazeWidth, mazeHeight, Position(x, y))
      requires TilesIn(n) && WallsUp(n)
      requires Placement(mazeEdges, available) == PlacedAfter(mazeWidth, mazeHeight, picks, 2 * n)
      modifies this`mazeEdges, this`tiles, this`cellOf, grid
      ensures TilesIn(n + 1) && WallsUp(n + 1)
      ensures Placement(mazeEdges, rest) == PlacedAfter(mazeWidth, mazeHeight, picks, 2 * (n + 1))
      ensures forall a :: a in cellOf ==> a in old(cellOf) || fresh(a)
    {
      var tile := CreateTile(x, y, n);
      rest := PlaceTileEdges(tile, Position(x, y), n, picks, available);
    }

    /** The state SetupMaze leaves: all tiles in place with their walls up,
        the shuffled pool in the edge list, one tree per tile and nothing
        opened yet. */
    lemma StartBuild(picks: seq<nat>)
      requires PicksFor(mazeWidth, mazeHeight, picks)
      requires nrOfMazeTiles == Area(mazeWidth, mazeHeight)
      requires TilesIn(nrOfMazeTiles) && WallsUp(nrOfMazeTiles)
      requires mazeEdges == Shuffled(mazeWidth, mazeHeight, picks) && accepted == []
      requires routes == Stays(nrOfMazeTiles)
      requires forest.Valid() && forest.parent.Length == nrOfMazeTiles
      requires forall i :: 0 <= i < nrOfMazeTiles ==> forest.parent[i] == NoParent
      requires |Roots(forest.parent[..])| == nrOfMazeTiles
      ensures Valid() && BuildInvariant(mazeEdges) && WallsMatch([])
      ensures forall p {:trigger RootOf(p)} :: InGrid(mazeWidth, mazeHeight, p) ==> RootOf(p) == TileId(mazeWidth, mazeHeight, p)
    {
      forall p | InGrid(mazeWidth, mazeHeight, p)
        ensures RootOf(p) == TileId(mazeWidth, mazeHeight, p)
      {
        assert forest.parent[TileId(mazeWidth, mazeHeight, p)] == NoParent;
      }
      StartBuilding(mazeWidth, mazeHeight, picks, forest.parent[..], forest.depth);
    }

    /** Create the tile at (x, y), the n-th tile, with all walls up, and
        store it in the grid. */
    method CreateTile(x: nat, y: nat, n: nat) returns (tile: MazeTile)
      requires InGrid(mazeWidth, mazeHeight, Position(x, y))
      requires n == TileId(mazeWidth, mazeHeight, Position(x, y))
      requires TilesIn(n) && WallsUp(n)
      modifies this`tiles, this`cellOf, grid
      ensures TilesIn(n + 1) && WallsUp(n + 1)
      ensures tile == grid[x, y] && tile.edges.Length == 4
      ensures forall k :: 0 <= k < 4 ==> tile.edges[k] == Some(TileEdge(SlotDirection(k), Position(x, y)))
      ensures forall a :: a in cellOf ==> a in old(cellOf) || fresh(a)
    {
      var position := Position(x, y);
      tile := new MazeTile.SetTileObject(position, n);
      grid[x, y] := tile;
      tiles, cellOf := tiles + {tile}, cellOf[tile.edges := position];
      forall x': int, y': int | InGrid(mazeWidth, mazeHeight, Position(x', y')) &&
        TileId(mazeWidth, mazeHeight, Position(x', y')) == n
        ensures x' == x && y' == y
      {
        TileIdInjective(mazeWidth, mazeHeight, Position(x', y'), position);
      }
    }

    /** Place the North, then the West wall of the tile at p, the n-th
        tile, each in the free slot the next pick selects. */
    method PlaceTileEdges(tile: MazeTile, p: Position, n: nat, picks: seq<nat>, available: seq<nat>)
      returns (rest: seq<nat>)
      requires InGrid(mazeWidth, mazeHeight, p) && PicksFor(mazeWidth, mazeHeight, picks)
      requires n == TileId(mazeWidth, mazeHeight, p)
      requires tile.edges.Length == 4
      requires tile.edges[SlotIndex(North)] == Some(TileEdge(North, p))
      requires tile.edges[SlotIndex(West)] == Some(TileEdge(West, p))
      requires Placement(mazeEdges, available) == PlacedAfter(mazeWidth, mazeHeight, picks, 2 * n)
      modifies this`mazeEdges
      ensures Placement(mazeEdges, rest) == PlacedAfter(mazeWidth, mazeHeight, picks, 2 * (n + 1))
    {
      GridEdgesAt(mazeWidth, mazeHeight, p);
      var north := tile.GetEdge(North);
      rest := PlaceEdge(north, 2 * n, picks, available);
      var west := tile.GetEdge(West);
      rest := PlaceEdge(west, 2 * n + 1, picks, rest);
    }

    /** Store pool edge number m in the free slot that pick m selects, and
        take that slot off the free list. */
    method PlaceEdge(e: Option<TileEdge>, m: nat, picks: seq<nat>, available: seq<nat>) returns (rest: seq<nat>)
      requires PicksFor(mazeWidth, mazeHeight, picks) && m < 2 * Area(mazeWidth, mazeHeight)
      requires e == GridEdges(mazeWidth, mazeHeight)[m]
      requires Placement(mazeEdges, available) == PlacedAfter(mazeWidth, mazeHeight, picks, m)
      modifies this`mazeEdges
      ensures Placement(mazeEdges, rest) == PlacedAfter(mazeWidth, mazeHeight, picks, m + 1)
    {
      PlacedStep(mazeWidth, mazeHeight, picks, m);
      var randomIndex := picks[m];
      mazeEdges := mazeEdges[available[randomIndex] := e];
      rest := available[..randomIndex] + available[randomIndex + 1..];
    }

    /** Start: check and size the maze; when that succeeds, set it up and
        run the builder to the end. */
    method Start(picks: seq<nat>) returns (built: bool)
      requires PicksFor(mazeWidth, mazeHeight, picks)
      modifies this
      ensures built <==> mazeWidth != 0 && mazeHeight != 0
      ensures !built ==> unchanged(this)
      ensures built ==> nrOfMazeTiles == mazeWidth * mazeHeight && Valid() && BuildInvariant([])
      ensures built ==> mazeEdges == [] && |Roots(forest.parent[..])| == 1 && |accepted| == nrOfMazeTiles - 1
      ensures built ==> forall p {:trigger RootOf(p)} :: InGrid(mazeWidth, mazeHeight, p) ==> RootOf(p) == RootOf(Position(0, 0))
      ensures built ==>
        forall p, q :: InGrid(mazeWidth, mazeHeight, p) && InGrid(mazeWidth, mazeHeight, q) ==>
          Linked(mazeWidth, mazeHeight, accepted, TileId(mazeWidth, mazeHeight, p), TileId(mazeWidth, mazeHeight, q))
      ensures built ==> EachJoinsNew(mazeWidth, mazeHeight, accepted)
    {
      built := InitializeAndErrorCheck();
      if built {
        SetupMaze(picks);
        assert EachJoinsNew(mazeWidth, mazeHeight, accepted);
        var finished, iterations := MazeBuilder();
        SpanningTree();
      }
    }

    /** The maze builder: take edges off the front of the edge list until
        it is empty, each edge once. A missing edge would end the builder
        early, but the list only holds pool edges. What the finished state
        means is SpanningTree. */
    method MazeBuilder() returns (finished: bool, ghost iterations: nat)
      requires Valid() && BuildInvariant(mazeEdges)
      modifies this`mazeEdges, this`accepted, this`routes, forest`depth, forest.parent, cellOf.Keys
      ensures finished && mazeEdges == [] && iterations == old(|mazeEdges|)
      ensures Valid() && BuildInvariant([]) && old(accepted) <= accepted
      ensures EachJoinsNew(mazeWidth, mazeHeight, old(accepted)) ==> EachJoinsNew(mazeWidth, mazeHeight, accepted)
    {
      iterations := 0;
      while |mazeEdges| > 0
        invariant Valid() && BuildInvariant(mazeEdges)
        invariant iterations + |mazeEdges| == old(|mazeEdges|)
        invariant old(accepted) <= accepted
        invariant EachJoinsNew(mazeWidth, mazeHeight, old(accepted)) ==> EachJoinsNew(mazeWidth, mazeHeight, accepted)
        decreases |mazeEdges|
      {
        var edge := BuilderRound();
        if edge.None? {
          assert false;
          return false, iterations;
        }
        iterations := iterations + 1;
      }
      finished := true;
    }

    /** One pass of the builder's loop: take the front edge off the edge
        list and, when it is an edge, consider it. The list only holds
        edges, so the builder never stops early. */
    method BuilderRound() returns (edge: Option<TileEdge>)
      requires Valid() && BuildInvariant(mazeEdges) && |mazeEdges| > 0
      modifies this`mazeEdges, this`accepted, this`routes, forest`depth, forest.parent, cellOf.Keys
      ensures edge.Some? && old(mazeEdges) == [edge] + mazeEdges
      ensures Valid() && BuildInvariant(mazeEdges) && old(accepted) <= accepted
      ensures accepted ==
        if IsInternal(mazeWidth, mazeHeight, edge.value) &&
           !Linked(mazeWidth, mazeHeight, old(accepted), TileId(mazeWidth, mazeHeight, edge.value.parentTilePosition),
                   TileId(mazeWidth, mazeHeight, GetNeighboorTileIndex(edge.value)))
        then old(accepted) + [edge.value] else old(accepted)
      ensures EachJoinsNew(mazeWidth, mazeHeight, old(accepted)) ==> EachJoinsNew(mazeWidth, mazeHeight, accepted)
    {
      ghost var before := accepted;
      edge := mazeEdges[0];
      assert mazeEdges == [edge] + mazeEdges[1..];
      assert edge in mazeEdges;
      mazeEdges := mazeEdges[1..];
      if edge.Some? {
        var joined := ConsiderEdge(edge.value);
        if joined && EachJoinsNew(mazeWidth, mazeHeight, before) {
          JoinsNewStep(mazeWidth, mazeHeight, before, edge.value);
        }
      }
    }

    /** Once the pool is used up, the grid is one tree with
        nrOfMazeTiles - 1 opened walls, and every two tiles are linked by
        a walk through opened walls: the maze is a spanning tree of the
        grid. */
    lemma SpanningTree()
      requires Valid() && BuildInvariant([])
      ensures nrOfMazeTiles > 0 ==> |Roots(forest.parent[..])| == 1 && |accepted| == nrOfMazeTiles - 1
      ensures nrOfMazeTiles > 0 ==>
        forall p {:trigger RootOf(p)} :: InGrid(mazeWidth, mazeHeight, p) ==> RootOf(p) == RootOf(Position(0, 0))
      ensures nrOfMazeTiles > 0 ==>
        forall p, q :: InGrid(mazeWidth, mazeHeight, p) && InGrid(mazeWidth, mazeHeight, q) ==>
          Linked(mazeWidth, mazeHeight, accepted, TileId(mazeWidth, mazeHeight, p), TileId(mazeWidth, mazeHeight, q))
    {
      if nrOfMazeTiles > 0 {
        OneComponent(mazeWidth, mazeHeight, forest.parent[..], forest.depth);
        OpenedInTrees(mazeWidth, mazeHeight, forest.parent[..], forest.depth, [], accepted);
        forall p, q | InGrid(mazeWidth, mazeHeight, p) && InGrid(mazeWidth, mazeHeight, q)
          ensures Linked(mazeWidth, mazeHeight, accepted, TileId(mazeWidth, mazeHeight, p), TileId(mazeWidth, mazeHeight, q))
        {
          LinkedIffSameRoot(mazeWidth, mazeHeight, forest.parent[..], forest.depth, accepted, routes,
                            TileId(mazeWidth, mazeHeight, p), TileId(mazeWidth, mazeHeight, q));
        }
      }
    }

    /** One round of the maze builder for an edge taken off the front of
        the edge list: the wall is opened exactly when the neighbour lies
        inside the grid and the two tiles are not connected yet. */
    method ConsiderEdge(edge: TileEdge) returns (joined: bool)
      requires Valid() && BuildInvariant([Some(edge)] + mazeEdges)
      modifies this`accepted, this`routes, forest`depth, forest.parent, cellOf.Keys
      ensures Valid() && BuildInvariant(mazeEdges)
      ensures joined <==> (IsInternal(mazeWidth, mazeHeight, edge) &&
        old(RootOf(edge.parentTilePosition)) != old(RootOf(GetNeighboorTileIndex(edge))))
      ensures joined <==> (IsInternal(mazeWidth, mazeHeight, edge) &&
        !Linked(mazeWidth, mazeHeight, old(accepted), TileId(mazeWidth, mazeHeight, edge.parentTilePosition),
                TileId(mazeWidth, mazeHeight, GetNeighboorTileIndex(edge))))
      ensures accepted == if joined then old(accepted) + [edge] else old(accepted)
      ensures joined ==> (forest.parent[..] ==
        old(forest.parent[..])[old(RootOf(GetNeighboorTileIndex(edge))) := TileId(mazeWidth, mazeHeight, edge.parentTilePosition)])
      ensures !joined ==> forest.parent[..] == old(forest.parent[..])
    {
      PoolShapeStep(mazeWidth, mazeHeight, edge, mazeEdges, accepted, false);
      if IsInternal(mazeWidth, mazeHeight, edge) {
        OpenedInTrees(mazeWidth, mazeHeight, forest.parent[..], forest.depth, [Some(edge)] + mazeEdges, accepted);
        LinkedIffSameRoot(mazeWidth, mazeHeight, forest.parent[..], forest.depth, accepted, routes,
                          TileId(mazeWidth, mazeHeight, edge.parentTilePosition),
                          TileId(mazeWidth, mazeHeight, GetNeighboorTileIndex(edge)));
      }
      var position := edge.parentTilePosition;
      var mazeTile := grid[position.x, position.y];
      var neighborTileIndex := GetNeighboorTileIndex(edge);
      joined := false;
      if neighborTileIndex.x < mazeWidth && neighborTileIndex.y < mazeHeight &&
         neighborTileIndex.x >= 0 && neighborTileIndex.y >= 0
      {
        var neighborTile := grid[neighborTileIndex.x, neighborTileIndex.y];
        if !forest.IsConnected(mazeTile.treeNode, neighborTile.treeNode) {
          JoinTiles(edge, mazeTile, neighborTile);
          joined := true;
        }
      }
      if !joined {
        SkipKeepsBuilding(mazeWidth, mazeHeight, forest.parent[..], forest.depth, edge, mazeEdges, accepted, routes);
      }
    }

    /** Open the wall of an internal edge whose two tiles are not connected
        yet: join their trees, then remove the wall on both sides. */
    method JoinTiles(edge: TileEdge, mazeTile: MazeTile, neighborTile: MazeTile)
      requires Valid() && BuildInvariant([Some(edge)] + mazeEdges) && IsInternal(mazeWidth, mazeHeight, edge)
      requires mazeTile == grid[edge.parentTilePosition.x, edge.parentTilePosition.y]
      requires neighborTile == grid[GetNeighboorTileIndex(edge).x, GetNeighboorTileIndex(edge).y]
      requires !forest.IsConnected(mazeTile.treeNode, neighborTile.treeNode)
      modifies this`accepted, this`routes, forest`depth, forest.parent, mazeTile.edges, neighborTile.edges
      ensures Valid() && BuildInvariant(mazeEdges)
      ensures accepted == old(accepted) + [edge]
      ensures forest.parent[..] ==
        old(forest.parent[..])[old(RootOf(GetNeighboorTileIndex(edge))) := TileId(mazeWidth, mazeHeight, edge.parentTilePosition)]
    {
      MergeTrees(edge, mazeTile.treeNode, neighborTile.treeNode);
      RemoveWalls(edge, mazeTile, neighborTile);
    }

    /** Connect the trees of tiles a and c, the two tiles of an internal
        edge, and extend the routes of c's tree across that edge. */
    method MergeTrees(edge: TileEdge, a: nat, c: nat)
      requires Valid() && BuildInvariant([Some(edge)] + mazeEdges) && IsInternal(mazeWidth, mazeHeight, edge)
      requires a == TileId(mazeWidth, mazeHeight, edge.parentTilePosition)
      requires c == TileId(mazeWidth, mazeHeight, GetNeighboorTileIndex(edge))
      requires !forest.IsConnected(a, c)
      modifies this`routes, forest`depth, forest.parent
      ensures Valid() && edge !in accepted
      ensures Building(mazeWidth, mazeHeight, mazeEdges, accepted + [edge], forest.parent[..], forest.depth, routes)
      ensures forest.parent[..] == old(forest.parent[..])[old(RootOf(GetNeighboorTileIndex(edge))) := a]
    {
      ghost var p, d, r := forest.parent[..], forest.depth, routes;
      forest.Connect(a, c);
      JoinKeepsBuilding(mazeWidth, mazeHeight, p, d, forest.parent[..], forest.depth, edge, mazeEdges, accepted, r);
      routes := JoinRoutes(mazeWidth, mazeHeight, p, d, accepted, r, edge, a, c);
    }

    /** Remove the wall of edge on both sides, on the tile it belongs to
        and on the neighbour, and record the edge as opened. */
    method RemoveWalls(edge: TileEdge, mazeTile: MazeTile, neighborTile: MazeTile)
      requires nrOfMazeTiles == Area(mazeWidth, mazeHeight) && TilesIn(nrOfMazeTiles)
      requires WallsMatch(accepted) && IsInternal(mazeWidth, mazeHeight, edge) && edge !in accepted
      requires mazeTile == grid[edge.parentTilePosition.x, edge.parentTilePosition.y]
      requires neighborTile == grid[GetNeighboorTileIndex(edge).x, GetNeighboorTileIndex(edge).y]
      modifies this`accepted, mazeTile.edges, neighborTile.edges
      ensures TilesIn(nrOfMazeTiles) && WallsMatch(accepted)
      ensures accepted == old(accepted) + [edge]
    {
      ghost var p, nb := edge.parentTilePosition, GetNeighboorTileIndex(edge);
      var k0 := SlotIndex(edge.direction);
      var k1 := SlotIndex(Opposite(edge.direction));
      assert SlotEdge(p, k0) == edge && SlotEdge(nb, k1) == edge;
      assert mazeTile.edges[k0] == Some(edge);
      assert neighborTile.edges[k1] == Some(TileEdge(Opposite(edge.direction), nb));
      assert mazeTile.edges != neighborTile.edges;
      var removed := mazeTile.RemoveEdge(edge);
      var opposite := neighborTile.GetOppositeEdge(edge.direction);
      removed := neighborTile.RemoveEdge(opposite.value);
      accepted := accepted + [edge];
      forall x: int, y: int, k | InGrid(mazeWidth, mazeHeight, Position(x, y)) && 0 <= k < 4
        ensures grid[x, y].edges[k] ==
          if SlotEdge(Position(x, y), k) in accepted then None
          else Some(TileEdge(SlotDirection(k), Position(x, y)))
      {
        var q := Position(x, y);
        SlotEdgeOwners(edge, q, k);
        assert SlotEdge(q, k) in accepted <==> SlotEdge(q, k) in old(accepted) || SlotEdge(q, k) == edge;
        if q != p && q != nb {
          assert grid[x, y].edges != mazeTile.edges && grid[x, y].edges != neighborTile.edges;
        }
      }
    }
  }
}
