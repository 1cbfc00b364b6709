/**
 * The W x H grid: which positions lie inside it, how tiles are numbered
 * for the disjoint-set forest, and which candidate edge stands for each
 * wall slot.
 */
module MazeGrid {
  import opened MazeTiles

  /** The range check of the maze builder: 0 <= x < width, 0 <= y < height. */
  predicate InGrid(width: nat, height: nat, p: Position)
  {
    p.x < width && p.y < height && p.x >= 0 && p.y >= 0
  }

  /** A candidate edge of the pool: the North or West wall of a tile of
      the grid (South and East walls are the mirrors of these). */
  predicate IsPoolEdge(width: nat, height: nat, e: TileEdge)
  {
    (e.direction == North || e.direction == West) && InGrid(width, height, e.parentTilePosition)
  }

  /** A pool edge whose neighbour is inside the grid too: a wall between
      two tiles rather than part of the outer boundary. */
  predicate IsInternal(width: nat, height: nat, e: TileEdge)
  {
    IsPoolEdge(width, height, e) && InGrid(width, height, GetNeighboorTileIndex(e))
  }

  /** width * height written as repeated addition: the number of tiles in
      the first w columns of a grid of height h. */
  function Area(w: nat, h: nat): nat
  {
    if w == 0 then 0 else Area(w - 1, h) + h
  }

  /** Area is the product. */
  lemma {:induction false} AreaIsProduct(w: nat, h: nat)
    ensures Area(w, h) == w * h
  {
    if w > 0 {
      AreaIsProduct(w - 1, h);
    }
  }

  lemma {:induction false} AreaMonotone(a: nat, b: nat, h: nat)
    requires a <= b
    ensures Area(a, h) <= Area(b, h)
    decreases b
  {
    if a < b {
      AreaMonotone(a, b - 1, h);
    }
  }

  /** The number of the tile at p: tiles are created column by column, so
      the tile at (x, y) is the (x * height + y)-th. */
  function TileId(width: nat, height: nat, p: Position): (id: nat)
    requires InGrid(width, height, p)
    ensures id < Area(width, height)
  {
    AreaMonotone(p.x + 1, width, height);
    Area(p.x, height) + p.y
  }

  /** Different tiles have different numbers. */
  lemma TileIdInjective(width: nat, height: nat, p: Position, q: Position)
    requires InGrid(width, height, p) && InGrid(width, height, q)
    requires TileId(width, height, p) == TileId(width, height, q)
    ensures p == q
  {
    if p.x < q.x {
      AreaMonotone(p.x + 1, q.x, height);
    } else if q.x < p.x {
      AreaMonotone(q.x + 1, p.x, height);
    }
  }

  /** Every number below the tile count belongs to a tile: the column is
      the last one whose first number is at most id. */
  function TileOfId(width: nat, height: nat, id: nat): (p: Position)
    requires id < Area(width, height)
    ensures InGrid(width, height, p) && TileId(width, height, p) == id
  {
    if id < Area(width - 1, height) then TileOfId(width - 1, height, id)
    else Position(width - 1, id - Area(width - 1, height))
  }

  /** The pool edge that stands for wall slot k of the tile at p. The
      North and West walls are pool edges themselves; a South wall is the
      North wall of the tile below, an East wall the West wall of the tile
      to the right. */
  function SlotEdge(p: Position, k: nat): TileEdge
    requires k < 4
  {
    match SlotDirection(k)
    case North => TileEdge(North, p)
    case South => TileEdge(North, Position(p.x, p.y - 1))
    case West => TileEdge(West, p)
    case East => TileEdge(West, Position(p.x + 1, p.y))
  }

  /** A pool edge stands for exactly two wall slots: its own slot on its
      tile and the mirrored slot on the neighbour. */
  lemma SlotEdgeOwners(e: TileEdge, p: Position, k: nat)
    requires (e.direction == North || e.direction == West) && k < 4
    ensures SlotEdge(p, k) == e <==>
      (p == e.parentTilePosition && k == SlotIndex(e.direction)) ||
      (p == GetNeighboorTileIndex(e) && k == SlotIndex(Opposite(e.direction)))
  {
  }

  /** When the edge of a slot is internal, the slot's own neighbour is in
      the grid: only walls between two tiles can ever be opened. */
  lemma InternalSlotFacesTile(width: nat, height: nat, p: Position, k: nat)
    requires k < 4 && InGrid(width, height, p) && IsInternal(width, height, SlotEdge(p, k))
    ensures InGrid(width, height, GetNeighboorTileIndex(TileEdge(SlotDirection(k), p)))
  {
  }

  /** If the two tiles of every internal edge carry the same mark, all
      tiles carry the mark of tile (0, 0): the grid graph is connected. */
  lemma {:induction false} GridIsConnected(width: nat, height: nat, mark: seq<int>, p: Position)
    requires |mark| == Area(width, height) && InGrid(width, height, p)
    requires forall e {:trigger IsInternal(width, height, e)} :: IsInternal(width, height, e) ==>
      mark[TileId(width, height, e.parentTilePosition)] ==
      mark[TileId(width, height, GetNeighboorTileIndex(e))]
    ensures mark[TileId(width, height, p)] == mark[0]
    decreases p.x, p.y
  {
    if p.y > 0 {
      var below := Position(p.x, p.y - 1);
      assert IsInternal(width, height, TileEdge(North, below));
      GridIsConnected(width, height, mark, below);
    } else if p.x > 0 {
      var left := Position(p.x - 1, p.y);
      assert IsInternal(width, height, TileEdge(West, p));
      GridIsConnected(width, height, mark, left);
    }
  }
}
