/**
 * Tiles and their walls. A tile has four wall slots (north, south, west,
 * east). A wall is either present, holding the TileEdge that stands for
 * it, or removed (a null slot).
 */
module MazeTiles {

  datatype Option<T> = None | Some(value: T)

  /** A wall's side of its tile. The enum values are the slot indices;
      DirDefault is the "no direction" value of an unset edge. */
  datatype EdgeDirection = North | South | West | East | DirDefault

  /** The enum value of a direction: its slot in a tile's wall array. */
  function SlotIndex(d: EdgeDirection): (i: nat)
    ensures i <= 4 && (i == 4 <==> d == DirDefault)
  {
    match d
    case North => 0
    case South => 1
    case West => 2
    case East => 3
    case DirDefault => 4
  }

  /** The direction whose slot index is i. */
  function SlotDirection(i: nat): (d: EdgeDirection)
    requires i < 4
    ensures d != DirDefault && SlotIndex(d) == i
  {
    if i == 0 then North else if i == 1 then South else if i == 2 then West else East
  }

  /** Integer grid coordinates: x along the width, y along the height. */
  datatype Position = Position(x: int, y: int)

  /** The unit step towards the neighbour on side d. An edge built with
      DirDefault keeps the zero step. */
  function Offset(d: EdgeDirection): (o: Position)
    ensures d != DirDefault ==> o.x * o.x + o.y * o.y == 1
    ensures d == DirDefault ==> o == Position(0, 0)
  {
    match d
    case North => Position(0, 1)
    case South => Position(0, -1)
    case West => Position(-1, 0)
    case East => Position(1, 0)
    case DirDefault => Position(0, 0)
  }

  /** The mirror side: the wall a neighbour shares with us. DirDefault has
      no mirror and is returned unchanged. */
  function Opposite(d: EdgeDirection): (r: EdgeDirection)
    ensures (r == DirDefault) == (d == DirDefault)
    ensures Offset(r) == Position(-Offset(d).x, -Offset(d).y)
  {
    match d
    case North => South
    case South => North
    case West => East
    case East => West
    case DirDefault => DirDefault
  }

  /** A wall of the tile at parentTilePosition, on its side direction. */
  datatype TileEdge = TileEdge(direction: EdgeDirection, parentTilePosition: Position)

  /** What the parameterless TileEdge constructor produces. */
  const DefaultEdge: TileEdge := TileEdge(DirDefault, Position(0, 0))

  /** The position of the tile on the other side of edge e. */
  function GetNeighboorTileIndex(e: TileEdge): (n: Position)
    ensures e.direction == North ==> n == Position(e.parentTilePosition.x, e.parentTilePosition.y + 1)
    ensures e.direction == South ==> n == Position(e.parentTilePosition.x, e.parentTilePosition.y - 1)
    ensures e.direction == West ==> n == Position(e.parentTilePosition.x - 1, e.parentTilePosition.y)
    ensures e.direction == East ==> n == Position(e.parentTilePosition.x + 1, e.parentTilePosition.y)
    ensures e.direction == DirDefault ==> n == e.parentTilePosition
  {
    var o := Offset(e.direction);
    Position(e.parentTilePosition.x + o.x, e.parentTilePosition.y + o.y)
  }

  /** Mirroring twice gives the original direction, and a valid direction
      is never its own mirror. */
  lemma OppositeIsInvolution(d: EdgeDirection)
    requires d != DirDefault
    ensures Opposite(Opposite(d)) == d && Opposite(d) != d && Opposite(d) != DirDefault
  {
  }

  /** The mirrored wall of the neighbour faces back to the edge's own tile. */
  lemma OppositeEdgeFacesBack(e: TileEdge)
    requires e.direction != DirDefault
    ensures GetNeighboorTileIndex(TileEdge(Opposite(e.direction), GetNeighboorTileIndex(e))) ==
            e.parentTilePosition
  {
  }

  /**
   * A tile of the maze. Slot SlotIndex(d) of edges holds the wall on side
   * d, or None once that wall has been removed. treeNode is the index of
   * the tile's node in the maze's disjoint-set forest.
   */
  class MazeTile {
    var edges: array<Option<TileEdge>>
    var treeNode: nat

    /** A new tile at position with all four walls present; slot d holds
        the wall on side d. */
    constructor SetTileObject(position: Position, node: nat)
      ensures fresh(edges) && edges.Length == 4 && treeNode == node
      ensures forall k :: 0 <= k < 4 ==> edges[k] == Some(TileEdge(SlotDirection(k), position))
    {
      treeNode := node;
      var slots := new Option<TileEdge>[4];
      slots[SlotIndex(North)] := Some(TileEdge(North, position));
      slots[SlotIndex(South)] := Some(TileEdge(South, position));
      slots[SlotIndex(West)] := Some(TileEdge(West, position));
      slots[SlotIndex(East)] := Some(TileEdge(East, position));
      edges := slots;
    }

    /** The wall on side d (None once removed, or for DirDefault). */
    function GetEdge(d: EdgeDirection): (e: Option<TileEdge>)
      reads this, edges
      requires edges.Length == 4
      ensures d == DirDefault ==> e == None
      ensures d != DirDefault ==> e == edges[SlotIndex(d)]
    {
      match d
      case North => edges[SlotIndex(North)]
      case South => edges[SlotIndex(South)]
      case West => edges[SlotIndex(West)]
      case East => edges[SlotIndex(East)]
      case DirDefault => None
    }

    /** The wall on the side facing an edge in direction d: the slot of
        Opposite(d) (None for DirDefault). */
    function GetOppositeEdge(d: EdgeDirection): (e: Option<TileEdge>)
      reads this, edges
      requires edges.Length == 4
      ensures d == DirDefault ==> e == None
      ensures d != DirDefault ==> e == edges[SlotIndex(Opposite(d))] && Opposite(d) != d
    {
      match d
      case North => edges[SlotIndex(South)]
      case South => edges[SlotIndex(North)]
      case West => edges[SlotIndex(East)]
      case East => edges[SlotIndex(West)]
      case DirDefault => None
    }

    /** Remove the wall on side e.direction; only that slot changes. An
        edge with DirDefault removes nothing and reports false. The wall
        must still be present, for its game object is switched off first. */
    method RemoveEdge(e: TileEdge) returns (ok: bool)
      requires edges.Length == 4
      requires e.direction != DirDefault ==> edges[SlotIndex(e.direction)].Some?
      modifies edges
      ensures ok <==> e.direction != DirDefault
      ensures ok ==> edges[..] == old(edges[..])[SlotIndex(e.direction) := None]
      ensures !ok ==> edges[..] == old(edges[..])
    {
      match e.direction
      case North =>
        edges[SlotIndex(North)] := None;
        ok := true;
      case South =>
        edges[SlotIndex(South)] := None;
        ok := true;
      case West =>
        edges[SlotIndex(West)] := None;
        ok := true;
      case East =>
        edges[SlotIndex(East)] := None;
        ok := true;
      case DirDefault =>
        ok := false;
    }
  }
}
