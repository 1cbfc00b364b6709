/**
 * Walks through opened walls. Tiles are named by their tree-node numbers
 * (TileId); an opened wall is an internal edge, and it joins the tile it
 * belongs to with its neighbour. The maze builder keeps, for every tile, a
 * walk through opened walls to the tile at the root of its tree.
 */
module MazePaths {
  import opened MazeTiles
  import opened MazeGrid
  import opened UnionFind

  /** Internal edge e is the wall between tiles a and b (either way round). */
  ghost predicate Joins(width: nat, height: nat, e: TileEdge, a: nat, b: nat)
  {
    IsInternal(width, height, e) &&
    ((TileId(width, height, e.parentTilePosition) == a && TileId(width, height, GetNeighboorTileIndex(e)) == b) ||
     (TileId(width, height, e.parentTilePosition) == b && TileId(width, height, GetNeighboorTileIndex(e)) == a))
  }

  /** A walk from nodes[0] to the last of nodes; step i crosses wall via[i]. */
  datatype Walk = Walk(nodes: seq<nat>, via: seq<TileEdge>)

  /** Every step of w crosses an opened wall between its two tiles. */
  ghost predicate IsWalk(width: nat, height: nat, open: seq<TileEdge>, w: Walk)
  {
    |w.nodes| == |w.via| + 1 &&
    forall i {:trigger w.via[i]} :: 0 <= i < |w.via| ==>
      w.via[i] in open && Joins(width, height, w.via[i], w.nodes[i], w.nodes[i + 1])
  }

  /** The walk of no steps that stays on tile a. */
  function Stay(a: nat): (w: Walk)
    ensures |w.nodes| == 1 && w.nodes[0] == a && w.via == []
  {
    Walk([a], [])
  }

  /** The same walk taken backwards. */
  function Backwards(w: Walk): (r: Walk)
    requires |w.nodes| == |w.via| + 1
    ensures |r.nodes| == |w.nodes| && |r.via| == |w.via|
    ensures r.nodes[0] == w.nodes[|w.nodes| - 1] && r.nodes[|r.nodes| - 1] == w.nodes[0]
    ensures forall i :: 0 <= i < |r.nodes| ==> r.nodes[i] == w.nodes[|w.nodes| - 1 - i]
    ensures forall i :: 0 <= i < |r.via| ==> r.via[i] == w.via[|w.via| - 1 - i]
  {
    Walk(seq(|w.nodes|, i requires 0 <= i < |w.nodes| => w.nodes[|w.nodes| - 1 - i]),
         seq(|w.via|, i requires 0 <= i < |w.via| => w.via[|w.via| - 1 - i]))
  }

  /** A walk taken backwards is a walk through the same walls. */
  lemma BackwardsIsWalk(width: nat, height: nat, open: seq<TileEdge>, w: Walk)
    requires IsWalk(width, height, open, w)
    ensures IsWalk(width, height, open, Backwards(w))
  {
    var r := Backwards(w);
    forall i | 0 <= i < |r.via|
      ensures r.via[i] in open && Joins(width, height, r.via[i], r.nodes[i], r.nodes[i + 1])
    {
      var k := |w.via| - 1 - i;
      assert r.via[i] == w.via[k] && r.nodes[i] == w.nodes[k + 1] && r.nodes[i + 1] == w.nodes[k];
    }
  }

  /** Walk v continued by walk w, which starts where v ends. */
  function Then(v: Walk, w: Walk): (r: Walk)
    requires |v.nodes| == |v.via| + 1 && |w.nodes| == |w.via| + 1
    requires v.nodes[|v.nodes| - 1] == w.nodes[0]
    ensures |r.nodes| == |r.via| + 1
    ensures r.nodes[0] == v.nodes[0] && r.nodes[|r.nodes| - 1] == w.nodes[|w.nodes| - 1]
  {
    Walk(v.nodes + w.nodes[1..], v.via + w.via)
  }

  /** Two walks joined end to start are a walk. */
  lemma ThenIsWalk(width: nat, height: nat, open: seq<TileEdge>, v: Walk, w: Walk)
    requires IsWalk(width, height, open, v) && IsWalk(width, height, open, w)
    requires v.nodes[|v.nodes| - 1] == w.nodes[0]
    ensures IsWalk(width, height, open, Then(v, w))
  {
    var r := Then(v, w);
    forall i | 0 <= i < |r.via|
      ensures r.via[i] in open && Joins(width, height, r.via[i], r.nodes[i], r.nodes[i + 1])
    {
      if i < |v.via| {
        assert r.via[i] == v.via[i] && r.nodes[i] == v.nodes[i] && r.nodes[i + 1] == v.nodes[i + 1];
      } else {
        var k := i - |v.via|;
        assert r.via[i] == w.via[k] && r.nodes[i] == w.nodes[k] && r.nodes[i + 1] == w.nodes[k + 1];
      }
    }
  }

  /** Opening more walls keeps every walk a walk. */
  lemma WalkGrows(width: nat, height: nat, open: seq<TileEdge>, more: seq<TileEdge>, w: Walk)
    requires IsWalk(width, height, open, w)
    ensures IsWalk(width, height, open + more, w)
  {
  }

  /** Every opened wall lies inside one tree of forest (p, d). */
  ghost predicate InTrees(width: nat, height: nat, p: seq<int>, d: seq<nat>, open: seq<TileEdge>)
    requires IsForest(p, d) && |p| == Area(width, height)
  {
    forall e {:trigger e in open} :: e in open ==>
      IsInternal(width, height, e) &&
      Root(p, d, TileId(width, height, e.parentTilePosition)) == Root(p, d, TileId(width, height, GetNeighboorTileIndex(e)))
  }

  /** A walk through walls that each lie inside one tree never leaves the
      tree it starts in. */
  lemma {:induction false} WalkStaysInTree(width: nat, height: nat, p: seq<int>, d: seq<nat>,
                                           open: seq<TileEdge>, w: Walk)
    requires IsForest(p, d) && |p| == Area(width, height) && InTrees(width, height, p, d, open)
    requires IsWalk(width, height, open, w) && w.nodes[0] < |p|
    ensures w.nodes[|w.nodes| - 1] < |p| && Root(p, d, w.nodes[0]) == Root(p, d, w.nodes[|w.nodes| - 1])
    decreases |w.via|
  {
    if |w.via| > 0 {
      var rest := Walk(w.nodes[1..], w.via[1..]);
      assert w.via[0] in open && Joins(width, height, w.via[0], w.nodes[0], w.nodes[1]);
      forall i | 0 <= i < |rest.via|
        ensures rest.via[i] in open && Joins(width, height, rest.via[i], rest.nodes[i], rest.nodes[i + 1])
      {
        assert rest.via[i] == w.via[i + 1] && rest.nodes[i] == w.nodes[i + 1] && rest.nodes[i + 1] == w.nodes[i + 2];
      }
      WalkStaysInTree(width, height, p, d, open, rest);
      assert rest.nodes[|rest.nodes| - 1] == w.nodes[|w.nodes| - 1];
    }
  }

  /** routes[j] is a walk through opened walls from tile j to a root of
      the forest p. */
  ghost predicate RouteOk(width: nat, height: nat, p: seq<int>, open: seq<TileEdge>, routes: seq<Walk>, j: nat)
    requires j < |routes|
  {
    IsWalk(width, height, open, routes[j]) && routes[j].nodes[0] == j &&
    routes[j].nodes[|routes[j].nodes| - 1] < |p| && p[routes[j].nodes[|routes[j].nodes| - 1]] == NoParent
  }

  /** The routes of tiles k, k + 1, ... are all in order; stated tile by
      tile, so that it is unfolded only where it is used. */
  ghost predicate RoutesFrom(width: nat, height: nat, p: seq<int>, open: seq<TileEdge>, routes: seq<Walk>, k: nat)
    requires |routes| == |p|
    decreases |p| - k
  {
    k >= |p| || (RouteOk(width, height, p, open, routes, k) && RoutesFrom(width, height, p, open, routes, k + 1))
  }

  /** Every tile has a route through opened walls to a root. */
  ghost predicate Spans(width: nat, height: nat, p: seq<int>, open: seq<TileEdge>, routes: seq<Walk>)
  {
    |routes| == |p| && RoutesFrom(width, height, p, open, routes, 0)
  }

  /** RoutesFrom is the tile-by-tile form of a statement about all tiles. */
  lemma {:induction false} RoutesFromAll(width: nat, height: nat, p: seq<int>, open: seq<TileEdge>,
                                         routes: seq<Walk>, k: nat)
    requires |routes| == |p|
    ensures RoutesFrom(width, height, p, open, routes, k) <==>
      forall j {:trigger RouteOk(width, height, p, open, routes, j)} :: k <= j < |p| ==>
        RouteOk(width, height, p, open, routes, j)
    decreases |p| - k
  {
    if k < |p| {
      RoutesFromAll(width, height, p, open, routes, k + 1);
    }
  }

  /** Every tile's route is in order and ends at the tile's own root. */
  ghost predicate Rooted(width: nat, height: nat, p: seq<int>, d: seq<nat>, open: seq<TileEdge>, routes: seq<Walk>)
    requires IsForest(p, d)
  {
    |routes| == |p| &&
    forall j {:trigger RouteOk(width, height, p, open, routes, j)} :: 0 <= j < |p| ==>
      RouteOk(width, height, p, open, routes, j) && routes[j].nodes[|routes[j].nodes| - 1] == Root(p, d, j)
  }

  /** With every opened wall inside one tree, the route of each tile ends
      at that tile's own root. */
  lemma SpansRooted(width: nat, height: nat, p: seq<int>, d: seq<nat>, open: seq<TileEdge>, routes: seq<Walk>)
    requires IsForest(p, d) && |p| == Area(width, height) && InTrees(width, height, p, d, open)
    requires Spans(width, height, p, open, routes)
    ensures Rooted(width, height, p, d, open, routes)
  {
    RoutesFromAll(width, height, p, open, routes, 0);
    forall j | 0 <= j < |p|
      ensures RouteOk(width, height, p, open, routes, j) && routes[j].nodes[|routes[j].nodes| - 1] == Root(p, d, j)
    {
      assert RouteOk(width, height, p, open, routes, j);
      WalkStaysInTree(width, height, p, d, open, routes[j]);
    }
  }

  /** At the start every tile is its own root and stays where it is. */
  function Stays(n: nat): (routes: seq<Walk>)
    ensures |routes| == n && forall j :: 0 <= j < n ==> routes[j] == Stay(j)
  {
    seq(n, j requires 0 <= j < n => Stay(j))
  }

  lemma StaysSpan(width: nat, height: nat, n: nat)
    ensures Spans(width, height, Singletons(n), [], Stays(n))
  {
    RoutesFromAll(width, height, Singletons(n), [], Stays(n), 0);
    forall j | 0 <= j < n ensures RouteOk(width, height, Singletons(n), [], Stays(n), j) {
      assert Stays(n)[j] == Stay(j);
    }
  }

  /** The routes after opening wall e between tiles a and c: a tile of c's
      tree walks to c's old root, back down to c, across e to a, and on to
      a's root. Every other tile keeps its route. */
  ghost function JoinRoutes(width: nat, height: nat, p: seq<int>, d: seq<nat>, open: seq<TileEdge>,
                            routes: seq<Walk>, e: TileEdge, a: nat, c: nat): (r: seq<Walk>)
    requires IsForest(p, d) && Rooted(width, height, p, d, open, routes) && a < |p| && c < |p|
    ensures |r| == |routes|
  {
    assert RouteOk(width, height, p, open, routes, a) && RouteOk(width, height, p, open, routes, c);
    var cross := Walk([c, a], [e]);
    var tail := Then(Then(Backwards(routes[c]), cross), routes[a]);
    seq(|routes|, j requires 0 <= j < |routes| =>
      if Root(p, d, j) == Root(p, d, c) then
        assert RouteOk(width, height, p, open, routes, j); Then(routes[j], tail)
      else routes[j])
  }

  /** Opening the wall between tiles a and c and merging their trees keeps
      every tile's route a walk through opened walls to a root. */
  lemma JoinKeepsSpans(width: nat, height: nat, p: seq<int>, d: seq<nat>, q: seq<int>, f: seq<nat>,
                       open: seq<TileEdge>, routes: seq<Walk>, e: TileEdge, a: nat, c: nat)
    requires Merged(p, d, q, f, a, c) && Rooted(width, height, p, d, open, routes)
    requires Joins(width, height, e, a, c)
    ensures Spans(width, height, q, open + [e], JoinRoutes(width, height, p, d, open, routes, e, a, c))
  {
    var open' := open + [e];
    var cross := Walk([c, a], [e]);
    assert IsWalk(width, height, open', cross);
    assert RouteOk(width, height, p, open, routes, a) && RouteOk(width, height, p, open, routes, c);
    WalkGrows(width, height, open, [e], routes[a]);
    WalkGrows(width, height, open, [e], routes[c]);
    BackwardsIsWalk(width, height, open', routes[c]);
    ThenIsWalk(width, height, open', Backwards(routes[c]), cross);
    var tail := Then(Then(Backwards(routes[c]), cross), routes[a]);
    ThenIsWalk(width, height, open', Then(Backwards(routes[c]), cross), routes[a]);
    var r := JoinRoutes(width, height, p, d, open, routes, e, a, c);
    forall j | 0 <= j < |q| ensures RouteOk(width, height, q, open', r, j) {
      assert RouteOk(width, height, p, open, routes, j);
      WalkGrows(width, height, open, [e], routes[j]);
      var end := Root(p, d, j);
      if Root(p, d, j) == Root(p, d, c) {
        ThenIsWalk(width, height, open', routes[j], tail);
        assert Root(q, f, Root(p, d, a)) == Root(p, d, a);
      } else {
        assert Root(p, d, end) == end;
        assert Root(q, f, end) == end;
      }
    }
    RoutesFromAll(width, height, q, open', r, 0);
  }

  /** Some walk through opened walls leads from tile a to tile b. */
  ghost predicate Linked(width: nat, height: nat, open: seq<TileEdge>, a: nat, b: nat)
  {
    exists w :: IsWalk(width, height, open, w) && w.nodes[0] == a && w.nodes[|w.nodes| - 1] == b
  }

  /** With every opened wall inside one tree, two tiles are linked through
      opened walls exactly when they have the same root. */
  lemma LinkedIffSameRoot(width: nat, height: nat, p: seq<int>, d: seq<nat>, open: seq<TileEdge>,
                          routes: seq<Walk>, a: nat, b: nat)
    requires IsForest(p, d) && |p| == Area(width, height) && InTrees(width, height, p, d, open)
    requires Spans(width, height, p, open, routes) && a < |p| && b < |p|
    ensures Linked(width, height, open, a, b) <==> Root(p, d, a) == Root(p, d, b)
  {
    SpansRooted(width, height, p, d, open, routes);
    if Root(p, d, a) == Root(p, d, b) {
      assert RouteOk(width, height, p, open, routes, a) && RouteOk(width, height, p, open, routes, b);
      BackwardsIsWalk(width, height, open, routes[b]);
      ThenIsWalk(width, height, open, routes[a], Backwards(routes[b]));
      var w := Then(routes[a], Backwards(routes[b]));
      assert IsWalk(width, height, open, w) && w.nodes[0] == a && w.nodes[|w.nodes| - 1] == b;
    }
    if Linked(width, height, open, a, b) {
      var w :| IsWalk(width, height, open, w) && w.nodes[0] == a && w.nodes[|w.nodes| - 1] == b;
      WalkStaysInTree(width, height, p, d, open, w);
    }
  }
}
