/**
 * The candidate edge pool and its random order. SetupMaze fills a list of
 * 2 * width * height placeholder edges. For each tile, column by column,
 * it then stores the tile's North wall and then its West wall in a slot
 * chosen at random among those still unassigned. Random.Range is replaced
 * by a caller-supplied sequence of picks: pick k is an index into the
 * list of free slots as it stands at that moment.
 */
module EdgePool {
  import opened MazeTiles
  import opened MazeGrid

  /** No element occurs twice. */
  ghost predicate NoDup<T>(s: seq<T>)
  {
    forall i, j :: 0 <= i < j < |s| ==> s[i] != s[j]
  }

  /** Taking the head off a list without duplicates leaves a list without
      duplicates that no longer holds the head. */
  lemma NoDupTail<T>(x: T, s: seq<T>)
    requires NoDup([x] + s)
    ensures NoDup(s) && x !in s
  {
    var t := [x] + s;
    forall i, j | 0 <= i < j < |s| ensures s[i] != s[j] {
      assert s[i] == t[i + 1] && s[j] == t[j + 1];
    }
    forall i | 0 <= i < |s| ensures s[i] != x {
      assert s[i] == t[i + 1] && x == t[0];
    }
  }

  /** The i-th edge SetupMaze places: tile number i / 2 in creation order,
      its North wall for even i and its West wall for odd i. */
  function PoolEdge(width: nat, height: nat, i: nat): (o: Option<TileEdge>)
    requires i < 2 * Area(width, height)
    ensures o.Some? && IsPoolEdge(width, height, o.value)
  {
    Some(TileEdge(if i % 2 == 0 then North else West, TileOfId(width, height, i / 2)))
  }

  /** All pool edges in the order SetupMaze places them. */
  function GridEdges(width: nat, height: nat): (r: seq<Option<TileEdge>>)
    ensures |r| == 2 * Area(width, height)
  {
    seq(2 * Area(width, height), i requires 0 <= i < 2 * Area(width, height) => PoolEdge(width, height, i))
  }

  /** Tile p's North wall is placed at position 2 * TileId(p) and its West
      wall right after it. */
  lemma GridEdgesAt(width: nat, height: nat, p: Position)
    requires InGrid(width, height, p)
    ensures 2 * TileId(width, height, p) + 1 < 2 * Area(width, height)
    ensures GridEdges(width, height)[2 * TileId(width, height, p)] == Some(TileEdge(North, p))
    ensures GridEdges(width, height)[2 * TileId(width, height, p) + 1] == Some(TileEdge(West, p))
  {
    var t := TileId(width, height, p);
    TileIdInjective(width, height, TileOfId(width, height, t), p);
    assert (2 * t) / 2 == t && (2 * t) % 2 == 0;
    assert (2 * t + 1) / 2 == t && (2 * t + 1) % 2 == 1;
  }

  /** The edge list holds exactly the pool edges. */
  lemma GridEdgesMember(width: nat, height: nat, o: Option<TileEdge>)
    ensures o in GridEdges(width, height) <==> o.Some? && IsPoolEdge(width, height, o.value)
  {
    if o.Some? && IsPoolEdge(width, height, o.value) {
      var p := o.value.parentTilePosition;
      GridEdgesAt(width, height, p);
      var k := if o.value.direction == North then 0 else 1;
      assert GridEdges(width, height)[2 * TileId(width, height, p) + k] == o;
    }
  }

  /** Different positions of the edge list hold different edges. */
  lemma GridEdgesDistinct(width: nat, height: nat)
    ensures NoDup(GridEdges(width, height))
  {
    var g := GridEdges(width, height);
    forall i, j | 0 <= i < j < |g| ensures g[i] != g[j] {
      if TileOfId(width, height, i / 2) == TileOfId(width, height, j / 2) {
        assert i / 2 == j / 2;
        assert i % 2 != j % 2;
      }
    }
  }

  /** SetupMaze's working state: the edge list being filled, and the list
      of indices of its slots that are still free. */
  datatype Placement = Placement(slots: seq<Option<TileEdge>>, available: seq<nat>)

  /** Every free slot still holds a placeholder, and no slot is listed
      twice as free. */
  ghost predicate Consistent(pl: Placement)
  {
    NoDup(pl.available) &&
    forall i :: 0 <= i < |pl.available| ==>
      pl.available[i] < |pl.slots| && pl.slots[pl.available[i]] == Some(DefaultEdge)
  }

  /** Every free-list entry indexes the edge list. */
  predicate FreeInRange(pl: Placement)
  {
    forall i :: 0 <= i < |pl.available| ==> pl.available[i] < |pl.slots|
  }

  /** count placeholder edges, as the first loop of SetupMaze adds them. */
  function Placeholders(count: nat): (r: seq<Option<TileEdge>>)
    ensures |r| == count
  {
    seq(count, _ => Some(DefaultEdge))
  }

  /** The state after SetupMaze's first loop: count placeholders, all free,
      the free list being 0, 1, .., count - 1. */
  function InitialPlacement(count: nat): (pl: Placement)
    ensures FreeInRange(pl) && |pl.slots| == |pl.available| == count
  {
    Placement(Placeholders(count), seq(count, i => i))
  }

  /** At the start every slot is free and holds a placeholder. */
  lemma InitialConsistent(count: nat)
    ensures Consistent(InitialPlacement(count))
  {
  }

  /** The picks fit a list of count free slots: the k-th pick indexes a
      list from which k slots have already been taken. */
  predicate PicksFit(picks: seq<nat>, count: nat)
  {
    forall k :: 0 <= k < |picks| ==> picks[k] < count - k
  }

  /** Store e in the free slot at position r of the free list and take that
      slot off the list. */
  function PlaceOne(pl: Placement, e: Option<TileEdge>, r: nat): (next: Placement)
    requires FreeInRange(pl) && r < |pl.available|
    ensures FreeInRange(next)
    ensures |next.slots| == |pl.slots| && |next.available| == |pl.available| - 1
  {
    var rest := pl.available[..r] + pl.available[r + 1..];
    assert forall i :: 0 <= i < |rest| ==> rest[i] in pl.available;
    Placement(pl.slots[pl.available[r] := e], rest)
  }

  /** One placement keeps the placement consistent. */
  lemma PlaceOneConsistent(pl: Placement, e: Option<TileEdge>, r: nat)
    requires Consistent(pl) && r < |pl.available|
    ensures Consistent(PlaceOne(pl, e, r))
  {
    var slot, rest := pl.available[r], pl.available[..r] + pl.available[r + 1..];
    forall i | 0 <= i < |rest| ensures rest[i] != slot && pl.slots[rest[i]] == Some(DefaultEdge) {
      var i' := if i < r then i else i + 1;
      assert rest[i] == pl.available[i'];
    }
    forall i, j | 0 <= i < j < |rest| ensures rest[i] != rest[j] {
      var i', j' := if i < r then i else i + 1, if j < r then j else j + 1;
      assert rest[i] == pl.available[i'] && rest[j] == pl.available[j'];
    }
  }

  /** One placement trades a placeholder for e. */
  lemma PlaceOnePermutes(pl: Placement, e: Option<TileEdge>, r: nat)
    requires Consistent(pl) && r < |pl.available|
    ensures multiset(PlaceOne(pl, e, r).slots) + multiset{Some(DefaultEdge)} == multiset(pl.slots) + multiset{e}
  {
    assert pl.slots[pl.available[r]] == Some(DefaultEdge);
  }

  /** Multiset bookkeeping of one more placement: if before + P == start + E
      and after + {d} == before + {e}, then after + (P + {d}) == start + (E + {e}). */
  lemma MultisetStep<T>(before: multiset<T>, after: multiset<T>, start: multiset<T>,
                        p: multiset<T>, p': multiset<T>, es: multiset<T>, es': multiset<T>, d: T, e: T)
    requires before + p == start + es
    requires after + multiset{d} == before + multiset{e}
    requires p' == p + multiset{d} && es' == es + multiset{e}
    ensures after + p' == start + es'
  {
    calc {
      after + p';
      (after + multiset{d}) + p;
      (before + multiset{e}) + p;
      (before + p) + multiset{e};
      (start + es) + multiset{e};
    }
  }

  /** One placement step of the multiset bookkeeping: if the slots and the
      placeholders used so far make up the start and the edges placed so
      far, they still do after placing e. */
  lemma PlaceStepPermutes(before: Placement, after: Placement, start: multiset<Option<TileEdge>>,
                          used: seq<Option<TileEdge>>, placed: seq<Option<TileEdge>>, e: Option<TileEdge>, r: nat)
    requires Consistent(before) && r < |before.available| && after == PlaceOne(before, e, r)
    requires multiset(before.slots) + multiset(used) == start + multiset(placed)
    ensures multiset(after.slots) + multiset(used + [Some(DefaultEdge)]) == start + multiset(placed + [e])
  {
    PlaceOnePermutes(before, e, r);
    MultisetStep(multiset(before.slots), multiset(after.slots), start, multiset(used),
                 multiset(used + [Some(DefaultEdge)]), multiset(placed), multiset(placed + [e]), Some(DefaultEdge), e);
  }

  /** A prefix is the shorter prefix followed by its last element. */
  lemma PrefixSnoc<T>(s: seq<T>, n: nat)
    requires 0 < n <= |s|
    ensures s[..n - 1] + [s[n - 1]] == s[..n]
  {
  }

  /** n placeholders are n - 1 placeholders and one more. */
  lemma PlaceholdersSnoc(n: nat)
    requires 0 < n
    ensures Placeholders(n - 1) + [Some(DefaultEdge)] == Placeholders(n)
  {
  }

  /** The picks for a width x height grid: one per pool edge, each fitting
      the free list at its turn. */
  predicate PicksFor(width: nat, height: nat, picks: seq<nat>)
  {
    |picks| == 2 * Area(width, height) && PicksFit(picks, 2 * Area(width, height))
  }

  /** Place the first n edges of es in order, the k-th in the free slot at
      position picks[k] of the free list. */
  function PlaceFirst(es: seq<Option<TileEdge>>, picks: seq<nat>, n: nat): (pl: Placement)
    requires |picks| == |es| && PicksFit(picks, |es|) && n <= |es|
    ensures FreeInRange(pl) && |pl.slots| == |es| && |pl.available| == |es| - n
  {
    if n == 0 then InitialPlacement(|es|)
    else PlaceOne(PlaceFirst(es, picks, n - 1), es[n - 1], picks[n - 1])
  }

  /** Placing edges keeps the placement consistent. */
  lemma {:induction false} PlaceFirstConsistent(es: seq<Option<TileEdge>>, picks: seq<nat>, n: nat)
    requires |picks| == |es| && PicksFit(picks, |es|) && n <= |es|
    ensures Consistent(PlaceFirst(es, picks, n))
  {
    if n == 0 {
      InitialConsistent(|es|);
    } else {
      PlaceFirstConsistent(es, picks, n - 1);
      PlaceOneConsistent(PlaceFirst(es, picks, n - 1), es[n - 1], picks[n - 1]);
    }
  }

  /** Placing the first n edges trades n placeholders for them. */
  lemma {:induction false} PlaceFirstPermutes(es: seq<Option<TileEdge>>, picks: seq<nat>, n: nat)
    requires |picks| == |es| && PicksFit(picks, |es|) && n <= |es|
    ensures multiset(PlaceFirst(es, picks, n).slots) + multiset(Placeholders(n)) ==
            multiset(Placeholders(|es|)) + multiset(es[..n])
  {
    if n == 0 {
      assert es[..0] == [];
    } else {
      PlaceFirstPermutes(es, picks, n - 1);
      PlaceFirstConsistent(es, picks, n - 1);
      PlaceStepPermutes(PlaceFirst(es, picks, n - 1), PlaceFirst(es, picks, n), multiset(Placeholders(|es|)),
                        Placeholders(n - 1), es[..n - 1], es[n - 1], picks[n - 1]);
      PlaceholdersSnoc(n);
      PrefixSnoc(es, n);
    }
  }

  /** The edge list and free list of SetupMaze once it has placed the first
      n pool edges. */
  function PlacedAfter(width: nat, height: nat, picks: seq<nat>, n: nat): (pl: Placement)
    requires PicksFor(width, height, picks) && n <= 2 * Area(width, height)
    ensures FreeInRange(pl) && |pl.slots| == 2 * Area(width, height)
    ensures |pl.available| == 2 * Area(width, height) - n
  {
    PlaceFirst(GridEdges(width, height), picks, n)
  }

  /** Placing pool edge m is one PlaceOne step with pick m, and that
      pick indexes the free list as it stands. */
  lemma PlacedStep(width: nat, height: nat, picks: seq<nat>, m: nat)
    requires PicksFor(width, height, picks) && m < 2 * Area(width, height)
    ensures picks[m] < |PlacedAfter(width, height, picks, m).available|
    ensures PlacedAfter(width, height, picks, m + 1) ==
      PlaceOne(PlacedAfter(width, height, picks, m), GridEdges(width, height)[m], picks[m])
  {
  }

  /** The edge list SetupMaze produces for a width x height grid. */
  function Shuffled(width: nat, height: nat, picks: seq<nat>): (r: seq<Option<TileEdge>>)
    requires PicksFor(width, height, picks)
    ensures |r| == 2 * Area(width, height)
  {
    PlacedAfter(width, height, picks, 2 * Area(width, height)).slots
  }

  /** The shuffled list is a permutation of the North and West edges of
      all tiles. */
  lemma ShuffledIsPermutation(width: nat, height: nat, picks: seq<nat>)
    requires PicksFor(width, height, picks)
    ensures multiset(Shuffled(width, height, picks)) == multiset(GridEdges(width, height))
  {
    var g, n := GridEdges(width, height), 2 * Area(width, height);
    PlaceFirstPermutes(g, picks, n);
    assert g[..n] == g;
    MultisetCancel(multiset(Shuffled(width, height, picks)), multiset(g), multiset(Placeholders(n)));
  }

  lemma MultisetCancel<T>(a: multiset<T>, b: multiset<T>, c: multiset<T>)
    requires a + c == c + b
    ensures a == b
  {
    assert forall x :: a[x] == (a + c)[x] - c[x] == (c + b)[x] - c[x] == b[x];
  }

  /** Every slot of the list is written exactly once: no placeholder is
      left once every pool edge has been placed. */
  lemma ShuffledUsesEverySlot(width: nat, height: nat, picks: seq<nat>)
    requires PicksFor(width, height, picks)
    ensures Some(DefaultEdge) !in Shuffled(width, height, picks)
  {
    ShuffledIsPermutation(width, height, picks);
    GridEdgesMember(width, height, Some(DefaultEdge));
    assert multiset(GridEdges(width, height))[Some(DefaultEdge)] == 0;
  }

  /** A sequence without duplicates holds every element at most once. */
  lemma {:induction false} NoDupCounts<T>(s: seq<T>)
    ensures NoDup(s) <==> forall x :: multiset(s)[x] <= 1
  {
    if |s| > 0 {
      var init, last := s[..|s| - 1], s[|s| - 1];
      assert s == init + [last];
      NoDupCounts(init);
      if NoDup(s) {
        assert NoDup(init);
        forall i | 0 <= i < |init| ensures init[i] != last {
          assert s[i] == init[i] && s[|s| - 1] == last;
        }
      }
      if forall x :: multiset(s)[x] <= 1 {
        assert forall x :: multiset(init)[x] <= 1 by {
          forall x ensures multiset(init)[x] <= 1 {
            assert multiset(s)[x] == multiset(init)[x] + (if x == last then 1 else 0);
          }
        }
        assert multiset(s)[last] == multiset(init)[last] + 1;
        assert forall i, j :: 0 <= i < j < |s| ==> s[i] != s[j] by {
          forall i, j | 0 <= i < j < |s| ensures s[i] != s[j] {
            if j < |s| - 1 {
              assert s[i] == init[i] && s[j] == init[j];
            } else {
              assert s[i] in init;
            }
          }
        }
      }
    }
  }

  /** The shuffled pool holds every pool edge exactly once and nothing else. */
  lemma ShuffledPool(width: nat, height: nat, picks: seq<nat>)
    requires PicksFor(width, height, picks)
    ensures |Shuffled(width, height, picks)| == 2 * Area(width, height)
    ensures NoDup(Shuffled(width, height, picks))
    ensures forall o {:trigger o in Shuffled(width, height, picks)} :: o in Shuffled(width, height, picks) <==> o.Some? && IsPoolEdge(width, height, o.value)
  {
    var s, g := Shuffled(width, height, picks), GridEdges(width, height);
    ShuffledIsPermutation(width, height, picks);
    GridEdgesDistinct(width, height);
    NoDupCounts(g);
    NoDupCounts(s);
    forall o: Option<TileEdge> ensures o in s <==> o.Some? && IsPoolEdge(width, height, o.value) {
      assert o in s <==> multiset(s)[o] > 0;
      assert o in g <==> multiset(g)[o] > 0;
      GridEdgesMember(width, height, o);
    }
  }
}
