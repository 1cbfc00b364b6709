/**
 * The maze's disjoint-set forest. Every tile owns one tree node; a node is
 * either a root or points at a parent node. Nodes are numbered, so the
 * whole forest is one parent array in which -1 marks a root.
 *
 * Following parent links must terminate. Here that is guaranteed by a ghost
 * depth for each node: a child's depth is always greater than its parent's.
 */
module UnionFind {

  /** The parent value of a root node (a null m_parent). */
  const NoParent: int := -1

  /** p is an acyclic parent forest: every link points to a node of
      strictly smaller ghost depth d. */
  ghost predicate IsForest(p: seq<int>, d: seq<nat>)
  {
    |p| == |d| &&
    forall i :: 0 <= i < |p| ==> p[i] == NoParent || (0 <= p[i] < |p| && d[p[i]] < d[i])
  }

  /** The root of node i: follow parent links until a node without a parent. */
  ghost function Root(p: seq<int>, d: seq<nat>, i: nat): (r: nat)
    requires IsForest(p, d) && i < |p|
    ensures r < |p| && p[r] == NoParent
    decreases d[i]
  {
    if p[i] == NoParent then i else Root(p, d, p[i])
  }

  /** The number of links followed from i to its root. */
  ghost function Steps(p: seq<int>, d: seq<nat>, i: nat): nat
    requires IsForest(p, d) && i < |p|
    decreases d[i]
  {
    if p[i] == NoParent then 0 else 1 + Steps(p, d, p[i])
  }

  /** Following exactly k parent links from node i arrives at node j. */
  ghost predicate Reaches(p: seq<int>, i: nat, j: nat, k: nat)
    decreases k
  {
    i < |p| && if k == 0 then i == j else 0 <= p[i] && Reaches(p, p[i], j, k - 1)
  }

  /** The roots of the forest; each root stands for one component. */
  ghost function Roots(p: seq<int>): set<nat>
  {
    set i: nat | i < |p| && p[i] == NoParent
  }

  /** The root is reached from the start node by walking parent links. */
  lemma {:induction false} RootReachable(p: seq<int>, d: seq<nat>, i: nat)
    requires IsForest(p, d) && i < |p|
    ensures Reaches(p, i, Root(p, d, i), Steps(p, d, i))
    decreases d[i]
  {
    if p[i] != NoParent {
      RootReachable(p, d, p[i]);
    }
  }

  /** Any root reachable from i is the root Root computes. */
  lemma {:induction false} RootUnique(p: seq<int>, d: seq<nat>, i: nat, j: nat, k: nat)
    requires IsForest(p, d) && j < |p| && p[j] == NoParent && Reaches(p, i, j, k)
    ensures j == Root(p, d, i)
    decreases k
  {
    if k > 0 {
      RootUnique(p, d, p[i], j, k - 1);
    }
  }

  /** Some root is reachable from both a and b. */
  ghost predicate ShareRoot(p: seq<int>, a: nat, b: nat)
  {
    exists r: nat, ka: nat, kb: nat ::
      r < |p| && p[r] == NoParent && Reaches(p, a, r, ka) && Reaches(p, b, r, kb)
  }

  /** Two nodes have the same root exactly when some root is reachable
      from both of them. */
  lemma ConnectedIffCommonRoot(p: seq<int>, d: seq<nat>, a: nat, b: nat)
    requires IsForest(p, d) && a < |p| && b < |p|
    ensures Root(p, d, a) == Root(p, d, b) <==> ShareRoot(p, a, b)
  {
    if Root(p, d, a) == Root(p, d, b) {
      RootReachable(p, d, a);
      RootReachable(p, d, b);
      var r, ka, kb := Root(p, d, a), Steps(p, d, a), Steps(p, d, b);
      assert r < |p| && p[r] == NoParent && Reaches(p, a, r, ka) && Reaches(p, b, r, kb);
    }
    if ShareRoot(p, a, b) {
      var r: nat, ka: nat, kb: nat :|
        r < |p| && p[r] == NoParent && Reaches(p, a, r, ka) && Reaches(p, b, r, kb);
      RootUnique(p, d, a, r, ka);
      RootUnique(p, d, b, r, kb);
    }
  }

  /** n nodes, each a root of its own tree. */
  ghost function Singletons(n: nat): seq<int>
  {
    seq(n, _ => NoParent)
  }

  ghost function ZeroDepth(n: nat): seq<nat>
  {
    seq(n, _ => 0)
  }

  /** n separate nodes form a forest with n components. */
  lemma {:induction false} SingletonsAreForest(n: nat)
    ensures IsForest(Singletons(n), ZeroDepth(n))
    ensures forall i :: 0 <= i < n ==> Root(Singletons(n), ZeroDepth(n), i) == i
    ensures |Roots(Singletons(n))| == n
  {
    if n > 0 {
      SingletonsAreForest(n - 1);
      assert Roots(Singletons(n)) == Roots(Singletons(n - 1)) + {n - 1};
    }
  }

  /** The parent array after attaching the root of c under node a (not
      under a's root). */
  ghost function Link(p: seq<int>, d: seq<nat>, a: nat, c: nat): (q: seq<int>)
    requires IsForest(p, d) && a < |p| && c < |p|
  {
    p[Root(p, d, c) := a]
  }

  /** A depth assignment for the linked forest: the moved tree hangs below a. */
  ghost function LinkDepth(p: seq<int>, d: seq<nat>, a: nat, c: nat): seq<nat>
    requires IsForest(p, d) && a < |p| && c < |p|
  {
    seq(|p|, j requires 0 <= j < |p| =>
      if Root(p, d, j) == Root(p, d, c) then d[j] + d[a] + 1 else d[j])
  }

  /** Linking two unconnected nodes keeps the parent links acyclic. */
  lemma LinkKeepsForest(p: seq<int>, d: seq<nat>, a: nat, c: nat)
    requires IsForest(p, d) && a < |p| && c < |p| && Root(p, d, a) != Root(p, d, c)
    ensures IsForest(Link(p, d, a, c), LinkDepth(p, d, a, c))
  {
    var q, e := Link(p, d, a, c), LinkDepth(p, d, a, c);
    forall i | 0 <= i < |q|
      ensures q[i] == NoParent || (0 <= q[i] < |q| && e[q[i]] < e[i])
    {
      if i != Root(p, d, c) && p[i] != NoParent {
        assert Root(p, d, i) == Root(p, d, p[i]);
      }
    }
  }

  /** Nodes outside c's component keep their root. */
  lemma {:induction false} LinkRootOutside(p: seq<int>, d: seq<nat>, a: nat, c: nat, j: nat)
    requires IsForest(p, d) && a < |p| && c < |p| && j < |p|
    requires Root(p, d, a) != Root(p, d, c) && Root(p, d, j) != Root(p, d, c)
    ensures IsForest(Link(p, d, a, c), LinkDepth(p, d, a, c))
    ensures Root(Link(p, d, a, c), LinkDepth(p, d, a, c), j) == Root(p, d, j)
    decreases d[j]
  {
    LinkKeepsForest(p, d, a, c);
    if p[j] != NoParent {
      LinkRootOutside(p, d, a, c, p[j]);
    }
  }

  /** Nodes of c's component now have a's root. */
  lemma {:induction false} LinkRootInside(p: seq<int>, d: seq<nat>, a: nat, c: nat, j: nat)
    requires IsForest(p, d) && a < |p| && c < |p| && j < |p|
    requires Root(p, d, a) != Root(p, d, c) && Root(p, d, j) == Root(p, d, c)
    ensures IsForest(Link(p, d, a, c), LinkDepth(p, d, a, c))
    ensures Root(Link(p, d, a, c), LinkDepth(p, d, a, c), j) == Root(p, d, a)
    decreases d[j]
  {
    LinkKeepsForest(p, d, a, c);
    if j == Root(p, d, c) {
      LinkRootOutside(p, d, a, c, a);
    } else {
      LinkRootInside(p, d, a, c, p[j]);
    }
  }

  /** Forest (q, e) is forest (p, d) with the component of c merged into
      that of a: nodes of c's component get a's root, all others keep
      theirs. */
  ghost predicate Merged(p: seq<int>, d: seq<nat>, q: seq<int>, e: seq<nat>, a: nat, c: nat)
  {
    IsForest(p, d) && IsForest(q, e) && |q| == |p| && a < |p| && c < |p| &&
    forall j :: 0 <= j < |p| ==>
      Root(q, e, j) == if Root(p, d, j) == Root(p, d, c) then Root(p, d, a) else Root(p, d, j)
  }

  /** Linking merges exactly the components of a and c: every other node
      keeps its root, and exactly one root disappears. */
  lemma LinkMerges(p: seq<int>, d: seq<nat>, a: nat, c: nat)
    requires IsForest(p, d) && a < |p| && c < |p| && Root(p, d, a) != Root(p, d, c)
    ensures Merged(p, d, Link(p, d, a, c), LinkDepth(p, d, a, c), a, c)
    ensures Roots(Link(p, d, a, c)) == Roots(p) - {Root(p, d, c)}
    ensures |Roots(Link(p, d, a, c))| == |Roots(p)| - 1
  {
    LinkKeepsForest(p, d, a, c);
    forall j | 0 <= j < |p|
      ensures Root(Link(p, d, a, c), LinkDepth(p, d, a, c), j) ==
        if Root(p, d, j) == Root(p, d, c) then Root(p, d, a) else Root(p, d, j)
    {
      if Root(p, d, j) == Root(p, d, c) {
        LinkRootInside(p, d, a, c, j);
      } else {
        LinkRootOutside(p, d, a, c, j);
      }
    }
    assert Roots(Link(p, d, a, c)) == Roots(p) - {Root(p, d, c)};
  }

  /** Every node of r's tree sits below r: a depth assignment valid for a
      forest that keeps all links except r's gives r at most j's depth. */
  lemma {:induction false} DepthAboveTree(p: seq<int>, d: seq<nat>, q: seq<int>, e: seq<nat>, r: nat, j: nat)
    requires IsForest(p, d) && j < |p| && r < |p| && Root(p, d, j) == r
    requires |q| == |p| && IsForest(q, e)
    requires forall i :: 0 <= i < |p| && i != r ==> q[i] == p[i]
    ensures e[r] <= e[j]
    decreases d[j]
  {
    if j != r {
      DepthAboveTree(p, d, q, e, r, p[j]);
    }
  }

  /** Linking two nodes that are already connected closes a cycle: no
      depth assignment makes the result a forest. (For a root linked to
      itself the root becomes its own parent.) */
  lemma LinkingConnectedNodesMakesCycle(p: seq<int>, d: seq<nat>, a: nat, c: nat, e: seq<nat>)
    requires IsForest(p, d) && a < |p| && c < |p| && Root(p, d, a) == Root(p, d, c)
    ensures !IsForest(Link(p, d, a, c), e)
  {
    var r, q := Root(p, d, c), Link(p, d, a, c);
    assert q[r] == a;
    if IsForest(q, e) {
      DepthAboveTree(p, d, q, e, r, a);
    }
  }

  /**
   * The forest as the program holds it: one parent cell per tree node,
   * updated in place by Connect.
   */
  class Forest {
    var parent: array<int>
    ghost var depth: seq<nat>

    ghost predicate Valid()
      reads this, parent
    {
      IsForest(parent[..], depth)
    }

    /** n fresh nodes, each a root of its own tree. */
    constructor (n: nat)
      ensures Valid() && fresh(parent) && parent.Length == n
      ensures forall i :: 0 <= i < n ==> parent[i] == NoParent
      ensures |Roots(parent[..])| == n
    {
      parent := new int[n](_ => NoParent);
      depth := ZeroDepth(n);
      new;
      SingletonsAreForest(n);
      assert parent[..] == Singletons(n);
    }

    /** Follow parent links from node i to its root. */
    function GetRoot(i: nat): (r: nat)
      reads this, parent
      requires Valid() && i < parent.Length
      ensures r < parent.Length && parent[r] == NoParent
      ensures r == Root(parent[..], depth, i)
      decreases depth[i]
    {
      if parent[i] == NoParent then i else GetRoot(parent[i])
    }

    /** Two nodes are connected when they have the same root. */
    function IsConnected(a: nat, b: nat): (c: bool)
      reads this, parent
      requires Valid() && a < parent.Length && b < parent.Length
      ensures c <==> ShareRoot(parent[..], a, b)
    {
      ConnectedIffCommonRoot(parent[..], depth, a, b);
      GetRoot(a) == GetRoot(b)
    }

    /** Hang the root of child's tree below node a. The caller must make
        sure the two nodes are not connected yet. */
    method Connect(a: nat, child: nat)
      requires Valid() && a < parent.Length && child < parent.Length
      requires !IsConnected(a, child)
      modifies this`depth, parent
      ensures Valid()
      ensures parent[..] == old(parent[..])[old(GetRoot(child)) := a]
      ensures Merged(old(parent[..]), old(depth), parent[..], depth, a, child)
      ensures Roots(parent[..]) == old(Roots(parent[..])) - {old(GetRoot(child))}
      ensures |Roots(parent[..])| == |old(Roots(parent[..]))| - 1
    {
      ghost var p, d := parent[..], depth;
      var r := GetRoot(child);
      LinkMerges(p, d, a, child);
      parent[r] := a;
      depth := LinkDepth(p, d, a, child);
      assert parent[..] == Link(p, d, a, child);
    }
  }
}
