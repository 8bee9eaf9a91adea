/** The weighted undirected graph that `generate_connected_graph` builds, with
    the facts about walks, connectivity and pair counting that the generator
    relies on. */
module Topology {

  /** An undirected link between two nodes, stored with the smaller id first
      so that each unordered pair has exactly one key. */
  datatype Link = Link(lo: int, hi: int)

  /** The key of the edge between u and v, whichever way round they are given. */
  function Key(u: int, v: int): (l: Link)
    ensures l.lo <= l.hi
    ensures (l.lo == u && l.hi == v) || (l.lo == v && l.hi == u)
  {
    if u <= v then Link(u, v) else Link(v, u)
  }

  /** Two calls give the same key exactly when they name the same unordered
      pair: a map keyed by Key holds at most one edge per pair. */
  lemma KeyIdentifiesPair(u: int, v: int, x: int, y: int)
    ensures Key(u, v) == Key(x, y) <==> (u == x && v == y) || (u == y && v == x)
  {
  }

  const MinWeight: int := 1
  const MaxWeight: int := 10

  /** A link cost as `random.randint(1, 10)` draws it. */
  predicate IsWeight(w: int) {
    MinWeight <= w <= MaxWeight
  }

  /** The node ids 0..n-1 in insertion order. */
  function Ids(n: nat): (s: seq<int>)
    ensures |s| == n
    ensures forall i :: 0 <= i < n ==> s[i] == i
  {
    seq(n, i => i)
  }

  /** Number of edges of a spanning tree on n nodes. */
  function TreeSize(n: nat): nat {
    if n == 0 then 0 else n - 1
  }

  /** Appends x unless it is already there, as a graph registers a node. */
  function Extend(s: seq<int>, x: int): seq<int> {
    if x in s then s else s + [x]
  }

  // ---------------------------------------------------------------------------
  // The graph object
  // ---------------------------------------------------------------------------

  /** An undirected graph whose nodes keep their insertion order and whose
      edges carry a weight. */
  class Graph {
    var nodes: seq<int>
    var edges: map<Link, int>

    constructor ()
      ensures nodes == [] && edges == map[]
    {
      nodes := [];
      edges := map[];
    }

    /** Whether u and v are linked; the answer does not depend on the order
        the end points are given in. */
    function HasEdge(u: int, v: int): (b: bool)
      reads this
      ensures b == (Key(v, u) in edges)
    {
      Key(u, v) in edges
    }

    /** Registers x; a node that is already present is left alone. */
    method AddNode(x: int)
      modifies this
      ensures nodes == Extend(old(nodes), x)
      ensures edges == old(edges)
    {
      nodes := Extend(nodes, x);
    }

    /** Registers both end points and sets the weight of the edge u-v; an
        edge that already exists gets the new weight. */
    method AddEdge(u: int, v: int, weight: int)
      modifies this
      ensures nodes == Extend(Extend(old(nodes), u), v)
      ensures edges == old(edges)[Key(u, v) := weight]
    {
      nodes := Extend(Extend(nodes, u), v);
      edges := edges[Key(u, v) := weight];
    }
  }

  // ---------------------------------------------------------------------------
  // Properties of an edge map
  // ---------------------------------------------------------------------------

  /** Every link joins two distinct nodes among 0..n-1: no self-loop and no
      node from outside. */
  ghost predicate LinksWithin(n: nat, links: set<Link>) {
    forall l :: l in links ==> 0 <= l.lo < l.hi < n
  }

  ghost predicate WeightsInRange(edges: map<Link, int>) {
    forall l :: l in edges ==> IsWeight(edges[l])
  }

  /** p is a walk from a to b along links. */
  ghost predicate Joins(links: set<Link>, p: seq<int>, a: int, b: int) {
    |p| >= 1 && p[0] == a && p[|p| - 1] == b &&
    forall k :: 0 <= k < |p| - 1 ==> Key(p[k], p[k + 1]) in links
  }

  ghost predicate Connected(nodes: seq<int>, links: set<Link>) {
    forall a, b :: a in nodes && b in nodes ==> exists p :: Joins(links, p, a, b)
  }

  /** What the generator promises of its graph on nodes 0..n-1: simple,
      weights in range, connected. */
  ghost predicate IsTopology(n: nat, edges: map<Link, int>) {
    LinksWithin(n, edges.Keys) && WeightsInRange(edges) && Connected(Ids(n), edges.Keys)
  }

  // ---------------------------------------------------------------------------
  // Walks
  // ---------------------------------------------------------------------------

  function Reverse(p: seq<int>): seq<int> {
    seq(|p|, k requires 0 <= k < |p| => p[|p| - 1 - k])
  }

  /** Links are undirected, so a walk read backwards is a walk. */
  lemma WalkReverse(links: set<Link>, p: seq<int>, a: int, b: int)
    requires Joins(links, p, a, b)
    ensures Joins(links, Reverse(p), b, a)
  {
    var r := Reverse(p);
    forall k | 0 <= k < |r| - 1
      ensures Key(r[k], r[k + 1]) in links
    {
      var j := |p| - 2 - k;
      assert r[k] == p[j + 1] && r[k + 1] == p[j];
      assert Key(p[j], p[j + 1]) in links;
    }
  }

  /** A walk from a to m followed by a walk from m to b is a walk from a to b. */
  lemma WalkConcat(links: set<Link>, p: seq<int>, q: seq<int>, a: int, m: int, b: int)
    requires Joins(links, p, a, m) && Joins(links, q, m, b)
    ensures Joins(links, p + q[1..], a, b)
  {
    var w := p + q[1..];
    forall k | 0 <= k < |w| - 1
      ensures Key(w[k], w[k + 1]) in links
    {
      if k < |p| - 1 {
        assert w[k] == p[k] && w[k + 1] == p[k + 1];
      } else {
        var j := k - |p| + 1;
        assert w[k] == q[j] && w[k + 1] == q[j + 1];
      }
    }
  }

  /** Adding links never disconnects a graph. */
  lemma ConnectedGrow(nodes: seq<int>, links: set<Link>, more: set<Link>)
    requires Connected(nodes, links) && links <= more
    ensures Connected(nodes, more)
  {
    forall a, b | a in nodes && b in nodes
      ensures exists p :: Joins(more, p, a, b)
    {
      var p :| Joins(links, p, a, b);
      assert Joins(more, p, a, b);
    }
  }

  // ---------------------------------------------------------------------------
  // Counting unordered pairs
  // ---------------------------------------------------------------------------

  /** Number of unordered pairs of distinct nodes among n. */
  function PairCount(n: nat): nat {
    if n == 0 then 0 else PairCount(n - 1) + (n - 1)
  }

  lemma {:induction false} PairCountIsBinomial(n: nat)
    ensures PairCount(n) == n * (n - 1) / 2
  {
    if n > 0 {
      PairCountIsBinomial(n - 1);
      assert n * (n - 1) == (n - 1) * (n - 2) + 2 * (n - 1);
    }
  }

  /** Pairs still free once a spanning tree is in place: the most extra
      edges a simple graph on n nodes can take. */
  function Capacity(n: nat): (c: nat)
    ensures TreeSize(n) + c == PairCount(n)
  {
    if n == 0 then 0 else PairCount(n) - (n - 1)
  }

  /** For n >= 1 the free pairs number n(n-1)/2 - (n-1). */
  lemma CapacityFormula(n: nat)
    requires n >= 1
    ensures Capacity(n) == n * (n - 1) / 2 - (n - 1)
  {
    PairCountIsBinomial(n);
  }

  ghost function AllPairs(n: nat): set<Link> {
    set a, b | 0 <= a < b < n :: Link(a, b)
  }

  ghost function Column(m: nat, top: int): set<Link> {
    set a | 0 <= a < m :: Link(a, top)
  }

  lemma {:induction false} ColumnSize(m: nat, top: int)
    ensures |Column(m, top)| == m
  {
    if m == 0 {
      assert Column(m, top) == {};
    } else {
      ColumnSize(m - 1, top);
      assert Column(m, top) == Column(m - 1, top) + {Link(m - 1, top)};
    }
  }

  lemma {:induction false} AllPairsSize(n: nat)
    ensures |AllPairs(n)| == PairCount(n)
  {
    if n == 0 {
      assert AllPairs(n) == {};
    } else {
      AllPairsSize(n - 1);
      ColumnSize(n - 1, n - 1);
      assert AllPairs(n) == AllPairs(n - 1) + Column(n - 1, n - 1);
      assert AllPairs(n - 1) * Column(n - 1, n - 1) == {};
    }
  }

  lemma SubsetSize<T>(a: set<T>, b: set<T>)
    requires a <= b
    ensures |a| <= |b|
  {
    assert b == a + (b - a);
  }

  /** A simple graph on n nodes has at most n(n-1)/2 edges, and has exactly
      that many only when every pair is linked. */
  lemma LinksWithinBound(n: nat, links: set<Link>)
    requires LinksWithin(n, links)
    ensures links <= AllPairs(n)
    ensures |links| <= PairCount(n)
    ensures |links| == PairCount(n) <==> links == AllPairs(n)
  {
    forall l | l in links
      ensures l in AllPairs(n)
    {
      assert l == Link(l.lo, l.hi);
    }
    AllPairsSize(n);
    SubsetSize(links, AllPairs(n));
    if |links| == PairCount(n) {
      assert |AllPairs(n) - links| == 0;
    }
  }
}
