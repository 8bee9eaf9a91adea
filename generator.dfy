/** `generate_connected_graph`: isolated nodes, then a random spanning tree,
    then extra edges on pairs that are still free.

    The random choices are parameters: `perm` is the order `random.shuffle`
    leaves the node list in, one TreeDraw per tree step gives the index that
    `random.randint(0, i - 1)` picks and the weight drawn for that edge, and
    `samples` is the stream of pairs `random.sample(nodes, 2)` returns in the
    extra-edge loop, each with the weight that would be drawn if its pair is
    free. Since `samples` is finite, a loop that would go on sampling ends
    with OutOfSamples. */
module Generator {
  import opened Topology

  datatype TreeDraw = TreeDraw(pick: int, weight: int)

  datatype PairDraw = PairDraw(u: int, v: int, weight: int)

  datatype Status =
    | Done          // the requested number of extra edges was added
    | OutOfSamples  // the sample stream ended first: the loop was still running
    | SampleError   // random.sample(nodes, 2) raised: fewer than two nodes
    | Infeasible    // refused up front: more extra edges than free pairs

  /** perm is an ordering of 0..n-1, as `random.shuffle` leaves the node list. */
  ghost predicate IsPermutation(perm: seq<int>, n: nat) {
    |perm| == n &&
    (forall i :: 0 <= i < n ==> 0 <= perm[i] < n) &&
    (forall i, j :: 0 <= i < j < n ==> perm[i] != perm[j]) &&
    (forall x :: 0 <= x < n ==> x in perm)
  }

  /** Step i (1 <= i < n) links perm[i] to perm[tree[i-1].pick], an index in
      0..i-1, with a weight in 1..10. */
  ghost predicate ValidTreeDraws(tree: seq<TreeDraw>, n: nat) {
    |tree| == TreeSize(n) &&
    forall m :: 0 <= m < |tree| ==> 0 <= tree[m].pick <= m && IsWeight(tree[m].weight)
  }

  /** Each sample is two distinct nodes with a weight in 1..10. */
  ghost predicate ValidSamples(samples: seq<PairDraw>, n: nat) {
    forall s :: s in samples ==> 0 <= s.u < n && 0 <= s.v < n && s.u != s.v && IsWeight(s.weight)
  }

  /** The pairs drawn by a stream of samples. */
  ghost function SampledLinks(samples: seq<PairDraw>): set<Link> {
    if samples == [] then {} else {Key(samples[0].u, samples[0].v)} + SampledLinks(samples[1..])
  }

  // ---------------------------------------------------------------------------
  // The spanning-tree phase as a function
  // ---------------------------------------------------------------------------

  /** The edges after the first k steps of the spanning-tree loop. */
  function TreeEdges(perm: seq<int>, tree: seq<TreeDraw>, k: nat): (t: map<Link, int>)
    requires ValidTreeDraws(tree, |perm|) && k <= |tree|
    ensures |t| <= k
    ensures WeightsInRange(t)
  {
    if k == 0 then map[]
    else TreeEdges(perm, tree, k - 1)[Key(perm[k], perm[tree[k - 1].pick]) := tree[k - 1].weight]
  }

  /** After k steps every tree edge joins two of perm[0..k]. */
  lemma {:induction false} TreeEdgesEndpoints(perm: seq<int>, tree: seq<TreeDraw>, k: nat)
    requires ValidTreeDraws(tree, |perm|) && k <= |tree|
    ensures forall l :: l in TreeEdges(perm, tree, k) ==> l.lo in perm[..k + 1] && l.hi in perm[..k + 1]
  {
    if k > 0 {
      TreeEdgesEndpoints(perm, tree, k - 1);
      assert perm[..k + 1] == perm[..k] + [perm[k]];
      assert perm[k] == perm[..k + 1][k];
      assert perm[tree[k - 1].pick] == perm[..k + 1][tree[k - 1].pick];
    }
  }

  /** Step k+1 never hits an existing pair: perm[k+1] has no edge before its
      own step. */
  lemma TreeStepIsFresh(perm: seq<int>, tree: seq<TreeDraw>, k: nat)
    requires IsPermutation(perm, |perm|) && ValidTreeDraws(tree, |perm|) && k < |tree|
    ensures Key(perm[k + 1], perm[tree[k].pick]) !in TreeEdges(perm, tree, k)
  {
    TreeEdgesEndpoints(perm, tree, k);
    assert perm[k + 1] !in perm[..k + 1];
  }

  /** After k steps the tree has exactly k edges, none of them a self-loop,
      all between nodes 0..n-1 and all weighing 1..10. */
  lemma {:induction false} TreeEdgesShape(perm: seq<int>, tree: seq<TreeDraw>, k: nat)
    requires IsPermutation(perm, |perm|) && ValidTreeDraws(tree, |perm|) && k <= |tree|
    ensures |TreeEdges(perm, tree, k)| == k
    ensures LinksWithin(|perm|, TreeEdges(perm, tree, k).Keys)
    ensures WeightsInRange(TreeEdges(perm, tree, k))
  {
    if k > 0 {
      TreeEdgesShape(perm, tree, k - 1);
      TreeStepIsFresh(perm, tree, k - 1);
      var u := perm[k];
      var v := perm[tree[k - 1].pick];
      assert u != v;
      InsertFreshLink(|perm|, TreeEdges(perm, tree, k - 1), u, v, tree[k - 1].weight);
    }
  }

  /** Step m (1 <= m <= k) joined perm[m] to the earlier perm[pick], and that
      edge is still there after k steps. */
  lemma {:induction false} TreeEdgesLink(perm: seq<int>, tree: seq<TreeDraw>, k: nat, m: nat)
    requires ValidTreeDraws(tree, |perm|) && 1 <= m <= k <= |tree|
    ensures Key(perm[m], perm[tree[m - 1].pick]) in TreeEdges(perm, tree, k)
  {
    if m < k {
      TreeEdgesLink(perm, tree, k - 1, m);
    }
  }

  /** The walk from perm[m] to perm[0] that follows each node's tree parent. */
  function WalkToRoot(perm: seq<int>, tree: seq<TreeDraw>, m: nat): seq<int>
    requires |perm| >= 1 && ValidTreeDraws(tree, |perm|) && m <= |tree|
    decreases m
  {
    if m == 0 then [perm[0]] else [perm[m]] + WalkToRoot(perm, tree, tree[m - 1].pick)
  }

  lemma {:induction false} WalkToRootJoins(perm: seq<int>, tree: seq<TreeDraw>, k: nat, m: nat)
    requires |perm| >= 1 && ValidTreeDraws(tree, |perm|) && m <= k <= |tree|
    ensures Joins(TreeEdges(perm, tree, k).Keys, WalkToRoot(perm, tree, m), perm[m], perm[0])
    decreases m
  {
    if m > 0 {
      var links := TreeEdges(perm, tree, k).Keys;
      var j := tree[m - 1].pick;
      WalkToRootJoins(perm, tree, k, j);
      TreeEdgesLink(perm, tree, k, m);
      var q := WalkToRoot(perm, tree, j);
      var p := [perm[m]] + q;
      forall i | 0 <= i < |p| - 1
        ensures Key(p[i], p[i + 1]) in links
      {
        if i > 0 {
          assert p[i] == q[i - 1] && p[i + 1] == q[i];
        }
      }
    }
  }

  /** The finished tree connects every node: each node walks to perm[0]. */
  lemma TreeConnected(perm: seq<int>, tree: seq<TreeDraw>)
    requires IsPermutation(perm, |perm|) && ValidTreeDraws(tree, |perm|)
    ensures Connected(Ids(|perm|), TreeEdges(perm, tree, |tree|).Keys)
  {
    var n := |perm|;
    var links := TreeEdges(perm, tree, |tree|).Keys;
    forall a, b | a in Ids(n) && b in Ids(n)
      ensures exists p :: Joins(links, p, a, b)
    {
      assert 0 <= a < n && 0 <= b < n;
      assert a in perm && b in perm;
      var ia :| 0 <= ia < n && perm[ia] == a;
      var ib :| 0 <= ib < n && perm[ib] == b;
      WalkToRootJoins(perm, tree, |tree|, ia);
      WalkToRootJoins(perm, tree, |tree|, ib);
      var pa := WalkToRoot(perm, tree, ia);
      var pb := WalkToRoot(perm, tree, ib);
      WalkReverse(links, pb, b, perm[0]);
      WalkConcat(links, pa, Reverse(pb), a, perm[0], b);
    }
  }

  /** Once the tree is in place, exactly Capacity(n) pairs of nodes are
      still without an edge. */
  lemma FreeAfterTree(perm: seq<int>, tree: seq<TreeDraw>)
    requires IsPermutation(perm, |perm|) && ValidTreeDraws(tree, |perm|)
    ensures |AllPairs(|perm|) - TreeEdges(perm, tree, |tree|).Keys| == Capacity(|perm|)
  {
    var n := |perm|;
    var t := TreeEdges(perm, tree, |tree|);
    TreeEdgesShape(perm, tree, |tree|);
    LinksWithinBound(n, t.Keys);
    AllPairsSize(n);
    assert AllPairs(n) == t.Keys + (AllPairs(n) - t.Keys);
  }

  /** Adding an edge on a free pair of distinct nodes keeps the graph simple
      and its weights in range, and adds exactly one edge. */
  lemma InsertFreshLink(n: nat, edges: map<Link, int>, u: int, v: int, w: int)
    requires LinksWithin(n, edges.Keys) && WeightsInRange(edges)
    requires 0 <= u < n && 0 <= v < n && u != v && IsWeight(w) && Key(u, v) !in edges
    ensures LinksWithin(n, edges[Key(u, v) := w].Keys) && WeightsInRange(edges[Key(u, v) := w])
    ensures |edges[Key(u, v) := w]| == |edges| + 1
  {
  }

  // ---------------------------------------------------------------------------
  // The three phases
  // ---------------------------------------------------------------------------

  /** The first phase: nodes 0..n-1 are added one by one, in increasing order. */
  method AddNodes(g: Graph, n: nat)
    requires g.nodes == [] && g.edges == map[]
    modifies g
    ensures g.nodes == Ids(n) && g.edges == map[]
  {
    for i := 0 to n
      invariant g.nodes == Ids(i) && g.edges == map[]
    {
      assert i !in Ids(i);
      g.AddNode(i);
      assert g.nodes == Ids(i + 1);
    }
  }

  /** The spanning-tree loop: each perm[i] is linked to an earlier perm[j]. */
  method LinkSpanningTree(g: Graph, perm: seq<int>, tree: seq<TreeDraw>)
    requires IsPermutation(perm, |perm|) && ValidTreeDraws(tree, |perm|)
    requires g.nodes == Ids(|perm|) && g.edges == map[]
    modifies g
    ensures g.nodes == Ids(|perm|)
    ensures g.edges == TreeEdges(perm, tree, |tree|)
    ensures |g.edges| == TreeSize(|perm|)
    ensures IsTopology(|perm|, g.edges)
  {
    var n := |perm|;
    var i := 1;
    while i < n
      invariant 1 <= i <= |tree| + 1
      invariant g.nodes == Ids(n)
      invariant g.edges == TreeEdges(perm, tree, i - 1)
    {
      var u := perm[i];
      var v := perm[tree[i - 1].pick];
      assert Ids(n)[u] == u && Ids(n)[v] == v;
      assert Extend(Extend(g.nodes, u), v) == g.nodes;
      g.AddEdge(u, v, tree[i - 1].weight);
      i := i + 1;
    }
    assert i - 1 == |tree|;
    TreeEdgesShape(perm, tree, |tree|);
    TreeConnected(perm, tree);
  }

  /** One round of the extra-edge loop: the sampled pair gets an edge only
      when it has none yet; otherwise the graph is left as it was. */
  method AddIfAbsent(g: Graph, n: nat, s: PairDraw) returns (isNew: bool)
    requires 0 <= s.u < n && 0 <= s.v < n
    requires g.nodes == Ids(n)
    modifies g
    ensures g.nodes == Ids(n)
    ensures isNew == (Key(s.u, s.v) !in old(g.edges))
    ensures g.edges == if isNew then old(g.edges)[Key(s.u, s.v) := s.weight] else old(g.edges)
  {
    isNew := !g.HasEdge(s.u, s.v);
    if isNew {
      assert Ids(n)[s.u] == s.u && Ids(n)[s.v] == s.v;
      assert Extend(Extend(g.nodes, s.u), s.v) == g.nodes;
      g.AddEdge(s.u, s.v, s.weight);
    }
  }

  /** How the edge map `after` relates to `before` once the pairs in `drawn`
      have been sampled and `added` of them were free. */
  ghost predicate Grown(n: nat, before: map<Link, int>, after: map<Link, int>, drawn: set<Link>, added: nat) {
    && LinksWithin(n, after.Keys) && WeightsInRange(after)
    && (forall l :: l in before ==> l in after && after[l] == before[l])
    && after.Keys <= before.Keys + drawn
    && |after| == |before| + added
  }

  /** The extra-edge loop run on `edges` over the sample stream: a sampled
      pair that is still free gets an edge with the weight drawn for it, a
      pair that is taken is skipped, and the loop stops once `wanted` edges
      were added or the stream ends. The result is the new edge map and the
      number of edges added. */
  function ExtraEdges(edges: map<Link, int>, samples: seq<PairDraw>, wanted: nat): (r: (map<Link, int>, nat))
    ensures r.1 <= wanted
    ensures |r.0| == |edges| + r.1
    decreases |samples|
  {
    if wanted == 0 || samples == [] then (edges, 0)
    else
      var s := samples[0];
      if Key(s.u, s.v) in edges then ExtraEdges(edges, samples[1..], wanted)
      else
        var r := ExtraEdges(edges[Key(s.u, s.v) := s.weight], samples[1..], wanted - 1);
        (r.0, r.1 + 1)
  }

  /** One sample in front of a run: whether its pair was free or taken, the
      run from the graph before it still satisfies Grown, with the sample's
      pair among those drawn. */
  lemma GrownPrepend(n: nat, before: map<Link, int>, mid: map<Link, int>, after: map<Link, int>,
                     s: PairDraw, drawn: set<Link>, added: nat)
    requires LinksWithin(n, before.Keys) && WeightsInRange(before)
    requires 0 <= s.u < n && 0 <= s.v < n && s.u != s.v && IsWeight(s.weight)
    requires mid == if Key(s.u, s.v) in before then before else before[Key(s.u, s.v) := s.weight]
    requires Grown(n, mid, after, drawn, added)
    ensures Grown(n, before, after, {Key(s.u, s.v)} + drawn,
                  if Key(s.u, s.v) in before then added else added + 1)
  {
    if Key(s.u, s.v) !in before {
      InsertFreshLink(n, before, s.u, s.v, s.weight);
    }
  }

  /** The rest of a valid sample stream is valid. */
  lemma ValidSamplesTail(samples: seq<PairDraw>, n: nat)
    requires ValidSamples(samples, n) && samples != []
    ensures samples[0] in samples && ValidSamples(samples[1..], n)
  {
    forall t | t in samples[1..]
      ensures t in samples
    {
    }
  }

  /** On a simple graph with weights in range, the loop keeps every edge and
      its weight, adds only sampled pairs, keeps the graph simple and the
      weights in range. */
  lemma {:induction false} ExtraEdgesGrown(n: nat, edges: map<Link, int>, samples: seq<PairDraw>, wanted: nat)
    requires LinksWithin(n, edges.Keys) && WeightsInRange(edges) && ValidSamples(samples, n)
    ensures Grown(n, edges, ExtraEdges(edges, samples, wanted).0, SampledLinks(samples),
                  ExtraEdges(edges, samples, wanted).1)
    decreases |samples|
  {
    if wanted > 0 && samples != [] {
      var s := samples[0];
      ValidSamplesTail(samples, n);
      var free := Key(s.u, s.v) !in edges;
      var mid := if free then edges[Key(s.u, s.v) := s.weight] else edges;
      var rest := if free then wanted - 1 else wanted;
      if free {
        InsertFreshLink(n, edges, s.u, s.v, s.weight);
      }
      ExtraEdgesGrown(n, mid, samples[1..], rest);
      GrownPrepend(n, edges, mid, ExtraEdges(mid, samples[1..], rest).0, s, SampledLinks(samples[1..]),
                   ExtraEdges(mid, samples[1..], rest).1);
    } else if wanted > 0 {
      assert Grown(n, edges, edges, {}, 0);
    }
  }

  /** When the loop stops short of `wanted` edges, the stream ran out and
      every pair it drew has an edge. */
  lemma {:induction false} ExtraEdgesCover(edges: map<Link, int>, samples: seq<PairDraw>, wanted: nat)
    requires ExtraEdges(edges, samples, wanted).1 < wanted
    ensures SampledLinks(samples) <= ExtraEdges(edges, samples, wanted).0.Keys
    decreases |samples|
  {
    if samples != [] {
      var s := samples[0];
      var rest := samples[1..];
      var key := Key(s.u, s.v);
      var mid := if key in edges then edges else edges[key := s.weight];
      var w := if key in edges then wanted else wanted - 1;
      var r := ExtraEdges(mid, rest, w);
      assert ExtraEdges(edges, samples, wanted) == (r.0, if key in edges then r.1 else r.1 + 1);
      ExtraEdgesCover(mid, rest, w);
      ExtraEdgesKeep(mid, rest, w);
      assert key in mid;
      assert SampledLinks(samples) == {key} + SampledLinks(rest);
    }
  }

  /** The loop never removes an edge. */
  lemma {:induction false} ExtraEdgesKeep(edges: map<Link, int>, samples: seq<PairDraw>, wanted: nat)
    ensures edges.Keys <= ExtraEdges(edges, samples, wanted).0.Keys
    decreases |samples|
  {
    if wanted > 0 && samples != [] {
      var s := samples[0];
      if Key(s.u, s.v) in edges {
        ExtraEdgesKeep(edges, samples[1..], wanted);
      } else {
        ExtraEdgesKeep(edges[Key(s.u, s.v) := s.weight], samples[1..], wanted - 1);
      }
    }
  }

  /** A stream of distinct pairs needs at least two nodes. */
  lemma SamplesNeedTwoNodes(samples: seq<PairDraw>, n: nat)
    requires ValidSamples(samples, n)
    ensures samples != [] ==> n >= 2
  {
    if samples != [] {
      assert samples[0] in samples;
    }
  }

  /** The extra-edge loop: sample a pair, add it only when it has no edge yet,
      until extraEdges edges have been added. */
  method AddExtraEdges(g: Graph, n: nat, extraEdges: nat, samples: seq<PairDraw>)
    returns (added: nat, status: Status)
    requires ValidSamples(samples, n)
    requires g.nodes == Ids(n)
    modifies g
    ensures g.nodes == Ids(n)
    ensures g.edges == ExtraEdges(old(g.edges), samples, extraEdges).0
    ensures added == ExtraEdges(old(g.edges), samples, extraEdges).1
    ensures status == Done <==> added == extraEdges
    ensures status == SampleError <==> n < 2 && extraEdges > 0
    ensures status != Infeasible
  {
    ghost var result := ExtraEdges(g.edges, samples, extraEdges);
    added := 0;
    status := Done;
    var k := 0;
    while added < extraEdges
      invariant 0 <= k <= |samples|
      invariant added <= extraEdges
      invariant status == Done
      invariant g.nodes == Ids(n)
      invariant ExtraEdges(g.edges, samples[k..], extraEdges - added).0 == result.0
      invariant ExtraEdges(g.edges, samples[k..], extraEdges - added).1 + added == result.1
      decreases |samples| - k
    {
      if n < 2 {
        SamplesNeedTwoNodes(samples, n);
        status := SampleError;
        break;
      }
      if k == |samples| {
        status := OutOfSamples;
        break;
      }
      var s := samples[k];
      assert s in samples;
      assert samples[k..][1..] == samples[k + 1..];
      var isNew := AddIfAbsent(g, n, s);
      k := k + 1;
      if isNew {
        added := added + 1;
      }
    }
  }

  // ---------------------------------------------------------------------------
  // The generator
  // ---------------------------------------------------------------------------

  /** generate_connected_graph as written. The graph is a connected simple
      graph on 0..n-1 with weights in 1..10 that keeps every tree edge; it has
      TreeSize(n) + added edges (n-1 tree edges, none for no nodes). When extraEdges exceeds the free pairs the loop
      can never finish, whatever is sampled. */
  method GenerateConnectedGraph(n: nat, extraEdges: nat, perm: seq<int>, tree: seq<TreeDraw>,
                                samples: seq<PairDraw>)
    returns (g: Graph, added: nat, status: Status)
    requires IsPermutation(perm, n) && ValidTreeDraws(tree, n) && ValidSamples(samples, n)
    ensures fresh(g)
    ensures g.nodes == Ids(n)
    ensures IsTopology(n, g.edges)
    ensures forall l :: l in TreeEdges(perm, tree, |tree|) ==>
              l in g.edges && g.edges[l] == TreeEdges(perm, tree, |tree|)[l]
    ensures g.edges == ExtraEdges(TreeEdges(perm, tree, |tree|), samples, extraEdges).0
    ensures added == ExtraEdges(TreeEdges(perm, tree, |tree|), samples, extraEdges).1
    ensures g.edges.Keys <= TreeEdges(perm, tree, |tree|).Keys + SampledLinks(samples)
    ensures |g.edges| == TreeSize(n) + added
    ensures added <= extraEdges && added <= Capacity(n)
    ensures status == Done <==> added == extraEdges
    ensures status == SampleError <==> n < 2 && extraEdges > 0
    ensures status != Infeasible
    ensures status == OutOfSamples ==> SampledLinks(samples) <= g.edges.Keys
    ensures extraEdges > Capacity(n) ==> status != Done
    ensures extraEdges <= Capacity(n) && AllPairs(n) <= SampledLinks(samples) ==> status == Done
  {
    g := new Graph();
    AddNodes(g, n);
    LinkSpanningTree(g, perm, tree);
    ghost var treeEdges := g.edges;
    added, status := AddExtraEdges(g, n, extraEdges, samples);
    ExtraEdgesGrown(n, treeEdges, samples, extraEdges);
    if status == OutOfSamples {
      ExtraEdgesCover(treeEdges, samples, extraEdges);
    }
    LinksWithinBound(n, g.edges.Keys);
    ConnectedGrow(Ids(n), treeEdges.Keys, g.edges.Keys);
    if status == OutOfSamples && AllPairs(n) <= SampledLinks(samples) {
      SubsetSize(AllPairs(n), g.edges.Keys);
      AllPairsSize(n);
    }
  }

  /** The generator with the guard it evidently needs: a request for more
      extra edges than free pairs is refused instead of looping for ever.
      Otherwise it behaves as GenerateConnectedGraph, never raises, and
      finishes on any sample stream that eventually draws every pair. */
  method GenerateTopology(n: nat, extraEdges: nat, perm: seq<int>, tree: seq<TreeDraw>,
                          samples: seq<PairDraw>)
    returns (g: Graph?, added: nat, status: Status)
    requires IsPermutation(perm, n) && ValidTreeDraws(tree, n) && ValidSamples(samples, n)
    ensures status == Infeasible <==> extraEdges > Capacity(n)
    ensures status == Infeasible ==> g == null && added == 0
    ensures status != Infeasible ==> g != null && fresh(g) && g.nodes == Ids(n) && IsTopology(n, g.edges)
    ensures status != Infeasible ==> forall l :: l in TreeEdges(perm, tree, |tree|) ==>
              l in g.edges && g.edges[l] == TreeEdges(perm, tree, |tree|)[l]
    ensures status != Infeasible ==>
              g.edges == ExtraEdges(TreeEdges(perm, tree, |tree|), samples, extraEdges).0 &&
              added == ExtraEdges(TreeEdges(perm, tree, |tree|), samples, extraEdges).1
    ensures status != Infeasible ==> g.edges.Keys <= TreeEdges(perm, tree, |tree|).Keys + SampledLinks(samples)
    ensures status != Infeasible ==> |g.edges| == TreeSize(n) + added && added <= extraEdges
    ensures status != Infeasible ==> (status == Done <==> added == extraEdges)
    ensures status == OutOfSamples ==> SampledLinks(samples) <= g.edges.Keys
    ensures status != SampleError
    ensures status != Infeasible && AllPairs(n) <= SampledLinks(samples) ==>
              status == Done && |g.edges| == TreeSize(n) + extraEdges
  {
    if extraEdges > Capacity(n) {
      return null, 0, Infeasible;
    }
    g, added, status := GenerateConnectedGraph(n, extraEdges, perm, tree, samples);
  }

  /** The sidebar allows 5 routers with 10 extra connections, but 5 nodes
      leave only 6 free pairs after the tree: whatever the samples, the
      extra-edge loop of the unguarded generator never completes. */
  method SliderMaximumHangs(perm: seq<int>, tree: seq<TreeDraw>, samples: seq<PairDraw>)
    returns (status: Status)
    requires IsPermutation(perm, 5) && ValidTreeDraws(tree, 5) && ValidSamples(samples, 5)
    ensures status == OutOfSamples
  {
    assert Capacity(5) == 6;
    var g, added;
    g, added, status := GenerateConnectedGraph(5, 10, perm, tree, samples);
  }
}
