/** The edge lists `draw_graph` highlights: the whole path at once, or one
    animation frame per step. Layout, colours and drawing are not modelled;
    a figure is represented by the list of path edges it highlights. */
module Presenter {
  import opened Sequences
  import opened Topology

  /** All but the last element; empty for an empty path. */
  function DropLast(s: seq<int>): seq<int> {
    if |s| == 0 then [] else s[..|s| - 1]
  }

  /** All but the first element; empty for an empty path. */
  function DropFirst(s: seq<int>): seq<int> {
    if |s| == 0 then [] else s[1..]
  }

  /** The whole-path highlight: the path's consecutive pairs, one per step,
      in order, built by zipping the path without its last node against the
      path without its first. */
  function PathEdges(path: seq<int>): (r: seq<(int, int)>)
    ensures |r| == if |path| == 0 then 0 else |path| - 1
    ensures forall k :: 0 <= k < |r| ==> r[k] == (path[k], path[k + 1])
  {
    Zip(DropLast(path), DropFirst(path))
  }

  /** Animation frame i: the first i nodes zipped against nodes 1..i, which
      is the first i steps of the path. */
  function Frame(path: seq<int>, i: nat): (r: seq<(int, int)>)
    requires 1 <= i < |path|
    ensures r == PathEdges(path)[..i]
  {
    Zip(path[..i], path[1..i + 1])
  }

  /** One frame for each i from 1 up to the path's length minus one, in order. */
  function Frames(path: seq<int>): (r: seq<seq<(int, int)>>)
    ensures |r| == if |path| <= 1 then 0 else |path| - 1
    ensures forall k :: 0 <= k < |r| ==> r[k] == PathEdges(path)[..k + 1]
  {
    if |path| <= 1 then []
    else seq(|path| - 1, k requires 0 <= k < |path| - 1 => Frame(path, k + 1))
  }

  /** Each frame extends the previous one by exactly the next step. */
  lemma FramesGrow(path: seq<int>, k: nat)
    requires k + 1 < |Frames(path)|
    ensures Frames(path)[k + 1] == Frames(path)[k] + [(path[k + 1], path[k + 2])]
  {
    var e := PathEdges(path);
    assert e[..k + 2] == e[..k + 1] + [e[k + 1]];
  }

  /** The last frame shows the whole path. */
  lemma LastFrameIsPath(path: seq<int>)
    requires |path| >= 2
    ensures Frames(path)[|path| - 2] == PathEdges(path)
  {
    assert PathEdges(path)[..|path| - 1] == PathEdges(path);
  }

  /** The highlight of each figure `draw_graph` emits, in order: the base
      figure shows the whole path only when a path is given and animation is
      off; with animation on, one figure per frame follows. */
  function Figures(path: seq<int>, animate: bool): (figs: seq<seq<(int, int)>>)
    ensures |figs| == 1 + (if animate then |Frames(path)| else 0)
    ensures figs[0] == if animate then [] else PathEdges(path)
    ensures animate ==> forall k :: 1 <= k < |figs| ==> figs[k] == PathEdges(path)[..k]
  {
    var base := if |path| > 0 && !animate then PathEdges(path) else [];
    [base] + (if animate then Frames(path) else [])
  }

  /** When the path is a walk of the graph, every highlighted pair is one of
      the graph's edges. */
  lemma HighlightOnEdges(links: set<Link>, path: seq<int>, a: int, b: int)
    requires Joins(links, path, a, b)
    ensures forall e :: e in PathEdges(path) ==> Key(e.0, e.1) in links
  {
    var r := PathEdges(path);
    forall e | e in r
      ensures Key(e.0, e.1) in links
    {
      var k :| 0 <= k < |r| && r[k] == e;
      assert e == (path[k], path[k + 1]);
    }
  }
}
