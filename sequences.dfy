/** Python's built-in `zip` on two lists, as the highlight lists and the router
    mapping use it. */
module Sequences {

  function Min(a: int, b: int): int {
    if a <= b then a else b
  }

  /** Pairs up elements position by position and stops at the end of the
      shorter list. */
  function Zip<A, B>(xs: seq<A>, ys: seq<B>): (r: seq<(A, B)>)
    ensures |r| == Min(|xs|, |ys|)
    ensures forall k :: 0 <= k < |r| ==> r[k] == (xs[k], ys[k])
  {
    if xs == [] || ys == [] then []
    else [(xs[0], ys[0])] + Zip(xs[1..], ys[1..])
  }
}
