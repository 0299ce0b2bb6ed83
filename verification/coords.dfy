/** The values coordinate conversion produces and the ordering `minmax` uses on them. */
module Coords {

  /** A converted coordinate: a finite number of degrees, or the positive
      infinity that stands for a token neither pattern reads. */
  datatype Coord = Fin(r: real) | Inf

  /** The float ordering on these values: infinity lies above every finite value. */
  predicate Le(a: Coord, b: Coord) {
    b.Inf? || (a.Fin? && a.r <= b.r)
  }

  function Min(a: Coord, b: Coord): (m: Coord)
    ensures m == a || m == b
    ensures Le(m, a) && Le(m, b)
  {
    if Le(a, b) then a else b
  }

  function Max(a: Coord, b: Coord): (m: Coord)
    ensures m == a || m == b
    ensures Le(a, m) && Le(b, m)
  {
    if Le(a, b) then b else a
  }

  /** The first half of Ruby's `minmax`: an element no larger than any other. */
  function MinOf(xs: seq<Coord>): (m: Coord)
    requires |xs| > 0
    ensures m in xs
    ensures forall x :: x in xs ==> Le(m, x)
  {
    if |xs| == 1 then xs[0]
    else
      var rest := MinOf(xs[1..]);
      assert forall x :: x in xs ==> x == xs[0] || x in xs[1..];
      Min(xs[0], rest)
  }

  /** The second half of Ruby's `minmax`: an element no smaller than any other. */
  function MaxOf(xs: seq<Coord>): (m: Coord)
    requires |xs| > 0
    ensures m in xs
    ensures forall x :: x in xs ==> Le(x, m)
  {
    if |xs| == 1 then xs[0]
    else
      var rest := MaxOf(xs[1..]);
      assert forall x :: x in xs ==> x == xs[0] || x in xs[1..];
      Max(xs[0], rest)
  }
}
