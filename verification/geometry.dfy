/** Grid points and the Manhattan metric (src/main.rs, struct Point and Point::dist). */
module Geometry {

  /** A site or a grid cell; the source stores both coordinates as i64. */
  datatype Point = Point(x: int, y: int)

  /** The out-of-band owner the resolver reports for a tied cell. It is an
      ordinary coordinate pair, exactly as in the source, so a real site at
      (-1,-1) would be indistinguishable from it. */
  const Sentinel: Point := Point(-1, -1)

  function Abs(n: int): (r: nat)
    ensures r == n || r == -n
  {
    if n < 0 then -n else n
  }

  /** Manhattan distance |dx| + |dy|. */
  function Dist(a: Point, b: Point): (r: int)
    ensures r >= 0
    ensures r == 0 <==> a == b
  {
    Abs(a.x - b.x) + Abs(a.y - b.y)
  }

  lemma DistSymmetric(a: Point, b: Point)
    ensures Dist(a, b) == Dist(b, a)
  {
  }

}
