/** The upper corner of the scanned box (src/main.rs, find_max). */
module Bounds {
  import opened Geometry

  /** find_max: the largest x and the largest y over the sites, each starting
      from 0, so the box always begins at the origin and negative coordinates
      never raise the corner. */
  function FindMax(pts: seq<Point>): (r: (int, int))
    ensures r.0 >= 0 && r.1 >= 0
    ensures forall i :: 0 <= i < |pts| ==> pts[i].x <= r.0 && pts[i].y <= r.1
    ensures r.0 > 0 ==> exists i :: 0 <= i < |pts| && pts[i].x == r.0
    ensures r.1 > 0 ==> exists i :: 0 <= i < |pts| && pts[i].y == r.1
  {
    if |pts| == 0 then (0, 0)
    else
      var pre := pts[..|pts| - 1];
      var last := pts[|pts| - 1];
      var (mx, my) := FindMax(pre);
      assert forall j :: 0 <= j < |pre| ==> pre[j] == pts[j];
      (if mx < last.x then last.x else mx, if my < last.y then last.y else my)
  }

}
