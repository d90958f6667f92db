/** The nearest-site resolver (src/main.rs, find_closest_point). */
module Nearest {
  import opened Wrappers
  import opened Geometry

  /** Index i holds the only entry of pts at the least distance from pos:
      every other entry (a duplicate of pts[i] included) is strictly farther. */
  ghost predicate UniqueNearest(pos: Point, pts: seq<Point>, i: int) {
    && 0 <= i < |pts|
    && forall j :: 0 <= j < |pts| && j != i ==> Dist(pos, pts[i]) < Dist(pos, pts[j])
  }

  /** The least distance from pos to an entry of pts. */
  function MinDist(pos: Point, pts: seq<Point>): (m: int)
    requires |pts| > 0
    ensures forall j :: 0 <= j < |pts| ==> m <= Dist(pos, pts[j])
    ensures exists j :: 0 <= j < |pts| && Dist(pos, pts[j]) == m
  {
    if |pts| == 1 then Dist(pos, pts[0])
    else
      var m0 := MinDist(pos, pts[..|pts| - 1]);
      var d := Dist(pos, pts[|pts| - 1]);
      assert forall j :: 0 <= j < |pts| - 1 ==> pts[..|pts| - 1][j] == pts[j];
      if d < m0 then d else m0
  }

  /** The running state of the single pass: the least distance seen so far
      ("none yet" before the first site) and the current owner. */
  datatype Scan = Scan(minDist: Option<int>, owner: Point)

  /** One iteration of the loop: a strictly closer site replaces the owner,
      an equally close one replaces it with the sentinel, a farther one is ignored. */
  function Step(s: Scan, pos: Point, p: Point): (r: Scan)
    ensures r.minDist.Some?
    ensures s.minDist.None? ==> r.minDist.value == Dist(pos, p)
    ensures s.minDist.Some? ==> r.minDist.value == if Dist(pos, p) < s.minDist.value then Dist(pos, p) else s.minDist.value
    ensures r.owner == p || r.owner == s.owner || r.owner == Sentinel
  {
    var d := Dist(pos, p);
    if s.minDist.None? || d < s.minDist.value then Scan(Some(d), p)
    else if d == s.minDist.value then Scan(s.minDist, Sentinel)
    else s
  }

  /** The loop state after visiting pts from left to right: a minimum is
      recorded once some site has been seen, and the owner is the sentinel
      or one of the sites. */
  function ScanAll(pos: Point, pts: seq<Point>): (r: Scan)
    ensures r.minDist.Some? <==> |pts| > 0
    ensures r.owner == Sentinel || r.owner in pts
  {
    if |pts| == 0 then Scan(None, Sentinel)
    else
      var pre := pts[..|pts| - 1];
      var s := ScanAll(pos, pre);
      assert s.owner in pre ==> s.owner in pts;
      Step(s, pos, pts[|pts| - 1])
  }

  /** What the loop state means after any prefix: the least distance so far,
      and the unique nearest entry so far or the sentinel when there is none. */
  ghost predicate ScanMeans(pos: Point, pts: seq<Point>, s: Scan) {
    && (|pts| == 0 ==> s.minDist.None?)
    && (|pts| > 0 ==> s.minDist == Some(MinDist(pos, pts)))
    && (forall i :: UniqueNearest(pos, pts, i) ==> s.owner == pts[i])
    && ((forall i :: !UniqueNearest(pos, pts, i)) ==> s.owner == Sentinel)
  }

  /** A last entry strictly closer than every earlier one is the unique nearest. */
  lemma CloserLastWins(pos: Point, pts: seq<Point>)
    requires |pts| > 1
    requires Dist(pos, pts[|pts| - 1]) < MinDist(pos, pts[..|pts| - 1])
    ensures UniqueNearest(pos, pts, |pts| - 1)
    ensures forall i :: UniqueNearest(pos, pts, i) ==> i == |pts| - 1
  {
    var pre := pts[..|pts| - 1];
    assert forall j :: 0 <= j < |pre| ==> pre[j] == pts[j];
  }

  /** A last entry exactly as close as the earlier minimum leaves no unique nearest. */
  lemma TiedLastClears(pos: Point, pts: seq<Point>)
    requires |pts| > 1
    requires Dist(pos, pts[|pts| - 1]) == MinDist(pos, pts[..|pts| - 1])
    ensures forall i :: !UniqueNearest(pos, pts, i)
  {
    var pre := pts[..|pts| - 1];
    var m := MinDist(pos, pre);
    var last := |pts| - 1;
    assert forall j :: 0 <= j < |pre| ==> pre[j] == pts[j];
    var w :| 0 <= w < |pre| && Dist(pos, pre[w]) == m;
    forall i | 0 <= i < |pts| ensures !UniqueNearest(pos, pts, i) {
      if i == last {
        assert Dist(pos, pts[w]) == m;
      } else if Dist(pos, pts[i]) == m {
        assert Dist(pos, pts[last]) == m;
      } else {
        assert Dist(pos, pts[w]) == m < Dist(pos, pts[i]);
      }
    }
  }

  /** A site the farther last entry does not beat keeps its standing. */
  lemma FartherKeeps(pos: Point, pts: seq<Point>, i: int)
    requires |pts| > 1
    requires Dist(pos, pts[|pts| - 1]) > MinDist(pos, pts[..|pts| - 1])
    requires UniqueNearest(pos, pts[..|pts| - 1], i)
    ensures UniqueNearest(pos, pts, i)
  {
    var pre := pts[..|pts| - 1];
    assert pre[i] == pts[i];
    forall j | 0 <= j < |pts| && j != i ensures Dist(pos, pts[i]) < Dist(pos, pts[j]) {
      if j < |pre| {
        assert pre[j] == pts[j];
      }
    }
  }

  /** A unique nearest entry of the whole sequence is one of the prefix. */
  lemma FartherDrops(pos: Point, pts: seq<Point>, i: int)
    requires |pts| > 1
    requires Dist(pos, pts[|pts| - 1]) > MinDist(pos, pts[..|pts| - 1])
    requires UniqueNearest(pos, pts, i)
    ensures UniqueNearest(pos, pts[..|pts| - 1], i)
  {
    var pre := pts[..|pts| - 1];
    var w :| 0 <= w < |pre| && Dist(pos, pre[w]) == MinDist(pos, pre);
    assert pre[w] == pts[w];
    assert Dist(pos, pts[i]) <= Dist(pos, pts[w]);
    assert pre[i] == pts[i];
    forall j | 0 <= j < |pre| && j != i ensures Dist(pos, pre[i]) < Dist(pos, pre[j]) {
      assert pre[j] == pts[j];
    }
  }

  /** A last entry farther than the earlier minimum changes nothing. */
  lemma FartherLastIgnored(pos: Point, pts: seq<Point>)
    requires |pts| > 1
    requires Dist(pos, pts[|pts| - 1]) > MinDist(pos, pts[..|pts| - 1])
    ensures forall i :: UniqueNearest(pos, pts, i) <==> UniqueNearest(pos, pts[..|pts| - 1], i)
  {
    forall i ensures UniqueNearest(pos, pts, i) <==> UniqueNearest(pos, pts[..|pts| - 1], i) {
      if UniqueNearest(pos, pts, i) {
        FartherDrops(pos, pts, i);
      }
      if UniqueNearest(pos, pts[..|pts| - 1], i) {
        FartherKeeps(pos, pts, i);
      }
    }
  }

  lemma {:induction false} ScanAllMeans(pos: Point, pts: seq<Point>)
    ensures ScanMeans(pos, pts, ScanAll(pos, pts))
  {
    if |pts| == 1 {
      assert UniqueNearest(pos, pts, 0);
    } else if |pts| > 1 {
      var pre := pts[..|pts| - 1];
      ScanAllMeans(pos, pre);
      var d := Dist(pos, pts[|pts| - 1]);
      var m := MinDist(pos, pre);
      if d < m {
        CloserLastWins(pos, pts);
      } else if d == m {
        TiedLastClears(pos, pts);
      } else {
        FartherLastIgnored(pos, pts);
        if forall i :: !UniqueNearest(pos, pts, i) {
          forall i ensures !UniqueNearest(pos, pre, i) {
            assert !UniqueNearest(pos, pts, i);
          }
        }
      }
    }
  }

  /** find_closest_point: the owner left by the single pass over pts, which
      is one of the sites or the sentinel. */
  function ClosestPoint(pos: Point, pts: seq<Point>): (r: Point)
    ensures r == Sentinel || r in pts
  {
    ScanAll(pos, pts).owner
  }

  /** The single pass agrees with the global minimum: it returns the entry of
      pts nearest to pos when exactly one entry attains the least distance, and
      the sentinel when the least distance is attained twice or more (a
      duplicated site included) or when pts is empty. */
  lemma ClosestPointIsUniqueNearest(pos: Point, pts: seq<Point>)
    ensures forall i :: UniqueNearest(pos, pts, i) ==> ClosestPoint(pos, pts) == pts[i]
    ensures (forall i :: !UniqueNearest(pos, pts, i)) ==> ClosestPoint(pos, pts) == Sentinel
  {
    ScanAllMeans(pos, pts);
  }

  /** Two entries at the least distance, duplicates of one site included,
      leave the cell to nobody. */
  lemma TiedMinimumIsUnowned(pos: Point, pts: seq<Point>, a: int, b: int)
    requires 0 <= a < |pts| && 0 <= b < |pts| && a != b
    requires Dist(pos, pts[a]) == Dist(pos, pts[b]) == MinDist(pos, pts)
    ensures ClosestPoint(pos, pts) == Sentinel
  {
    ClosestPointIsUniqueNearest(pos, pts);
    forall i ensures !UniqueNearest(pos, pts, i) {
      if 0 <= i < |pts| {
        var other := if i == a then b else a;
        assert Dist(pos, pts[other]) <= Dist(pos, pts[i]);
      }
    }
  }

  /** A tie clears the owner, but a later site strictly closer than both
      tied ones still takes the cell. */
  lemma CloserAfterTieWins(pos: Point, a: Point, b: Point, c: Point)
    requires Dist(pos, a) == Dist(pos, b) > Dist(pos, c)
    ensures ClosestPoint(pos, [a, b, c]) == c
  {
    var pts := [a, b, c];
    assert pts[..2] == [a, b] && [a, b][..1] == [a] && [a][..0] == [];
    assert ScanAll(pos, [a]) == Scan(Some(Dist(pos, a)), a);
    assert ScanAll(pos, [a, b]) == Scan(Some(Dist(pos, a)), Sentinel);
  }

  /** Two sites equally close and a third one farther leave the cell to nobody. */
  lemma TieIsUnowned(pos: Point, a: Point, b: Point, c: Point)
    requires Dist(pos, a) == Dist(pos, b) < Dist(pos, c)
    ensures ClosestPoint(pos, [a, b, c]) == Sentinel
  {
    var pts := [a, b, c];
    assert pts[..2] == [a, b] && [a, b][..1] == [a] && [a][..0] == [];
    assert ScanAll(pos, [a]) == Scan(Some(Dist(pos, a)), a);
    assert ScanAll(pos, [a, b]) == Scan(Some(Dist(pos, a)), Sentinel);
  }

}
