/** The exhaustive grid scan of part01 (src/main.rs:63-100): resolve every
    cell of the box [0..max_x] x [0..max_y], count cells per owner, drop every
    owner of a border cell, and report the largest remaining count. */
module Regions {
  import opened Geometry
  import opened Nearest
  import opened Bounds

  predicate InBox(c: Point, mx: int, my: int) {
    0 <= c.x <= mx && 0 <= c.y <= my
  }

  /** A cell on the outer edge of the scanned box. */
  predicate OnBorder(c: Point, mx: int, my: int) {
    InBox(c, mx, my) && (c.x == 0 || c.x == mx || c.y == 0 || c.y == my)
  }

  // The scan order of the nested loops, as a sequence of cells.

  /** Point(i, 0), ..., Point(i, n - 1): one pass of the inner loop. */
  function Column(i: int, n: nat): (s: seq<Point>)
    ensures |s| == n
  {
    if n == 0 then [] else Column(i, n - 1) + [Point(i, n - 1)]
  }

  /** Columns 0, ..., m - 1 of height n, in the order the outer loop visits them. */
  function Block(m: nat, n: nat): (s: seq<Point>)
  {
    if m == 0 then [] else Block(m - 1, n) + Column(m - 1, n)
  }

  lemma {:induction false} ColumnContents(i: int, n: nat)
    ensures forall c :: c in Column(i, n) <==> c.x == i && 0 <= c.y < n
    ensures forall a, b :: 0 <= a < b < n ==> Column(i, n)[a] != Column(i, n)[b]
  {
    if n > 0 {
      ColumnContents(i, n - 1);
      var s := Column(i, n);
      assert forall a :: 0 <= a < n - 1 ==> s[a] == Column(i, n - 1)[a];
      assert s[n - 1] == Point(i, n - 1);
      forall a | 0 <= a < n - 1 ensures s[a].y < n - 1 {
        assert s[a] in Column(i, n - 1);
      }
    }
  }

  /** The block holds each cell of [0, m) x [0, n) exactly once. */
  lemma {:induction false} BlockContents(m: nat, n: nat)
    ensures |Block(m, n)| == m * n
    ensures forall c :: c in Block(m, n) <==> 0 <= c.x < m && 0 <= c.y < n
    ensures forall a, b :: 0 <= a < b < |Block(m, n)| ==> Block(m, n)[a] != Block(m, n)[b]
  {
    if m > 0 {
      BlockContents(m - 1, n);
      ColumnContents(m - 1, n);
      var pre := Block(m - 1, n);
      var col := Column(m - 1, n);
      var s := Block(m, n);
      assert s == pre + col;
      assert |s| == (m - 1) * n + n == m * n;
      forall a, b | 0 <= a < b < |s| ensures s[a] != s[b] {
        if b < |pre| {
          assert s[a] == pre[a] && s[b] == pre[b];
        } else if a >= |pre| {
          assert s[a] == col[a - |pre|] && s[b] == col[b - |pre|];
        } else {
          assert s[a] in pre;
          assert s[b] in col;
        }
      }
    }
  }

  /** Every cell of the box, in scan order. */
  function Cells(mx: nat, my: nat): seq<Point> {
    Block(mx + 1, my + 1)
  }

  /** How many of the given cells the resolver gives to k. */
  function Count(pts: seq<Point>, cells: seq<Point>, k: Point): (n: nat)
    ensures n <= |cells|
  {
    if |cells| == 0 then 0
    else
      Count(pts, cells[..|cells| - 1], k)
      + (if ClosestPoint(cells[|cells| - 1], pts) == k then 1 else 0)
  }

  lemma CountAppend(pts: seq<Point>, cells: seq<Point>, c: Point, k: Point)
    ensures Count(pts, cells + [c], k) == Count(pts, cells, k) + (if ClosestPoint(c, pts) == k then 1 else 0)
  {
    assert (cells + [c])[..|cells|] == cells;
  }

  /** The listed cells whose owner is k, as a set. */
  ghost function Owned(pts: seq<Point>, cells: seq<Point>, k: Point): set<Point> {
    set c | c in cells && ClosestPoint(c, pts) == k
  }

  lemma OwnedAppend(pts: seq<Point>, cells: seq<Point>, c: Point, k: Point)
    ensures Owned(pts, cells + [c], k) == Owned(pts, cells, k) + (if ClosestPoint(c, pts) == k then {c} else {})
  {
  }

  /** Over cells listed without repetition, the count is the size of the set of cells given to k. */
  lemma {:induction false} CountIsCardinality(pts: seq<Point>, cells: seq<Point>, k: Point)
    requires forall a, b :: 0 <= a < b < |cells| ==> cells[a] != cells[b]
    ensures Count(pts, cells, k) == |Owned(pts, cells, k)|
  {
    if |cells| > 0 {
      var pre := cells[..|cells| - 1];
      var last := cells[|cells| - 1];
      forall a | 0 <= a < |pre| ensures pre[a] != last {
        assert pre[a] == cells[a];
      }
      CountIsCardinality(pts, pre, k);
      assert cells == pre + [last];
      OwnedAppend(pts, pre, last, k);
    }
  }

  /** The cells of the box [0..mx] x [0..my] whose owner is k. */
  ghost function Region(pts: seq<Point>, mx: nat, my: nat, k: Point): set<Point> {
    set i, j | 0 <= i <= mx && 0 <= j <= my && ClosestPoint(Point(i, j), pts) == k :: Point(i, j)
  }

  /** Counting along the scan order gives the size of k's region. */
  lemma CountIsRegionSize(pts: seq<Point>, mx: nat, my: nat, k: Point)
    ensures Count(pts, Cells(mx, my), k) == |Region(pts, mx, my, k)|
  {
    BlockContents(mx + 1, my + 1);
    CountIsCardinality(pts, Cells(mx, my), k);
    var a := Owned(pts, Cells(mx, my), k);
    var b := Region(pts, mx, my, k);
    forall c ensures c in a <==> c in b {
      if c in a {
        assert c == Point(c.x, c.y);
      }
    }
    assert a == b;
  }

  // Sums of map values.

  /** The total of all counts in a table. */
  ghost function SumValues(m: map<Point, int>): int
    decreases m.Keys
  {
    if m == map[] then 0
    else
      var k :| k in m;
      m[k] + SumValues(m - {k})
  }

  /** The total does not depend on which key is taken out first. */
  lemma {:induction false} SumValuesRemove(m: map<Point, int>, k: Point)
    requires k in m
    ensures SumValues(m) == m[k] + SumValues(m - {k})
    decreases m.Keys
  {
    var k' :| k' in m && SumValues(m) == m[k'] + SumValues(m - {k'});
    if k' != k {
      SumValuesRemove(m - {k'}, k);
      SumValuesRemove(m - {k}, k');
      assert m - {k'} - {k} == m - {k} - {k'};
    }
  }

  /** Incrementing one entry, or inserting it at 1, raises the total by one. */
  lemma SumValuesBump(m: map<Point, int>, k: Point)
    ensures SumValues(m[k := (if k in m then m[k] else 0) + 1]) == SumValues(m) + 1
  {
    var m' := m[k := (if k in m then m[k] else 0) + 1];
    SumValuesRemove(m', k);
    assert m' - {k} == m - {k};
    if k in m {
      SumValuesRemove(m, k);
    } else {
      assert m - {k} == m;
    }
  }

  /** entry(k).or_insert(0) followed by += 1. */
  function Bump(m: map<Point, int>, k: Point): (m': map<Point, int>)
    ensures m'.Keys == m.Keys + {k}
    ensures m'[k] == if k in m then m[k] + 1 else 1
    ensures forall j :: j in m && j != k ==> m'[j] == m[j]
  {
    m[k := (if k in m then m[k] else 0) + 1]
  }

  /** The grid after visiting the cells of seen in order: each one inserted with its owner. */
  function GridOf(pts: seq<Point>, seen: seq<Point>): map<Point, Point> {
    if |seen| == 0 then map[]
    else
      var last := seen[|seen| - 1];
      GridOf(pts, seen[..|seen| - 1])[last := ClosestPoint(last, pts)]
  }

  /** The region table after visiting the cells of seen in order: each one bumps its owner. */
  function TallyOf(pts: seq<Point>, seen: seq<Point>): map<Point, int> {
    if |seen| == 0 then map[]
    else
      var last := seen[|seen| - 1];
      Bump(TallyOf(pts, seen[..|seen| - 1]), ClosestPoint(last, pts))
  }

  /** Visiting one more cell adds that cell and its owner to the grid. */
  lemma GridStep(pts: seq<Point>, seen: seq<Point>, cur: Point)
    ensures GridOf(pts, seen + [cur]) == GridOf(pts, seen)[cur := ClosestPoint(cur, pts)]
  {
    assert (seen + [cur])[..|seen|] == seen;
  }

  /** Visiting one more cell bumps its owner's count. */
  lemma TallyStep(pts: seq<Point>, seen: seq<Point>, cur: Point)
    ensures TallyOf(pts, seen + [cur]) == Bump(TallyOf(pts, seen), ClosestPoint(cur, pts))
  {
    assert (seen + [cur])[..|seen|] == seen;
  }

  /** The grid holds exactly the visited cells, each mapped to its owner. */
  lemma {:induction false} GridOfMeans(pts: seq<Point>, seen: seq<Point>, c: Point)
    ensures c in GridOf(pts, seen) <==> c in seen
    ensures c in GridOf(pts, seen) ==> GridOf(pts, seen)[c] == ClosestPoint(c, pts)
  {
    if |seen| > 0 {
      var pre := seen[..|seen| - 1];
      GridOfMeans(pts, pre, c);
      assert seen == pre + [seen[|seen| - 1]];
    }
  }

  /** The table has an entry for exactly the owners of visited cells, the
      sentinel included, and each entry is that owner's number of cells. */
  lemma {:induction false} TallyOfMeans(pts: seq<Point>, seen: seq<Point>, k: Point)
    ensures k in TallyOf(pts, seen) <==> Count(pts, seen, k) > 0
    ensures k in TallyOf(pts, seen) ==> TallyOf(pts, seen)[k] == Count(pts, seen, k)
  {
    if |seen| > 0 {
      TallyOfMeans(pts, seen[..|seen| - 1], k);
    }
  }

  /** The counts of a region table add up to the number of cells visited. */
  lemma {:induction false} TallySum(pts: seq<Point>, seen: seq<Point>)
    ensures SumValues(TallyOf(pts, seen)) == |seen|
  {
    if |seen| > 0 {
      var pre := seen[..|seen| - 1];
      TallySum(pts, pre);
      SumValuesBump(TallyOf(pts, pre), ClosestPoint(seen[|seen| - 1], pts));
    }
  }

  /** The cells visited once the inner loop has reached row j of column i. */
  function Seen(i: nat, n: nat, j: nat): seq<Point> {
    Block(i, n) + Column(i, j)
  }

  lemma SeenStart(i: nat, n: nat)
    ensures Seen(i, n, 0) == Block(i, n)
  {
  }

  lemma SeenStep(i: nat, n: nat, j: nat)
    ensures Seen(i, n, j + 1) == Seen(i, n, j) + [Point(i, j)]
  {
  }

  lemma SeenEnd(i: nat, n: nat)
    ensures Seen(i, n, n) == Block(i + 1, n)
  {
  }

  /** The grid built over the whole box has exactly the box's cells as keys,
      each mapped to its owner. */
  lemma GridOfBox(pts: seq<Point>, mx: nat, my: nat)
    ensures forall c :: c in GridOf(pts, Cells(mx, my)) <==> InBox(c, mx, my)
    ensures forall c :: c in GridOf(pts, Cells(mx, my)) ==> GridOf(pts, Cells(mx, my))[c] == ClosestPoint(c, pts)
  {
    BlockContents(mx + 1, my + 1);
    forall c
      ensures c in GridOf(pts, Cells(mx, my)) <==> InBox(c, mx, my)
      ensures c in GridOf(pts, Cells(mx, my)) ==> GridOf(pts, Cells(mx, my))[c] == ClosestPoint(c, pts)
    {
      GridOfMeans(pts, Cells(mx, my), c);
    }
  }

  /** The table built over the whole box has an entry for every owner of a
      cell of the box, the sentinel included, holding the size of its region. */
  lemma TallyOfBox(pts: seq<Point>, mx: nat, my: nat, k: Point)
    ensures k in TallyOf(pts, Cells(mx, my)) <==> Region(pts, mx, my, k) != {}
    ensures k in TallyOf(pts, Cells(mx, my)) ==> TallyOf(pts, Cells(mx, my))[k] == |Region(pts, mx, my, k)|
  {
    TallyOfMeans(pts, Cells(mx, my), k);
    CountIsRegionSize(pts, mx, my, k);
  }

  /** The counts of the table built over the whole box add up to the box's area. */
  lemma TallyOfBoxSum(pts: seq<Point>, mx: nat, my: nat)
    ensures SumValues(TallyOf(pts, Cells(mx, my))) == (mx + 1) * (my + 1)
  {
    TallySum(pts, Cells(mx, my));
    BlockContents(mx + 1, my + 1);
  }

  /** One pass of the inner scan loop of part01: column i, rows 0..my. */
  method ScanColumn(pts: seq<Point>, i: nat, my: nat, grid0: map<Point, Point>, regions0: map<Point, int>)
    returns (grid: map<Point, Point>, regions: map<Point, int>)
    requires grid0 == GridOf(pts, Block(i, my + 1))
    requires regions0 == TallyOf(pts, Block(i, my + 1))
    ensures grid == GridOf(pts, Block(i + 1, my + 1))
    ensures regions == TallyOf(pts, Block(i + 1, my + 1))
  {
    grid, regions := grid0, regions0;
    var j: nat := 0;
    ghost var seen := Block(i, my + 1);
    SeenStart(i, my + 1);
    while j <= my
      invariant j <= my + 1
      invariant seen == Seen(i, my + 1, j)
      invariant grid == GridOf(pts, seen)
      invariant regions == TallyOf(pts, seen)
    {
      var cur := Point(i, j);
      var closest := ClosestPoint(cur, pts);
      GridStep(pts, seen, cur);
      TallyStep(pts, seen, cur);
      SeenStep(i, my + 1, j);
      grid := grid[cur := closest];
      regions := Bump(regions, closest);
      seen := seen + [cur];
      j := j + 1;
    }
    SeenEnd(i, my + 1);
  }

  /** The two scan loops of part01: grid maps every cell visited, column by
      column over the box, to find_closest_point of that cell, and regions
      counts the visited cells per owner, the sentinel included. */
  method ScanGrid(pts: seq<Point>, mx: nat, my: nat) returns (grid: map<Point, Point>, regions: map<Point, int>)
    ensures grid == GridOf(pts, Cells(mx, my))
    ensures regions == TallyOf(pts, Cells(mx, my))
  {
    grid := map[];
    regions := map[];
    var i := 0;
    while i <= mx
      invariant 0 <= i <= mx + 1
      invariant grid == GridOf(pts, Block(i, my + 1))
      invariant regions == TallyOf(pts, Block(i, my + 1))
    {
      grid, regions := ScanColumn(pts, i, my, grid, regions);
      i := i + 1;
    }
    assert i == mx + 1;
  }

  /** The owners that grid gives to the cells of cs. */
  ghost function OwnersOf(grid: map<Point, Point>, cs: set<Point>): set<Point> {
    set c | c in cs && c in grid :: grid[c]
  }

  /** The edge cells the first border loop has visited once x has reached x. */
  ghost function BottomTop(x: int, mx: nat, my: nat): set<Point> {
    set i, j | 0 <= i < x && i <= mx && 0 <= j <= my && (j == 0 || j == my) :: Point(i, j)
  }

  /** The edge cells the second border loop has visited once y has reached y. */
  ghost function LeftRight(y: int, mx: nat, my: nat): set<Point> {
    set i, j | 0 <= i <= mx && 0 <= j < y && j <= my && (i == 0 || i == mx) :: Point(i, j)
  }

  ghost function Border(mx: nat, my: nat): set<Point> {
    set i, j | 0 <= i <= mx && 0 <= j <= my && OnBorder(Point(i, j), mx, my) :: Point(i, j)
  }

  lemma OwnersOfAdd(grid: map<Point, Point>, cs: set<Point>, a: Point, b: Point)
    requires a in grid && b in grid
    ensures OwnersOf(grid, cs + {a, b}) == OwnersOf(grid, cs) + {grid[a], grid[b]}
  {
  }

  lemma RemoveTwo(m: map<Point, int>, cs: set<Point>, a: Point, b: Point)
    ensures m - cs - {a} - {b} == m - (cs + {a, b})
  {
  }

  lemma BottomTopStep(x: int, mx: nat, my: nat)
    requires 0 <= x <= mx
    ensures BottomTop(x + 1, mx, my) == BottomTop(x, mx, my) + {Point(x, 0), Point(x, my)}
  {
  }

  lemma LeftRightStep(y: int, mx: nat, my: nat)
    requires 0 <= y <= my
    ensures LeftRight(y + 1, mx, my) == LeftRight(y, mx, my) + {Point(0, y), Point(mx, y)}
  {
  }

  lemma BorderSplit(mx: nat, my: nat)
    ensures BottomTop(mx + 1, mx, my) + LeftRight(my + 1, mx, my) == Border(mx, my)
    ensures forall c :: c in Border(mx, my) <==> OnBorder(c, mx, my)
  {
  }

  /** The two border loops of part01: the owner of every cell on the box's
      edge loses its entry (remove_entry on a missing key does nothing), and
      every other entry keeps its count. */
  method PruneBorder(grid: map<Point, Point>, regions: map<Point, int>, mx: nat, my: nat) returns (kept: map<Point, int>)
    requires forall c :: InBox(c, mx, my) ==> c in grid
    ensures kept == regions - OwnersOf(grid, Border(mx, my))
  {
    kept := regions;
    var x := 0;
    while x <= mx
      invariant 0 <= x <= mx + 1
      invariant kept == regions - OwnersOf(grid, BottomTop(x, mx, my))
    {
      var bad := grid[Point(x, 0)];
      kept := kept - {bad};
      var bad' := grid[Point(x, my)];
      kept := kept - {bad'};
      BottomTopStep(x, mx, my);
      RemoveTwo(regions, OwnersOf(grid, BottomTop(x, mx, my)), bad, bad');
      OwnersOfAdd(grid, BottomTop(x, mx, my), Point(x, 0), Point(x, my));
      x := x + 1;
    }
    assert x == mx + 1;
    var y := 0;
    while y <= my
      invariant 0 <= y <= my + 1
      invariant kept == regions - OwnersOf(grid, BottomTop(mx + 1, mx, my) + LeftRight(y, mx, my))
    {
      var bad := grid[Point(0, y)];
      kept := kept - {bad};
      var bad' := grid[Point(mx, y)];
      kept := kept - {bad'};
      LeftRightStep(y, mx, my);
      RemoveTwo(regions, OwnersOf(grid, BottomTop(mx + 1, mx, my) + LeftRight(y, mx, my)), bad, bad');
      OwnersOfAdd(grid, BottomTop(mx + 1, mx, my) + LeftRight(y, mx, my), Point(0, y), Point(mx, y));
      y := y + 1;
    }
    assert y == my + 1;
    BorderSplit(mx, my);
  }

  /** The final loop of part01: the largest count in the table, starting from 0. */
  method MaxCount(regions: map<Point, int>) returns (maximum: int)
    ensures maximum >= 0
    ensures forall k :: k in regions ==> regions[k] <= maximum
    ensures maximum == 0 || exists k :: k in regions && regions[k] == maximum
  {
    maximum := 0;
    var rest := regions.Keys;
    while rest != {}
      invariant rest <= regions.Keys
      invariant maximum >= 0
      invariant forall k :: k in regions && k !in rest ==> regions[k] <= maximum
      invariant maximum == 0 || exists k :: k in regions && regions[k] == maximum
      decreases |rest|
    {
      var k :| k in rest;
      maximum := if maximum < regions[k] then regions[k] else maximum;
      rest := rest - {k};
    }
  }

  /** An owner whose region is kept: it owns some cell of the box and no cell
      on its edge. The sentinel is such an owner when some inner cell is tied
      and no border cell is. */
  ghost predicate Kept(pts: seq<Point>, mx: nat, my: nat, k: Point) {
    && Region(pts, mx, my, k) != {}
    && forall c :: OnBorder(c, mx, my) ==> ClosestPoint(c, pts) != k
  }

  /** After the scan and the border loops, the table holds exactly the kept
      owners, each with the size of its region. */
  lemma PrunedTable(pts: seq<Point>, mx: nat, my: nat, grid: map<Point, Point>,
                    regions: map<Point, int>, kept: map<Point, int>, k: Point)
    requires forall c :: c in grid <==> InBox(c, mx, my)
    requires forall c :: c in grid ==> grid[c] == ClosestPoint(c, pts)
    requires k in regions <==> Region(pts, mx, my, k) != {}
    requires k in regions ==> regions[k] == |Region(pts, mx, my, k)|
    requires kept == regions - OwnersOf(grid, Border(mx, my))
    ensures k in kept <==> Kept(pts, mx, my, k)
    ensures k in kept ==> 0 < kept[k] == |Region(pts, mx, my, k)|
  {
    BorderSplit(mx, my);
    if k in OwnersOf(grid, Border(mx, my)) {
      var c :| c in Border(mx, my) && c in grid && grid[c] == k;
      assert OnBorder(c, mx, my) && ClosestPoint(c, pts) == k;
    } else {
      forall c | OnBorder(c, mx, my) ensures ClosestPoint(c, pts) != k {
        assert c in Border(mx, my) && c in grid;
      }
    }
  }

  /** The body of part01 below find_max, over the box [0..mx] x [0..my]: the
      size of the largest region kept after pruning, or 0 when none is kept;
      never more than the box's area. */
  method LargestKept(pts: seq<Point>, mx: nat, my: nat) returns (maximum: int)
    ensures 0 <= maximum <= (mx + 1) * (my + 1)
    ensures forall k :: Kept(pts, mx, my, k) ==> |Region(pts, mx, my, k)| <= maximum
    ensures maximum == 0 <==> forall k :: !Kept(pts, mx, my, k)
    ensures maximum > 0 ==> exists k :: Kept(pts, mx, my, k) && |Region(pts, mx, my, k)| == maximum
  {
    var grid, regions := ScanGrid(pts, mx, my);
    GridOfBox(pts, mx, my);
    var kept := PruneBorder(grid, regions, mx, my);
    maximum := MaxCount(kept);
    forall k
      ensures k in kept <==> Kept(pts, mx, my, k)
      ensures k in kept ==> 0 < kept[k] == |Region(pts, mx, my, k)|
    {
      TallyOfBox(pts, mx, my, k);
      PrunedTable(pts, mx, my, grid, regions, kept, k);
    }
    if maximum != 0 {
      var k :| k in kept && kept[k] == maximum;
      assert Kept(pts, mx, my, k);
    }
    BoundFromWitness(pts, mx, my, maximum);
  }

  /** A maximum that is 0 or the size of some region fits in the box. */
  lemma BoundFromWitness(pts: seq<Point>, mx: nat, my: nat, maximum: int)
    requires maximum == 0 || exists k :: Kept(pts, mx, my, k) && |Region(pts, mx, my, k)| == maximum
    ensures maximum <= (mx + 1) * (my + 1)
  {
    if maximum != 0 {
      var k :| Kept(pts, mx, my, k) && |Region(pts, mx, my, k)| == maximum;
      RegionBound(pts, mx, my, k);
    } else {
      AreaPositive(mx, my);
    }
  }

  /** part01, returning the maximum it prints: find_max fixes the box, and the
      answer is the largest region kept in that box. */
  method Part01(pts: seq<Point>) returns (maximum: int)
    ensures 0 <= maximum <= (FindMax(pts).0 + 1) * (FindMax(pts).1 + 1)
    ensures var mx, my := FindMax(pts).0, FindMax(pts).1;
      && (forall k :: Kept(pts, mx, my, k) ==> |Region(pts, mx, my, k)| <= maximum)
      && (maximum == 0 <==> forall k :: !Kept(pts, mx, my, k))
      && (maximum > 0 ==> exists k :: Kept(pts, mx, my, k) && |Region(pts, mx, my, k)| == maximum)
  {
    var (mx, my) := FindMax(pts);
    maximum := LargestKept(pts, mx, my);
  }

  lemma AreaPositive(mx: nat, my: nat)
    ensures (mx + 1) * (my + 1) > 0
  {
  }

  /** No region is larger than the box. */
  lemma RegionBound(pts: seq<Point>, mx: nat, my: nat, k: Point)
    ensures |Region(pts, mx, my, k)| <= (mx + 1) * (my + 1)
  {
    CountIsRegionSize(pts, mx, my, k);
    BlockContents(mx + 1, my + 1);
  }

  /** Seen from any site, some corner of the box is strictly farther away
      than a cell inside the box. */
  lemma InnerCellHasFartherCorner(c: Point, s: Point, mx: nat, my: nat)
    requires 0 < c.x < mx && 0 < c.y < my
    ensures exists k: Point :: (k.x == 0 || k.x == mx) && (k.y == 0 || k.y == my) && Dist(k, s) > Dist(c, s)
  {
    var k := Point(if s.x <= c.x then mx else 0, if s.y <= c.y then my else 0);
    assert Dist(k, s) > Dist(c, s);
  }

}
