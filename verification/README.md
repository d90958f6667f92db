# Largest finite area (Advent of Code 2018, day 6), modelled in Dafny

The program reads a list of sites, one `x, y` pair per line. It then scans every grid cell of the box `[0..max_x] x [0..max_y]`, where `max_x` and `max_y` come from `find_max`. Each cell is given to its nearest site under Manhattan distance, or to the sentinel `(-1,-1)` when the nearest distance is tied. It counts the cells per owner and drops every owner of a cell on the box's edge. It prints the largest count that remains.

The Dafny project models that core in five modules:

- `Geometry` holds `Point`, `Point::dist` and the sentinel.
- `Bounds` holds `find_max`.
- `Nearest` holds `find_closest_point`. The single loop is modelled as a fold, `ScanAll`. It is proved to return the unique nearest entry, or the sentinel when there is none.
- `Parse` holds the per-line parse of `read_points`. This covers `str::split(", ")`, Rust's `i64` parser, and the read of all lines.
- `Regions` holds `part01`. It has three parts:
  - the nested scan loops, which build `grid` and `regions`;
  - the two border loops;
  - the final maximum.

  `Part01` returns the maximum instead of printing it.

`Wrappers` holds the `Option` type.

How the model departs from the program:

- Coordinates and counts are mathematical integers. Parsing enforces the `i64` range, as Rust's parser does. The source's `regions` counts and `maximum` are `i32`, which the model does not bound (see "Left out").
- The running minimum of `find_closest_point` starts as `None` rather than `i64::MAX`.
- The tie sentinel is an ordinary `Point(-1, -1)`, exactly as in the source. It is therefore counted as a key of `regions`. It survives pruning when no edge cell is tied and some inner cell is, so it can be the reported maximum. `Regions.Kept` states this precisely.

Two behaviours of the code are worth stating explicitly:

- A tie does not settle a cell for good. A later site strictly closer than the tied pair takes the cell, because src/main.rs:53-55 overwrite the sentinel. `Nearest.CloserAfterTieWins` states this.
- A line with more than two `", "`-separated fields is accepted. The extra fields are ignored, because only `split[0]` and `split[1]` are read. `Parse.ParseLineIgnoresExtraFields` states this.

## Model

| member | source | states |
|---|---|---|
| Geometry.Dist | src/main.rs:17-19 | The Manhattan distance is never negative, and it is 0 exactly when the two points are equal. |
| Geometry.DistSymmetric | src/main.rs:17-19 | The distance from a to b equals the distance from b to a. |
| Bounds.FindMax | src/main.rs:36-46 | The corner is at least (0, 0). Every site has x <= max_x and y <= max_y. A positive max_x is the x of some site, and likewise for max_y. |
| Nearest.Step | src/main.rs:52-58 | One iteration of the loop. The running minimum becomes the smaller of the old minimum and this site's distance, or this distance when there was no minimum yet. The owner afterwards is this site, the old owner or the sentinel. |
| Nearest.ScanAll | src/main.rs:49-59 | The loop over all sites. A minimum is recorded exactly when some site has been seen, and the owner left behind is the sentinel or one of the sites. |
| Nearest.ClosestPoint | src/main.rs:48-61 | find_closest_point: the owner left by the loop, which is the sentinel or one of the sites. Its full contract is carried by Nearest.ClosestPointIsUniqueNearest, so that the many uses in Regions do not pay for the quantifiers. |
| Nearest.MinDist | src/main.rs:49-54 | The least distance from the cell to a site is at most every site's distance, and some site attains it. |
| Nearest.CloserLastWins | src/main.rs:53-55 | A site strictly closer than all earlier ones becomes the only nearest site, whatever ties came before. |
| Nearest.TiedLastClears | src/main.rs:56-57 | A site exactly as close as the earlier minimum leaves no unique nearest site. |
| Nearest.FartherLastIgnored | src/main.rs:51-59 | A site farther than the earlier minimum does not change which site, if any, is the unique nearest. |
| Nearest.ScanAllMeans | src/main.rs:49-59 | Loop invariant of the single pass, after any prefix of the sites. The running minimum is "none" on an empty prefix and the prefix's least distance otherwise. The owner is the prefix's unique nearest site, or the sentinel when none is unique. |
| Nearest.ClosestPointIsUniqueNearest | src/main.rs:48-61 | find_closest_point returns pts[i] whenever pts[i] is strictly closer than every other entry. It returns the sentinel when no entry is, which includes the empty list. |
| Nearest.TiedMinimumIsUnowned | src/main.rs:56-57 | Two distinct entries at the least distance give the sentinel, even when they are duplicates of one site. |
| Nearest.CloserAfterTieWins | src/main.rs:53-57 | Two equally close sites followed by a strictly closer one: the cell goes to the closer one. |
| Nearest.TieIsUnowned | src/main.rs:53-58 | Two equally close sites followed by a farther one: the cell goes to the sentinel. |
| Parse.ParseI64 | src/main.rs:29-30 | Only a numeral is accepted: digits, or '+' or '-' followed by at least one digit. The result lies in the i64 range and equals the digits' value, negated after '-'. |
| Parse.ParseI64Numeral | src/main.rs:29-30 | Every numeral, with or without a sign and with any leading zeros, parses to its signed value when that fits in i64, and is rejected otherwise. |
| Parse.BareSignFails | src/main.rs:29-30 | "-" and "+" alone are rejected. |
| Parse.PlusAndZerosParse | src/main.rs:29-30 | "+5" parses to 5 and "007" parses to 7. |
| Parse.ParseShowInt | src/main.rs:29-30 | Every i64, written in decimal, parses back to itself. |
| Parse.Fields | src/main.rs:28 | str::split(", ") gives at least one piece. No piece contains ", ", and the first piece is a prefix of the line. |
| Parse.FieldsOfSepFree | src/main.rs:28 | A line containing no ", " splits into that line alone. |
| Parse.FieldsAfterCommaFree | src/main.rs:28 | Splitting on ", " ends the first field at the first separator when that field holds no comma. |
| Parse.JoinFields | src/main.rs:28 | Rejoining the pieces of a split with ", " gives back the original line. |
| Parse.ParseLine | src/main.rs:28-30 | A parsed line is a point whose two coordinates fit in i64. |
| Parse.ParseLineRoundTrip | src/main.rs:28-31 | The line "x, y" for two i64 values parses to Point(x, y). |
| Parse.ParseLineIgnoresExtraFields | src/main.rs:28-31 | "x, y, ..." parses to Point(x, y), whatever follows the second separator. |
| Parse.MissingSeparatorFails | src/main.rs:28-30 | A line with no ", " anywhere, such as "1,2" or "1 ,2", has no field 1, so it is rejected. |
| Parse.NonNumericFails | src/main.rs:29-30 | A line whose field 0 or field 1 is not a numeral, such as "5, x" or "1x, 2", is rejected. |
| Parse.ReadPoints | src/main.rs:23-34 | The read succeeds exactly when every line parses. It then yields one point per line, in line order, each the parse of its line. |
| Regions.BlockContents | src/main.rs:70-71 | The nested loops visit every cell of the box exactly once: the visit list has (max_x+1)*(max_y+1) cells, holds each box cell, and has no repeats. |
| Regions.CountIsRegionSize | src/main.rs:70-77 | Counting the owner's cells along the scan order gives the size of that owner's region in the box. |
| Regions.GridOfMeans | src/main.rs:72-74 | After any number of visits, the grid's keys are exactly the visited cells, and each maps to find_closest_point of that cell. |
| Regions.TallyOfMeans | src/main.rs:73-77 | After any number of visits, regions has an entry exactly for the owners of visited cells, the sentinel included. Each entry is that owner's number of visited cells. |
| Regions.Bump | src/main.rs:76-77 | entry(k).or_insert(0) followed by += 1. The key k gains an entry, its count becomes one more than before (1 if it was absent), and every other entry is unchanged. |
| Regions.TallySum | src/main.rs:76-77 | The counts in regions add up to the number of cells visited. |
| Regions.ScanColumn | src/main.rs:71-78 | One pass of the inner loop extends grid and regions from the first i columns to the first i+1 columns. |
| Regions.ScanGrid | src/main.rs:64-79 | Starting from empty maps, the nested loops leave grid and regions as they are after visiting every cell of the box in scan order. |
| Regions.GridOfBox | src/main.rs:70-79 | After the scan, grid has exactly the box's cells as keys, each mapped to its closest site or to the sentinel. |
| Regions.TallyOfBox | src/main.rs:70-79 | After the scan, regions has an entry exactly for the owners of box cells, the sentinel included, holding the size of each one's region. |
| Regions.TallyOfBoxSum | src/main.rs:70-79 | After the scan, the counts in regions add up to (max_x+1)*(max_y+1). |
| Regions.PruneBorder | src/main.rs:81-93 | The border loops remove exactly the owners of edge cells (x = 0, x = max_x, y = 0 or y = max_y). Removing an owner that is already gone does nothing, and every other entry keeps its count. |
| Regions.PrunedTable | src/main.rs:70-93 | After the scan and the border loops, regions holds exactly the owners that own some box cell and no edge cell, each with its region's size. |
| Regions.MaxCount | src/main.rs:95-97 | The result starts at 0 and is at least every remaining count. It is either 0 or one of the counts. |
| Regions.LargestKept | src/main.rs:63-99 | For a given box, the result is the largest region among owners that touch no edge. It is 0 exactly when there is none, and it never exceeds the box's area. |
| Regions.InnerCellHasFartherCorner | src/main.rs:70-73 | From every site, some corner of the box is strictly farther away than any cell strictly inside the box. |
| Regions.RegionBound | src/main.rs:70-79 | No region is larger than the box. |
| Regions.Part01 | src/main.rs:63-100 | part01, with the box from find_max. The result lies between 0 and (max_x+1)*(max_y+1), and it is the largest region among owners with no edge cell, the sentinel included. It is 0 exactly when no owner qualifies. |

## Left out

- File and console I/O are not modelled: `File::open`, `BufReader::lines`, `main` and the `println!` of part01. `Part01` returns the value it would print. `ReadPoints` takes the lines of the file as a sequence of strings, so a line that fails to decode, which is `line.unwrap()` in the source, is not modelled.
- Panics are modelled as error results. A failing `expect` on a field, or indexing `split[1]` on a line without a separator, is `None` from `ParseLine`, and a failing line makes `ReadPoints` return `None`. The two `expect` messages are not modelled.
- Nearest.ClosestPointIsUniqueNearest: the running minimum starts as "no minimum yet" instead of `i64::MAX`. The two differ only when no site is closer than `i64::MAX`, so the nearest site is exactly `i64::MAX` away without overflow. The source then finds `dist == min_dist` at src/main.rs:56 and returns `(-1,-1)`, while the model returns that site. This already happens in a one-cell box. For example, the single site `(-2^62, -(2^62-1))` gives `find_max` the corner `(0,0)` and lies exactly `i64::MAX` from the cell `(0,0)`. There the source's `grid` and `regions` name the sentinel where the model's name the site. That cell is on the edge, so it is pruned, and the printed maximum is 0 either way. The divergence changes the maximum only for a cell inside the box, and by `Regions.InnerCellHasFartherCorner` some corner of the box is then strictly farther than `i64::MAX` from every site. Computing that corner's distance overflows `i64`, which is already left out under `Geometry.Dist`.
- Geometry.Dist: the difference and sum are mathematical integers. The source's `i64` subtraction and addition overflow for coordinates more than about 2^62 apart. That is reachable in principle, since parsed coordinates may use the whole `i64` range, but it is far outside the puzzle's inputs.
- Regions.Part01: the `regions` counts and `maximum` (src/main.rs:65-66, 76-77) carry no type annotation, so Rust makes them `i32`. The model counts with unbounded integers. The source would overflow once one owner has more than 2^31-1 cells, which needs a box with more than 2^31 cells.
- `HashMap` hashing and iteration order are not modelled. The maps are Dafny `map`s, and `MaxCount` visits the keys in an arbitrary order, which is sound because the maximum does not depend on the order.
- Regions.ScanGrid: the box corner is taken as a `nat`. `find_max` starts from 0, so the source never produces a negative corner, and `Bounds.FindMax` proves this.
- Regions.PruneBorder: it requires every box cell to be a key of `grid`. The source's `grid[...]` panics otherwise, and after the scan the requirement always holds (`Regions.GridOfBox`).
- A real site at `(-1,-1)` shares its key in `regions` with the tie sentinel, as in the source. The model keeps this collision and does not separate the two.
- No flood fill and no bounded/unbounded site classification are modelled. The program decides finiteness only by the border rule above.
- The puzzle's worked example, whose answer is 17, is not proved. Evaluating a 9 x 10 grid inside the verifier is far more costly than the general theorems above.
