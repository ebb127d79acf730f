# Polygon operations, modelled in Dafny

This project models the geometric core of the Polygon_operations repository:

- **Validation.** `validatePolygonVertices` needs at least three vertices and no two of them within 1e-9 in both coordinates.
- **Difference.** `differenceOfPolygons` keeps the vertices of A that lie on the non-negative side of every edge of B.
- **Union.** `unionOfPolygons` validates, merges every vertex, sorts by the polar angle `atan2(y, x)` and collapses Eps-close neighbours with `std::unique`.
- **Intersection.** `intersectionOfPolygons` crosses every edge of every polygon with every edge of every later polygon, using Cramer's rule, and accumulates the points, each new point skipped when one Eps-close to it is present.
- **The driver (main.cpp).** Its Bresenham `drawLine`, its own unvalidated `unionOfPolygons`, and the loops that draw each polygon's closed outline and the union's outline on a 20 by 20 grid.

Coordinates are exact reals. Eps is the source's 1e-9.

Validation failures become values: `Result.Failure(TooFewVertices)` or `Result.Failure(DuplicateVertex)` stand for the two `std::invalid_argument` throws. Each engine validates its inputs in the source's order and reports the first failure.

The atan2 key is passed to the union as a parameter, `angle: Point -> real`. Nothing proved depends on its values.

`std::sort` is modelled as an in-place insertion sort on an array. Its contract is what `std::sort` promises: sorted by the key and a permutation. The order it chose among equal keys is returned as a ghost value.

`std::unique` is modelled as the usual library implementation runs it: each element is compared with the last element kept.

The intersection loops are four nested methods, each proved against a function that lists the candidates in loop order. The scan is stated for any edge rule. `intersectionOfPolygons` runs it with the source's rule, `EdgeHit`.

Files: `geometry.dfy`, `subsequences.dfy`, `polygon_validation.dfy`, `difference.dfy`, `union.dfy`, `intersection.dfy`, `raster.dfy`, `main.dfy`.

### What the code computes, compared with the set operations it is named after

- **Difference.** A set difference A \ B would drop the vertices of A that lie inside B. `differenceOfPolygons` instead keeps the vertices on the non-negative side of every edge of B. For a convex counter-clockwise B those are the vertices inside B or on its boundary, so a B that encloses A keeps all of A and a disjoint B keeps none of it. `Difference.DifferenceKeepsEnclosedVertices` proves both on a concrete square.
- **Difference with a non-convex B.** For a non-convex B the test is not containment at all: `Difference.NonConvexDropsInteriorVertex` shows a vertex inside a counter-clockwise notched square being dropped.
- **Order of the polygons.** An intersection of two polygons would not depend on which comes first. The code emits the point at B's parameter t along A's edge (see "## Findings"), so the point found for an edge pair depends on which polygon comes first. `Intersection.EmittedPointDependsOnOrder` shows this for one edge pair of the demo's square and triangle, which emits (3,5) in one order and (2,4) in the other.

## Model

| member | source | states |
|---|---|---|
| Geometry.Abs | PolygonValidation.cpp:12 | std::abs on a coordinate difference: non-negative and equal to the value or its negation |
| Geometry.Next | Intersection.cpp:29 | the index after k on a ring of n vertices stays below n |
| Geometry.NextIsSuccessorMod | Difference.cpp:20 | the closing-edge index used by every edge loop is (k + 1) % n |
| Geometry.Close | PolygonValidation.cpp:12 | the closeness test shared with Union.cpp:22 and Intersection.cpp:50-51: both coordinate deltas below 1e-9; ScanColumns, DedupNoCloseNeighbours and AnyClose state what each scan decides with it |
| PolygonValidation.ScanColumns | PolygonValidation.cpp:11-15 | the inner loop finds a vertex Eps-close to vertex i at some index from `from` on, exactly when one exists |
| PolygonValidation.ScanRows | PolygonValidation.cpp:10-16 | the double loop finds a pair a < b of Eps-close vertices exactly when one exists |
| PolygonValidation.Validate | PolygonValidation.cpp:5-18 | TooFewVertices exactly when there are fewer than 3 vertices; DuplicateVertex exactly when there are 3 or more and two distinct indices are Eps-close; Pass exactly when the polygon is well formed |
| PolygonValidation.OnlyDistinctIndicesCompared | PolygonValidation.cpp:11 | every point is close to itself, yet the square passes: the scan compares only j > i |
| PolygonValidation.PairSurvivesPermutation | PolygonValidation.cpp:10-16 | two distinct positions of a sequence reappear, with the same values, at two distinct positions of any permutation |
| PolygonValidation.DuplicateSurvivesPermutation | PolygonValidation.cpp:10-16 | a duplicate pair in p implies one in every permutation of p |
| PolygonValidation.ValidateIgnoresOrder | PolygonValidation.cpp:5-18 | validation gives the same outcome on every permutation of the vertices |
| PolygonValidation.ValidateAll | Union.cpp:6-8 | Pass exactly when every polygon is well formed; otherwise the failure of some polygon, every earlier polygon being well formed |
| Difference.KeepInside | Difference.cpp:12-32 | the filtered vertices are never more than A's vertices |
| Difference.ScanEdges | Difference.cpp:16-27 | the `inside` flag ends true exactly when p is on the non-negative side of every edge of B, closing edge included |
| Difference.DifferenceOfPolygons | Difference.cpp:6-35 | A's validation failure first, then B's; otherwise A's vertices that pass the half-plane test, in A's order |
| Difference.KeepInsideAppend | Difference.cpp:12-32 | filtering distributes over concatenation of A |
| Difference.KeepInsideIsSubseq | Difference.cpp:29-31 | the result is a subsequence of A |
| Difference.KeepInsideCount | Difference.cpp:29-31 | each value occurs as often as in A when it passes the test, never otherwise |
| Difference.KeepInsideMembers | Difference.cpp:16-31 | a vertex of A is in the result exactly when it is on the non-negative side of every edge of B; every result point is such a vertex of A |
| Difference.KeepInsideIdempotent | Difference.cpp:12-32 | filtering the result again with the same B changes nothing |
| Difference.DifferenceKeepsEnclosedVertices | Difference.cpp:22-23 | against an enclosing counter-clockwise square all of A is kept, against a disjoint one nothing is |
| Difference.NonConvexDropsInteriorVertex | Difference.cpp:22-23 | against a counter-clockwise B with a notch, a vertex inside B is on the negative side of the notch edge and is dropped |
| Difference.EdgeSide | Difference.cpp:18-22 | the determinant of line 22 for B's edge j, from vertex j to vertex (j + 1) mod the size of B, against the point; NonConvexDropsInteriorVertex evaluates it on the notch edge |
| Difference.OnNonNegativeSides | Difference.cpp:16-27 | the point is on the non-negative side of every edge of B, closing edge included; ScanEdges proves the early-break loop decides exactly this, and KeepInsideMembers ties it to the output |
| Union.Merge | Union.cpp:12-14 | the merged vertices are all polygons' vertices, polygon after polygon |
| Union.Flatten | Union.cpp:12-14 | all vertices of all polygons, polygon after polygon, each in its own order; Merge is proved equal to it, and FlattenMembers and FlattenLength state its contents and length |
| Union.Swap | Union.cpp:16-18 | two cells exchanged, the rest unchanged, the multiset kept |
| Union.InsertAt | Union.cpp:16-18 | one insertion round extends the sorted prefix by one, keeping the multiset and the cells after it |
| Union.SortByAngle | Union.cpp:16-18 | the array ends sorted by the angle key and is a permutation of its old contents |
| Union.Unique | Union.cpp:20-25 | the kept prefix is the last-kept compaction of the old contents |
| Union.Dedup | Union.cpp:20-23 | std::unique with the closeness test, each element compared with the last one kept; Unique is proved equal to it, and DedupIsSubseq, DedupBounds, DedupNoCloseNeighbours, DedupCovers, DedupKeepsSpread and DedupIdempotent state its properties |
| Union.MergeSortUnique | Union.cpp:12-25 | the result is the compaction of a key-sorted permutation of all merged vertices |
| Union.UnionOfPolygons | Union.cpp:5-28 | the first validation failure, or the compaction of a key-sorted permutation of all vertices |
| Union.FlattenMembers | Union.cpp:12-14 | a point is merged exactly when it is a vertex of some polygon; each polygon's multiset is included |
| Union.FlattenLength | Union.cpp:12-14 | the merged sequence is at least as long as each polygon |
| Union.DedupIsSubseq | Union.cpp:20-25 | the compaction is a subsequence of its input |
| Union.DedupBounds | Union.cpp:20-25 | the compaction is empty exactly when the input is, and otherwise keeps the first element and at most all of them |
| Union.DedupNoCloseNeighbours | Union.cpp:20-23 | no two consecutive output points are Eps-close |
| Union.DedupCovers | Union.cpp:20-25 | every input point is Eps-close to some output point |
| Union.DedupKeepsSpread | Union.cpp:20-25 | a sequence without close neighbours is left unchanged |
| Union.DedupIdempotent | Union.cpp:20-25 | compacting the output again changes nothing |
| Union.UnionPointsAreVertices | Union.cpp:10-27 | every point of the union is a vertex of some input polygon |
| Union.UnionCoversVertices | Union.cpp:10-27 | every input vertex is Eps-close to some point of the union |
| Union.UnionSortedAndSpread | Union.cpp:16-25 | the union is sorted by the angle key and has no Eps-close neighbours |
| Union.UnionSize | Union.cpp:5-28 | no polygons give an empty union; valid polygons give between 1 and the total vertex count of points |
| Intersection.RoundsSource | Intersection.cpp:22-63 | every candidate of a loop comes from one of its rounds |
| Intersection.RoundsFound | Intersection.cpp:22-63 | every candidate of each round is among the loop's candidates |
| Intersection.LaterRoundsSkipped | Intersection.cpp:24 | the rounds j <= i of the later-polygon loop contribute nothing |
| Intersection.AnyClose | Intersection.cpp:48-52 | the any_of scan from position `from` finds a point within Eps of the candidate exactly when one exists there |
| Intersection.PointExists | Intersection.cpp:47-53 | the scan of the whole result is true exactly when the candidate is Eps-close to some accumulated point |
| Intersection.AddHit | Intersection.cpp:43-58 | no candidate or a covered one leaves the result as it was; an uncovered one is appended |
| Intersection.Insert | Intersection.cpp:55-58 | the guarded append: the point is appended unless PointExists finds an Eps-close one; AddHit is proved equal to it |
| Intersection.Accumulate | Intersection.cpp:55-58 | the guarded append applied to the candidates in order; CrossRow, CrossPair, CrossLater and CrossAll are proved equal to it, and AccumulateApart, AccumulateExtends, AccumulateCovers and AccumulateIsSubseq state its properties |
| Intersection.AccumulateAppend | Intersection.cpp:22-63 | accumulating two candidate lists in a row is accumulating their concatenation |
| Intersection.AccumulateRound | Intersection.cpp:22-63 | a loop's rounds are accumulated one after another |
| Intersection.RowStep | Intersection.cpp:31-60 | one round of the innermost loop inserts the candidate of edge l |
| Intersection.PairStep | Intersection.cpp:27-61 | one round over A's edges accumulates the row of edge k |
| Intersection.LaterStart | Intersection.cpp:24 | the later-polygon loop starting at i + 1 skips nothing that would add a point |
| Intersection.LaterStep | Intersection.cpp:24-62 | one round over the later polygons accumulates polygon i against polygon j |
| Intersection.AllStep | Intersection.cpp:22-63 | one round of the outer loop accumulates polygon i against all later polygons |
| Intersection.CrossRow | Intersection.cpp:31-60 | the result is the accumulation of the candidates of edge k against every edge of B |
| Intersection.CrossPair | Intersection.cpp:27-61 | the result is the accumulation of every edge of A against every edge of B |
| Intersection.CrossLater | Intersection.cpp:24-62 | the result is the accumulation of polygon i against every later polygon |
| Intersection.CrossAll | Intersection.cpp:22-63 | the result is the accumulation of all candidates in loop order |
| Intersection.IntersectionOfPolygons | Intersection.cpp:9-66 | empty for fewer than two polygons before validating; the first validation failure; else the accumulation of every EdgeHit candidate |
| Intersection.AccumulateApart | Intersection.cpp:55-58 | no two points of the result are Eps-close |
| Intersection.AccumulateExtends | Intersection.cpp:55-58 | points already found are never removed or moved |
| Intersection.AccumulateCovers | Intersection.cpp:55-58 | every candidate is Eps-close to some point of the result |
| Intersection.AccumulateIsSubseq | Intersection.cpp:55-58 | the result is a subsequence of the candidates |
| Intersection.CandidateSource | Intersection.cpp:22-63 | every candidate is the hit of edge k of polygon i and edge l of polygon j, with i < j |
| Intersection.HitIsCandidate | Intersection.cpp:22-63 | the hit of every edge pair of polygons i < j is a candidate |
| Intersection.CandidatesAreHits | Intersection.cpp:22-63 | a point is a candidate exactly when it is the hit of an edge pair of two polygons i < j |
| Intersection.IntersectionOutput | Intersection.cpp:22-63 | the result is pairwise apart; every point is such a hit; every such hit is Eps-close to a point of the result |
| Intersection.CrossingParameters | Intersection.cpp:40-41 | s along A's edge and t along B's edge name the same point, the crossing of the lines |
| Intersection.CrossingIsUnique | Intersection.cpp:40-41 | a common point of non-parallel lines has exactly the parameters s and t |
| Intersection.EdgeHit | Intersection.cpp:35-45 | the per-edge-pair computation as written: nothing when the determinant is within 1e-9 of zero or a parameter outside [0, 1], else the point at B's parameter t along A's edge; EdgeHitMeaning, EmittedPointIsNotTheCrossing and EmittedPointDependsOnOrder state its properties |
| Intersection.EdgeHitMeaning | Intersection.cpp:35-45 | near-parallel edges give nothing; a candidate exists exactly when the closed segments meet; it is at B's parameter t along A's edge |
| Intersection.EmittedPointIsNotTheCrossing | Intersection.cpp:44-45 | on a square edge and a triangle edge crossing at (2,5) the code emits (3,5), which is not on B's edge |
| Intersection.EmittedPointDependsOnOrder | Intersection.cpp:44-45 | swapping the two edges emits (2,4) instead |
| Intersection.IntersectionAtCrossings | Intersection.cpp:9-66 | the same operation with the corrected point rule |
| Intersection.CrossingHit | Intersection.cpp:35-45 | the corrected rule of "## Findings": the same tests, the point taken at A's own parameter s; CrossingHitMeaning, CrossingHitSymmetric and CrossingHitOnExample state its properties |
| Intersection.CrossingHitMeaning | Intersection.cpp:43-45 | the corrected rule finds a point for the same edge pairs, and that point lies on both closed segments |
| Intersection.CrossingHitSymmetric | Intersection.cpp:43-45 | the corrected rule does not depend on which polygon comes first |
| Intersection.CrossingHitOnExample | Intersection.cpp:43-45 | the corrected rule emits the crossing (2,5) in both orders |
| Raster.Trunc | main.cpp:15-18 | static_cast<int>: the integer between 0 and the value, less than 1 away from it |
| Raster.ErrSteps | main.cpp:35-43 | an x step lowers the error term by dy, a y step raises it by dx |
| Raster.StepBounds | main.cpp:35-43 | once one coordinate is at its end the error term forbids stepping past it |
| Raster.TraceStep | main.cpp:26-44 | one round draws the current pixel and moves to step counts within the end, at least one of them advanced |
| Raster.Trace | main.cpp:26-44 | the pixels the loop visits from step counts (a, b) on, the last one being the end pixel; TraceStep, TraceShape and TraceLength state its properties |
| Raster.Line | main.cpp:14-45 | the pixels drawLine visits from the start to the end pixel, in order; DrawLine is proved to mark exactly its in-grid cells, and LineShape and HorizontalLine state its shape |
| Raster.TraceShape | main.cpp:26-44 | the pixels visited end at the target, go by king steps toward it and stay in the bounding box |
| Raster.OnTrackStep | main.cpp:35-43 | a step keeps Bresenham's bound on the error term and always advances the longer axis |
| Raster.TraceLength | main.cpp:26-44 | one pixel per step along the longer axis, that axis advancing every step |
| Raster.LineShape | main.cpp:14-45 | a line runs from its start to its end in max(dx, dy) + 1 pixels by king steps, the longer axis moving every step, inside the bounding box |
| Raster.HorizontalLine | main.cpp:14-45 | a horizontal line is the run of pixels from x1 to x2 on its row |
| Raster.Plot | main.cpp:27-29 | the cell at the pixel becomes '@' when inside the grid; no other cell changes |
| Raster.DrawLine | main.cpp:14-45 | every cell on the line becomes '@'; every other cell keeps its character |
| Raster.DrawOutline | main.cpp:104-108 | every cell on the closed outline of the polygon becomes '@'; no other cell changes |
| Raster.DrawPolygons | main.cpp:103-109 | every cell on the outline of some polygon becomes '@'; no other cell changes |
| Raster.Outline | main.cpp:104-108 | the pixels of the lines of the first n edges of the closed outline, edge i running from vertex i to vertex (i + 1) % n; DrawOutline marks exactly these, and OutlineHasEdges, OutlineSource and DegenerateOutlines state its contents |
| Raster.Outlines | main.cpp:103-109 | the outlines of the first n polygons, one after another; DrawPolygons marks exactly these, and OutlinesHasPolygon states that each polygon's outline is among them |
| Raster.OutlineHasEdges | main.cpp:104-108 | every vertex and every pixel of every edge's line is on the outline |
| Raster.OutlineSource | main.cpp:104-108 | every outline pixel lies on the line of one of the polygon's edges |
| Raster.DegenerateOutlines | main.cpp:112-116 | a one-point result draws that point alone; an empty one draws nothing |
| MainProgram.UnionOfPolygons | main.cpp:48-70 | without validation, the compaction of a key-sorted permutation of all vertices; it calls the same Union.MergeSortUnique as Union.UnionOfPolygons, so on valid input both return the same sequence |
| MainProgram.Scene | main.cpp:95-116 | a fresh 20 by 20 grid where a cell is '@' exactly when it lies on some polygon's outline or the union's outline, and '.' otherwise |
| MainProgram.SceneShowsVertices | main.cpp:103-109 | every vertex's pixel lies on the drawn outlines, so by Scene its cell is '@' whenever it is inside the grid |
| MainProgram.OutlinesHasPolygon | main.cpp:103-109 | each polygon's outline is part of the drawn outlines |

## Left out

- Floating point: coordinates are exact reals, so IEEE rounding in the determinants, the divisions and the 1e-9 comparisons is not modelled.
- atan2 is not modelled. The union takes the sort key as a parameter, so the behaviour at the origin, where atan2(0, 0) is 0, is not tied to any value.
- The OpenMP fan-out of the intersection loop (more than 10 polygons) is modelled as the sequential loop. The interleavings of the critical section are not modelled, and neither is the ordering nondeterminism between threads.
- `std::sort` is modelled by one particular algorithm, insertion sort. Its contract states only what `std::sort` promises, so the order among equal keys is left open and returned as a ghost value.
- `std::unique`'s tail, which is unspecified, is not modelled: only the kept prefix is read before `erase`, as the source does.
- Difference.cpp reads A[(i + 1) % |A|] in every round and never uses it; the model leaves that read out.
- visualizeGrid (main.cpp:73-80) and GridVisualization.cpp only print the grid; printing is left out.
- main()'s hard-coded polygons are inputs of `MainProgram.Scene`, not constants.
- Line drawing uses unbounded integers. The 32-bit `int` casts and the `2 * err` product can overflow in the source for endpoint differences beyond about 2^30, or coordinates outside the 32-bit range, and that overflow is not modelled.
- Raster.Plot: the grid is a rectangular `array2`. The source's grid is a vector of rows that may differ in length, and main.cpp:27 tests x1 only against the width of row 0. On a ragged grid the source would write past the end of a shorter row and never draw beyond row 0's width on a longer one; that behaviour is not modelled. main.cpp:100 always builds a square grid.
- A grid with no rows makes `grid[0]` undefined behaviour in the source. The model uses the grid's column count there, so nothing is drawn.
- The headers only declare these functions and are not modelled.

## Findings

| source | as written | input that shows it | evidently intended | confidence | as-written member | corrected member |
|---|---|---|---|---|---|---|
| Intersection.cpp:44-45 | the emitted point is `p1A + t·(p2A − p1A)`, B's parameter t applied along A's edge | edge (0,5)→(5,5) of the square against edge (2,2)→(2,7) of the triangle: s = 0.4, t = 0.6, the segments cross at (2,5), the code emits (3,5) | `p1A + s·(p2A − p1A)`, the crossing itself, which also makes the result independent of polygon order | high, by proof; not executed | Intersection.EmittedPointIsNotTheCrossing | Intersection.CrossingHitMeaning |
