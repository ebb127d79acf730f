/** The driver of main.cpp: its own unvalidated unionOfPolygons and the picture it draws. */
module MainProgram {
  import opened Geometry
  import opened Subsequences
  import Union
  import opened Raster

  /** The side of the square grid main.cpp:98 draws on. */
  const GridSize: nat := 20

  /** main.cpp's unionOfPolygons: the merge, sort and compaction of Union.cpp without the validation,
      so every input, degenerate polygons included, gives a result. */
  method UnionOfPolygons(ps: seq<seq<Point>>, angle: Point -> real) returns (r: seq<Point>, ghost sorted: seq<Point>)
    ensures multiset(sorted) == multiset(Union.Flatten(ps))
    ensures SortedBy(sorted, angle)
    ensures r == Union.Dedup(sorted)
  {
    r, sorted := Union.MergeSortUnique(ps, angle);
  }

  /** main.cpp:95-116 on given polygons: the union is computed, a GridSize by GridSize grid of '.' is
      made, every polygon's outline is drawn and then the outline of the union. A cell ends up '@'
      exactly when it lies on one of those outlines. */
  method Scene(ps: seq<seq<Point>>, angle: Point -> real) returns (grid: array2<char>, result: seq<Point>, ghost sorted: seq<Point>)
    ensures fresh(grid) && grid.Length0 == GridSize && grid.Length1 == GridSize
    ensures multiset(sorted) == multiset(Union.Flatten(ps)) && SortedBy(sorted, angle)
    ensures result == Union.Dedup(sorted)
    ensures forall r, c :: 0 <= r < GridSize && 0 <= c < GridSize ==>
      grid[r, c] == if Pixel(c, r) in Outlines(ps, |ps|) || Pixel(c, r) in Outline(result, |result|) then '@' else '.'
  {
    result, sorted := UnionOfPolygons(ps, angle);
    grid := new char[GridSize, GridSize]((r, c) => '.');
    DrawPolygons(grid, ps);
    DrawOutline(grid, result);
  }

  /** The pixel of every vertex of every polygon lies on the drawn outlines, so Scene marks it
      whenever it falls inside the grid. */
  lemma SceneShowsVertices(ps: seq<seq<Point>>, i: nat, k: nat)
    requires i < |ps| && k < |ps[i]|
    ensures Corner(ps[i][k]) in Outlines(ps, |ps|)
  {
    OutlineHasEdges(ps[i], |ps[i]|, k);
    OutlinesHasPolygon(ps, |ps|, i);
  }

  /** The outline of polygon i is part of the outlines of every longer prefix of the list. */
  lemma {:induction false} OutlinesHasPolygon(ps: seq<seq<Point>>, n: nat, i: nat)
    requires i < n <= |ps|
    ensures forall p :: p in Outline(ps[i], |ps[i]|) ==> p in Outlines(ps, n)
  {
    if i < n - 1 {
      OutlinesHasPolygon(ps, n - 1, i);
    }
  }
}
