/** drawLine and the outline loops of main.cpp: Bresenham's algorithm marking '@' cells of a
    character grid, and the closed outlines of polygons drawn edge by edge. */
module Raster {
  import opened Geometry

  /** static_cast<int> of a coordinate: truncation toward zero. */
  function Trunc(r: real): (n: int)
    ensures 0.0 <= r ==> 0 <= n && n as real <= r < n as real + 1.0
    ensures r < 0.0 ==> n <= 0 && n as real - 1.0 < r <= n as real
  {
    if r >= 0.0 then r.Floor else -((-r).Floor)
  }

  /** A grid cell: column x, row y. */
  datatype Pixel = Pixel(x: int, y: int)

  /** The pixel a vertex is drawn at (main.cpp:15-18). */
  function Corner(p: Point): Pixel {
    Pixel(Trunc(p.x), Trunc(p.y))
  }

  /** std::abs(v - u). */
  function Dist(u: int, v: int): nat {
    if u <= v then v - u else u - v
  }

  /** The step direction of main.cpp:22-23: +1 toward a larger end, otherwise -1. */
  function Dir(u: int, v: int): int {
    if u < v then 1 else -1
  }

  /** The error term after a steps along x and b steps along y (it starts at dx - dy, loses dy per
      x step and gains dx per y step). */
  function Err(dx: int, dy: int, a: int, b: int): int {
    dx * (1 + b) - dy * (1 + a)
  }

  /** The x step of main.cpp:36-39 is taken. */
  predicate StepX(dx: int, dy: int, a: int, b: int) {
    2 * Err(dx, dy, a, b) > -dy
  }

  /** The y step of main.cpp:40-43 is taken. */
  predicate StepY(dx: int, dy: int, a: int, b: int) {
    2 * Err(dx, dy, a, b) < dx
  }

  /** The coordinate reached from u after a steps toward v. */
  function Toward(u: int, v: int, a: int): int {
    if u < v then u + a else u - a
  }

  /** The x step count after one round of the loop. */
  function NextA(dx: int, dy: int, a: int, b: int): int {
    if StepX(dx, dy, a, b) then a + 1 else a
  }

  /** The y step count after one round of the loop. */
  function NextB(dx: int, dy: int, a: int, b: int): int {
    if StepY(dx, dy, a, b) then b + 1 else b
  }

  /** The pixel reached from s toward t after a steps along x and b steps along y. */
  function At(s: Pixel, t: Pixel, a: int, b: int): Pixel {
    Pixel(Toward(s.x, t.x, a), Toward(s.y, t.y, b))
  }

  /** Each step changes the error term by a fixed amount. */
  lemma ErrSteps(dx: int, dy: int, a: int, b: int)
    ensures Err(dx, dy, a + 1, b) == Err(dx, dy, a, b) - dy
    ensures Err(dx, dy, a, b + 1) == Err(dx, dy, a, b) + dx
    ensures Err(dx, dy, a + 1, b + 1) == Err(dx, dy, a, b) + dx - dy
  {
  }

  lemma ErrAtEnd(dx: int, dy: int, m: int, b: int)
    requires m == dy - 1 - b
    ensures Err(dx, dy, dx, b) == -dy - dx * m
  {
  }

  lemma NonNegative(u: nat, v: nat)
    ensures u * v >= 0
  {
  }

  /** Once one coordinate has reached its end, the error term forbids stepping past it. */
  lemma StepBounds(dx: nat, dy: nat, a: nat, b: nat)
    requires a <= dx && b <= dy
    ensures a == dx && b < dy ==> 2 * Err(dx, dy, a, b) <= -2 * dy
    ensures b == dy && a < dx ==> 2 * Err(dx, dy, a, b) >= 2 * dx
  {
    if a == dx && b < dy {
      ErrAtEnd(dx, dy, dy - 1 - b, b);
      NonNegative(dx, dy - 1 - b);
    }
    if b == dy && a < dx {
      ErrAtEnd(dy, dx, dx - 1 - a, a);
      NonNegative(dy, dx - 1 - a);
      assert Err(dx, dy, a, b) == -Err(dy, dx, b, a);
    }
  }

  /** The pixels the loop of main.cpp:26-44 visits from step counts (a, b) on, the last one being t. */
  ghost function Trace(s: Pixel, t: Pixel, a: nat, b: nat): seq<Pixel>
    requires a <= Dist(s.x, t.x) && b <= Dist(s.y, t.y)
    decreases Dist(s.x, t.x) - a + Dist(s.y, t.y) - b
  {
    var dx, dy := Dist(s.x, t.x), Dist(s.y, t.y);
    if a == dx && b == dy then [At(s, t, a, b)]
    else
      StepBounds(dx, dy, a, b);
      [At(s, t, a, b)] + Trace(s, t, NextA(dx, dy, a, b), NextB(dx, dy, a, b))
  }

  /** One round of the loop: the current pixel, then the pixels from the next step counts on. */
  lemma TraceStep(s: Pixel, t: Pixel, a: nat, b: nat)
    requires a <= Dist(s.x, t.x) && b <= Dist(s.y, t.y) && !(a == Dist(s.x, t.x) && b == Dist(s.y, t.y))
    ensures var dx, dy := Dist(s.x, t.x), Dist(s.y, t.y);
      && a <= NextA(dx, dy, a, b) <= dx && b <= NextB(dx, dy, a, b) <= dy
      && (NextA(dx, dy, a, b), NextB(dx, dy, a, b)) != (a, b)
      && Trace(s, t, a, b) == [At(s, t, a, b)] + Trace(s, t, NextA(dx, dy, a, b), NextB(dx, dy, a, b))
  {
    StepBounds(Dist(s.x, t.x), Dist(s.y, t.y), a, b);
  }

  /** The pixels drawLine visits from s to t, in order. */
  ghost function Line(s: Pixel, t: Pixel): seq<Pixel> {
    Trace(s, t, 0, 0)
  }

  /** q is one king move from p, each coordinate moving by 0 or by its direction, not both by 0. */
  predicate KingStep(p: Pixel, q: Pixel, sx: int, sy: int) {
    (q.x == p.x || q.x == p.x + sx) && (q.y == p.y || q.y == p.y + sy) && p != q
  }

  /** p lies in the bounding box of s and t. */
  predicate InBox(p: Pixel, s: Pixel, t: Pixel) {
    (s.x <= p.x <= t.x || t.x <= p.x <= s.x) && (s.y <= p.y <= t.y || t.y <= p.y <= s.y)
  }

  /** The visited pixels end at t, move by king steps toward t and stay in the bounding box. */
  lemma {:induction false} TraceShape(s: Pixel, t: Pixel, a: nat, b: nat)
    requires a <= Dist(s.x, t.x) && b <= Dist(s.y, t.y)
    ensures var tr := Trace(s, t, a, b);
      && |tr| >= 1 && tr[0] == At(s, t, a, b) && tr[|tr| - 1] == t
      && (forall i :: 0 <= i < |tr| - 1 ==> KingStep(tr[i], tr[i + 1], Dir(s.x, t.x), Dir(s.y, t.y)))
      && (forall i :: 0 <= i < |tr| ==> InBox(tr[i], s, t))
    decreases Dist(s.x, t.x) - a + Dist(s.y, t.y) - b
  {
    var dx, dy := Dist(s.x, t.x), Dist(s.y, t.y);
    var tr := Trace(s, t, a, b);
    if a == dx && b == dy {
      assert tr == [At(s, t, a, b)];
    } else {
      StepBounds(dx, dy, a, b);
      var a', b' := NextA(dx, dy, a, b), NextB(dx, dy, a, b);
      var rest := Trace(s, t, a', b');
      TraceShape(s, t, a', b');
      assert tr == [At(s, t, a, b)] + rest;
      assert KingStep(tr[0], tr[1], Dir(s.x, t.x), Dir(s.y, t.y));
      forall i | 0 <= i < |tr| - 1
        ensures KingStep(tr[i], tr[i + 1], Dir(s.x, t.x), Dir(s.y, t.y))
      {
        if i > 0 {
          assert tr[i] == rest[i - 1] && tr[i + 1] == rest[i];
        }
      }
      forall i | 0 <= i < |tr|
        ensures InBox(tr[i], s, t)
      {
        if i > 0 {
          assert tr[i] == rest[i - 1];
        }
      }
    }
  }

  /** Bresenham's bound on the error term: while the longer axis has not reached its end, the error
      term stays in a window that makes the loop step along that axis every time. */
  predicate OnTrack(dx: int, dy: int, a: int, b: int) {
    var d := 2 * Err(dx, dy, a, b);
    if dx >= dy then
      (a < dx ==> dx - 2 * dy <= d < 3 * dx - 2 * dy && d > -dy) && (a == dx ==> b == dy)
    else
      (b < dy ==> 2 * dx - 3 * dy < d <= 2 * dx - dy && d < dx) && (b == dy ==> a == dx)
  }

  /** The loop keeps OnTrack. */
  lemma OnTrackStep(dx: nat, dy: nat, a: nat, b: nat)
    requires a <= dx && b <= dy && !(a == dx && b == dy) && OnTrack(dx, dy, a, b)
    ensures var a', b' := NextA(dx, dy, a, b), NextB(dx, dy, a, b);
      a' <= dx && b' <= dy && OnTrack(dx, dy, a', b')
      && (dx >= dy ==> a' == a + 1) && (dx < dy ==> b' == b + 1)
  {
    var d := 2 * Err(dx, dy, a, b);
    ErrSteps(dx, dy, a, b);
    StepBounds(dx, dy, a, b);
    var a', b' := NextA(dx, dy, a, b), NextB(dx, dy, a, b);
    StepBounds(dx, dy, a', b');
  }

  /** The loop draws one pixel per step along the longer axis: max(dx, dy) + 1 in all from the start. */
  lemma {:induction false} TraceLength(s: Pixel, t: Pixel, a: nat, b: nat)
    requires a <= Dist(s.x, t.x) && b <= Dist(s.y, t.y) && OnTrack(Dist(s.x, t.x), Dist(s.y, t.y), a, b)
    ensures var dx, dy := Dist(s.x, t.x), Dist(s.y, t.y);
      |Trace(s, t, a, b)| == if dx >= dy then dx - a + 1 else dy - b + 1
    ensures var dx, dy, tr := Dist(s.x, t.x), Dist(s.y, t.y), Trace(s, t, a, b);
      forall i :: 0 <= i < |tr| - 1 ==>
        (dx >= dy ==> tr[i + 1].x == tr[i].x + Dir(s.x, t.x)) && (dx < dy ==> tr[i + 1].y == tr[i].y + Dir(s.y, t.y))
    decreases Dist(s.x, t.x) - a + Dist(s.y, t.y) - b
  {
    var dx, dy := Dist(s.x, t.x), Dist(s.y, t.y);
    var tr := Trace(s, t, a, b);
    if !(a == dx && b == dy) {
      OnTrackStep(dx, dy, a, b);
      var a', b' := NextA(dx, dy, a, b), NextB(dx, dy, a, b);
      var rest := Trace(s, t, a', b');
      TraceLength(s, t, a', b');
      TraceShape(s, t, a', b');
      assert tr == [At(s, t, a, b)] + rest;
      forall i | 0 <= i < |tr| - 1
        ensures (dx >= dy ==> tr[i + 1].x == tr[i].x + Dir(s.x, t.x)) && (dx < dy ==> tr[i + 1].y == tr[i].y + Dir(s.y, t.y))
      {
        if i > 0 {
          assert tr[i] == rest[i - 1] && tr[i + 1] == rest[i];
        } else {
          assert tr[1] == rest[0] == At(s, t, a', b');
        }
      }
    }
  }

  /** A line runs from s to t in max(dx, dy) + 1 king steps toward t, one step along the longer axis
      at a time, without leaving the bounding box. */
  lemma LineShape(s: Pixel, t: Pixel)
    ensures var l, dx, dy := Line(s, t), Dist(s.x, t.x), Dist(s.y, t.y);
      && |l| == (if dx >= dy then dx else dy) + 1
      && l[0] == s && l[|l| - 1] == t
      && (forall i :: 0 <= i < |l| - 1 ==> KingStep(l[i], l[i + 1], Dir(s.x, t.x), Dir(s.y, t.y)))
      && (forall i :: 0 <= i < |l| - 1 ==>
            (dx >= dy ==> l[i + 1].x == l[i].x + Dir(s.x, t.x)) && (dx < dy ==> l[i + 1].y == l[i].y + Dir(s.y, t.y)))
      && (forall i :: 0 <= i < |l| ==> InBox(l[i], s, t))
  {
    var dx, dy := Dist(s.x, t.x), Dist(s.y, t.y);
    ErrSteps(dx, dy, 0, 0);
    assert OnTrack(dx, dy, 0, 0);
    TraceShape(s, t, 0, 0);
    TraceLength(s, t, 0, 0);
  }

  /** A horizontal line is the run of pixels from s.x to t.x on row s.y. */
  lemma HorizontalLine(s: Pixel, t: Pixel)
    requires s.y == t.y
    ensures |Line(s, t)| == Dist(s.x, t.x) + 1
    ensures forall i :: 0 <= i < |Line(s, t)| ==> Line(s, t)[i] == Pixel(Toward(s.x, t.x, i), s.y)
  {
    var l := Line(s, t);
    LineShape(s, t);
    var i := 0;
    while i < |l|
      invariant 0 <= i <= |l|
      invariant forall j :: 0 <= j < i ==> l[j] == Pixel(Toward(s.x, t.x, j), s.y)
    {
      if i > 0 {
        assert InBox(l[i], s, t) && l[i].x == l[i - 1].x + Dir(s.x, t.x);
      }
      i := i + 1;
    }
  }

  /** The guarded write of main.cpp:28-30: the cell at p becomes '@' when it is inside the grid. */
  method Plot(grid: array2<char>, p: Pixel)
    modifies grid
    ensures forall r, c :: 0 <= r < grid.Length0 && 0 <= c < grid.Length1 ==>
      grid[r, c] == if Pixel(c, r) == p then '@' else old(grid[r, c])
  {
    if 0 <= p.x < grid.Length1 && 0 <= p.y < grid.Length0 {
      grid[p.y, p.x] := '@';
    }
  }

  /** drawLine (main.cpp:14-45): every cell of the grid on the line from p1 to p2 becomes '@'; every
      other cell keeps its character; pixels outside the grid are skipped. */
  method DrawLine(grid: array2<char>, p1: Point, p2: Point)
    modifies grid
    ensures forall r, c :: 0 <= r < grid.Length0 && 0 <= c < grid.Length1 ==>
      grid[r, c] == if Pixel(c, r) in Line(Corner(p1), Corner(p2)) then '@' else old(grid[r, c])
  {
    var x1, y1 := Trunc(p1.x), Trunc(p1.y);
    var x2, y2 := Trunc(p2.x), Trunc(p2.y);
    ghost var s, t := Pixel(x1, y1), Pixel(x2, y2);
    var dx, dy := Dist(x1, x2), Dist(y1, y2);
    var sx, sy := Dir(x1, x2), Dir(y1, y2);
    var err := dx - dy;
    ghost var a: nat, b: nat := 0, 0;
    ghost var drawn: seq<Pixel> := [];
    while true
      invariant a <= dx && b <= dy
      invariant Pixel(x1, y1) == At(s, t, a, b)
      invariant err == Err(dx, dy, a, b)
      invariant drawn + Trace(s, t, a, b) == Line(s, t)
      invariant forall r, c :: 0 <= r < grid.Length0 && 0 <= c < grid.Length1 ==>
        grid[r, c] == if Pixel(c, r) in drawn then '@' else old(grid[r, c])
      decreases dx - a + dy - b
    {
      Plot(grid, Pixel(x1, y1));
      ghost var before := drawn;
      drawn := drawn + [Pixel(x1, y1)];
      if x1 == x2 && y1 == y2 {
        assert Trace(s, t, a, b) == [Pixel(x1, y1)];
        break;
      }
      TraceStep(s, t, a, b);
      ErrSteps(dx, dy, a, b);
      ghost var a', b' := NextA(dx, dy, a, b), NextB(dx, dy, a, b);
      var e2 := 2 * err;
      if e2 > -dy {
        err := err - dy;
        x1 := x1 + sx;
      }
      if e2 < dx {
        err := err + dx;
        y1 := y1 + sy;
      }
      a, b := a', b';
      assert drawn + Trace(s, t, a, b) == before + ([drawn[|before|]] + Trace(s, t, a, b));
    }
  }

  /** The pixels of edges 0..n-1 of the closed outline of poly; edge i runs from vertex i to vertex
      (i + 1) % |poly|. */
  ghost function Outline(poly: seq<Point>, n: nat): seq<Pixel>
    requires n <= |poly|
  {
    if n == 0 then [] else Outline(poly, n - 1) + Line(Corner(poly[n - 1]), Corner(poly[Next(n - 1, |poly|)]))
  }

  /** The pixels of the outlines of polygons 0..n-1. */
  ghost function Outlines(ps: seq<seq<Point>>, n: nat): seq<Pixel>
    requires n <= |ps|
  {
    if n == 0 then [] else Outlines(ps, n - 1) + Outline(ps[n - 1], |ps[n - 1]|)
  }

  /** The edge loop of main.cpp:104-108 and 112-116: every edge of the closed outline of poly is
      drawn, so exactly the cells on the outline become '@'. */
  method DrawOutline(grid: array2<char>, poly: seq<Point>)
    modifies grid
    ensures forall r, c :: 0 <= r < grid.Length0 && 0 <= c < grid.Length1 ==>
      grid[r, c] == if Pixel(c, r) in Outline(poly, |poly|) then '@' else old(grid[r, c])
  {
    var i := 0;
    while i < |poly|
      invariant 0 <= i <= |poly|
      invariant forall r, c :: 0 <= r < grid.Length0 && 0 <= c < grid.Length1 ==>
        grid[r, c] == if Pixel(c, r) in Outline(poly, i) then '@' else old(grid[r, c])
    {
      DrawLine(grid, poly[i], poly[Next(i, |poly|)]);
      i := i + 1;
    }
  }

  /** The polygon loop of main.cpp:103-109: the outline of every polygon is drawn. */
  method DrawPolygons(grid: array2<char>, ps: seq<seq<Point>>)
    modifies grid
    ensures forall r, c :: 0 <= r < grid.Length0 && 0 <= c < grid.Length1 ==>
      grid[r, c] == if Pixel(c, r) in Outlines(ps, |ps|) then '@' else old(grid[r, c])
  {
    var i := 0;
    while i < |ps|
      invariant 0 <= i <= |ps|
      invariant forall r, c :: 0 <= r < grid.Length0 && 0 <= c < grid.Length1 ==>
        grid[r, c] == if Pixel(c, r) in Outlines(ps, i) then '@' else old(grid[r, c])
    {
      DrawOutline(grid, ps[i]);
      i := i + 1;
    }
  }

  /** Every vertex of poly is on its outline, and so is the whole line of every edge. */
  lemma {:induction false} OutlineHasEdges(poly: seq<Point>, n: nat, i: nat)
    requires i < n <= |poly|
    ensures forall p :: p in Line(Corner(poly[i]), Corner(poly[Next(i, |poly|)])) ==> p in Outline(poly, n)
    ensures Corner(poly[i]) in Outline(poly, n)
  {
    LineShape(Corner(poly[i]), Corner(poly[Next(i, |poly|)]));
    if i < n - 1 {
      OutlineHasEdges(poly, n - 1, i);
    }
  }

  /** Every pixel of an outline lies on the line of one of its edges. */
  lemma {:induction false} OutlineSource(poly: seq<Point>, n: nat, p: Pixel) returns (i: nat)
    requires n <= |poly| && p in Outline(poly, n)
    ensures i < n && p in Line(Corner(poly[i]), Corner(poly[Next(i, |poly|)]))
  {
    if p in Outline(poly, n - 1) {
      i := OutlineSource(poly, n - 1, p);
    } else {
      i := n - 1;
    }
  }

  /** A polygon with one vertex draws just that vertex's pixel; one with none draws nothing. */
  lemma DegenerateOutlines(p: Point)
    ensures Outline([p], 1) == [Corner(p)]
    ensures Outline([], 0) == []
  {
    assert Line(Corner(p), Corner(p)) == [Corner(p)];
  }
}
