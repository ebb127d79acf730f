/** differenceOfPolygons (Difference.cpp): the vertices of A that lie on the non-negative side of
    every edge of B, in A's order. */
module Difference {
  import opened Geometry
  import opened PolygonValidation
  import opened Subsequences

  /** The determinant of Difference.cpp:22 for B's edge j (closing edge included) and the point p. */
  function EdgeSide(b: seq<Point>, j: nat, p: Point): real
    requires j < |b|
  {
    Orient(b[j], b[Next(j, |b|)], p)
  }

  /** p is on the non-negative side of every edge of b. */
  predicate OnNonNegativeSides(p: Point, b: seq<Point>) {
    forall j :: 0 <= j < |b| ==> EdgeSide(b, j, p) >= 0.0
  }

  /** The vertices of a that pass the half-plane test against b, in their original order. */
  function KeepInside(a: seq<Point>, b: seq<Point>): (r: seq<Point>)
    ensures |r| <= |a|
  {
    if |a| == 0 then []
    else KeepInside(a[..|a| - 1], b) + (if OnNonNegativeSides(a[|a| - 1], b) then [a[|a| - 1]] else [])
  }

  /** The inner loop of Difference.cpp:16-27: the `inside` flag, cleared with an early exit at the
      first edge of b that has p on its negative side. */
  method ScanEdges(p: Point, b: seq<Point>) returns (inside: bool)
    ensures inside <==> OnNonNegativeSides(p, b)
  {
    inside := true;
    var j := 0;
    while j < |b|
      invariant 0 <= j <= |b|
      invariant inside
      invariant forall k :: 0 <= k < j ==> EdgeSide(b, k, p) >= 0.0
    {
      var pB := b[j];
      var pNextB := b[Next(j, |b|)];
      var det := (pNextB.x - pB.x) * (p.y - pB.y) - (p.x - pB.x) * (pNextB.y - pB.y);
      if det < 0.0 {
        assert EdgeSide(b, j, p) < 0.0;
        inside := false;
        break;
      }
      j := j + 1;
    }
  }

  /** differenceOfPolygons: validate A, then B, then filter A's vertices. The source also reads
      A[(i + 1) % |A|] in each round but never uses it; the model leaves that read out. */
  method DifferenceOfPolygons(a: seq<Point>, b: seq<Point>) returns (r: Result<seq<Point>>)
    ensures Validate(a).Fail? ==> r == Failure(Validate(a).error)
    ensures Validate(a) == Pass && Validate(b).Fail? ==> r == Failure(Validate(b).error)
    ensures Validate(a) == Pass && Validate(b) == Pass ==> r == Success(KeepInside(a, b))
  {
    var va := Validate(a);
    if va.Fail? {
      return Failure(va.error);
    }
    var vb := Validate(b);
    if vb.Fail? {
      return Failure(vb.error);
    }
    var result := [];
    var i := 0;
    while i < |a|
      invariant 0 <= i <= |a|
      invariant result == KeepInside(a[..i], b)
    {
      var p1A := a[i];
      var inside := ScanEdges(p1A, b);
      assert a[..i + 1][..i] == a[..i];
      if inside {
        result := result + [p1A];
      }
      i := i + 1;
    }
    assert a[..|a|] == a;
    return Success(result);
  }

  /** Whether a vertex is kept depends on that vertex and b alone: filtering distributes over
      concatenation. */
  lemma {:induction false} KeepInsideAppend(a1: seq<Point>, a2: seq<Point>, b: seq<Point>)
    ensures KeepInside(a1 + a2, b) == KeepInside(a1, b) + KeepInside(a2, b)
    decreases |a2|
  {
    if |a2| == 0 {
      assert a1 + a2 == a1;
    } else {
      var a2' := a2[..|a2| - 1];
      assert (a1 + a2)[..|a1 + a2| - 1] == a1 + a2';
      KeepInsideAppend(a1, a2', b);
    }
  }

  /** The output is a subsequence of A: its vertices, in their original order. */
  lemma {:induction false} KeepInsideIsSubseq(a: seq<Point>, b: seq<Point>)
    ensures IsSubseq(KeepInside(a, b), a)
  {
    if |a| > 0 {
      var a' := a[..|a| - 1];
      var x := a[|a| - 1];
      assert a == a' + [x];
      KeepInsideIsSubseq(a', b);
      if OnNonNegativeSides(x, b) {
        SubseqKeep(KeepInside(a', b), a', x);
      } else {
        assert KeepInside(a, b) == KeepInside(a', b);
        SubseqSkip(KeepInside(a', b), a', x);
      }
    }
  }

  /** Each value occurs in the output exactly as often as in A if it passes the test, else never. */
  lemma {:induction false} KeepInsideCount(a: seq<Point>, b: seq<Point>, x: Point)
    ensures multiset(KeepInside(a, b))[x] == if OnNonNegativeSides(x, b) then multiset(a)[x] else 0
  {
    if |a| > 0 {
      var a' := a[..|a| - 1];
      assert a == a' + [a[|a| - 1]];
      KeepInsideCount(a', b, x);
    }
  }

  /** A vertex of A is in the output exactly when it is on the non-negative side of every edge of B. */
  lemma KeepInsideMembers(a: seq<Point>, b: seq<Point>)
    ensures forall i :: 0 <= i < |a| ==> (a[i] in KeepInside(a, b) <==> OnNonNegativeSides(a[i], b))
    ensures forall x :: x in KeepInside(a, b) ==> x in a && OnNonNegativeSides(x, b)
  {
    forall x
      ensures x in KeepInside(a, b) <==> x in a && OnNonNegativeSides(x, b)
    {
      KeepInsideCount(a, b, x);
    }
  }

  /** Filtering the output again with the same B returns it unchanged. */
  lemma {:induction false} KeepInsideIdempotent(a: seq<Point>, b: seq<Point>)
    ensures KeepInside(KeepInside(a, b), b) == KeepInside(a, b)
  {
    if |a| > 0 {
      var a' := a[..|a| - 1];
      var x := a[|a| - 1];
      var tail := if OnNonNegativeSides(x, b) then [x] else [];
      KeepInsideIdempotent(a', b);
      KeepInsideAppend(KeepInside(a', b), tail, b);
      if OnNonNegativeSides(x, b) {
        assert tail[..0] == [];
      }
    }
  }

  /** The square [(0,0),(0,5),(5,5),(5,0)] of the demo program. */
  function Square(): seq<Point> {
    [Point(0.0, 0.0), Point(0.0, 5.0), Point(5.0, 5.0), Point(5.0, 0.0)]
  }

  /** Against a counter-clockwise square that encloses A, every vertex of A is kept; against a
      disjoint one, none is. The test keeps the vertices of A that lie inside B. */
  lemma DifferenceKeepsEnclosedVertices()
    ensures KeepInside(Square(), [Point(-10.0, -10.0), Point(10.0, -10.0), Point(10.0, 10.0), Point(-10.0, 10.0)])
            == Square()
    ensures KeepInside(Square(), [Point(20.0, 20.0), Point(30.0, 20.0), Point(30.0, 30.0), Point(20.0, 30.0)])
            == []
  {
    var big := [Point(-10.0, -10.0), Point(10.0, -10.0), Point(10.0, 10.0), Point(-10.0, 10.0)];
    var far := [Point(20.0, 20.0), Point(30.0, 20.0), Point(30.0, 30.0), Point(20.0, 30.0)];
    var a := Square();
    forall i | 0 <= i < |a|
      ensures OnNonNegativeSides(a[i], big) && !OnNonNegativeSides(a[i], far)
    {
      assert EdgeSide(far, 0, a[i]) < 0.0;
    }
    assert a[..1] == [a[0]] && a[..2] == a[..1] + [a[1]] && a[..3] == a[..2] + [a[2]];
    assert KeepInside(a[..1], big) == [a[0]];
    assert KeepInside(a[..2], big) == a[..2];
    assert KeepInside(a[..3], big) == a[..3];
    assert KeepInside(a[..1], far) == [];
    assert KeepInside(a[..2], far) == [];
    assert KeepInside(a[..3], far) == [];
  }

  /** A counter-clockwise but non-convex B, a square with a notch cut down to (2,1) from its top edge:
      the vertex (0.5,0.5), inside B, is on the negative side of the notch edge (4,4)→(2,1), so it is
      dropped. The test keeps "inside B" only for a convex B. */
  lemma NonConvexDropsInteriorVertex()
    ensures var b := [Point(0.0, 0.0), Point(4.0, 0.0), Point(4.0, 4.0), Point(2.0, 1.0), Point(0.0, 4.0)];
      EdgeSide(b, 2, Point(0.5, 0.5)) == -3.5 && KeepInside([Point(0.5, 0.5)], b) == []
  {
    var b := [Point(0.0, 0.0), Point(4.0, 0.0), Point(4.0, 4.0), Point(2.0, 1.0), Point(0.0, 4.0)];
    var a := [Point(0.5, 0.5)];
    assert EdgeSide(b, 2, a[0]) == -3.5;
    assert a[..0] == [];
  }
}
