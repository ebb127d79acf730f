/** Points, the coordinate tolerance and the 2D cross product shared by every engine. */
module Geometry {

  /** A point of the plane (main.cpp:7-11). The source stores two doubles; the model uses exact reals. */
  datatype Point = Point(x: real, y: real)

  /** The absolute tolerance 1e-9 used by every coordinate comparison. */
  const Eps: real := 0.000000001

  /** Absolute value of a real (std::abs on a double, without rounding). */
  function Abs(r: real): (a: real)
    ensures a >= 0.0
    ensures a == r || a == -r
  {
    if r < 0.0 then -r else r
  }

  /** Two points count as the same when both coordinate deltas are below Eps. */
  predicate Close(p: Point, q: Point) {
    Abs(p.x - q.x) < Eps && Abs(p.y - q.y) < Eps
  }

  /** v is Eps-close to some point of u. */
  ghost predicate CoveredBy(v: Point, u: seq<Point>) {
    exists k :: 0 <= k < |u| && Close(v, u[k])
  }

  /** No two points of u at distinct indices are Eps-close. */
  ghost predicate PairwiseApart(u: seq<Point>) {
    forall i, j :: 0 <= i < j < |u| ==> !Close(u[i], u[j])
  }

  /** 2D cross product (b - a) × (p - a): non-negative when p is on the left of, or on, the line a→b. */
  function Orient(a: Point, b: Point, p: Point): real {
    (b.x - a.x) * (p.y - a.y) - (p.x - a.x) * (b.y - a.y)
  }

  /** The index after k on a closed ring of n vertices: the (k + 1) % n of the edge loops. */
  function Next(k: nat, n: nat): (r: nat)
    requires k < n
    ensures r < n
  {
    if k + 1 == n then 0 else k + 1
  }

  /** Next is the successor modulo n. */
  lemma NextIsSuccessorMod(k: nat, n: nat)
    requires k < n
    ensures Next(k, n) == (k + 1) % n
  {
  }
}
