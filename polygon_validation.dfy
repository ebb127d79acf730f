/** validatePolygonVertices (PolygonValidation.cpp) and the validation of a list of polygons done
    at the start of every engine. */
module PolygonValidation {
  import opened Geometry

  /** The two causes of the std::invalid_argument thrown by validatePolygonVertices. */
  datatype InvalidPolygon = TooFewVertices | DuplicateVertex

  /** The outcome of validating: the source returns true or throws. */
  datatype Outcome = Pass | Fail(error: InvalidPolygon)

  /** What an engine returns: its result, or the validation error that aborted it. */
  datatype Result<T> = Success(value: T) | Failure(error: InvalidPolygon)

  /** Two vertices at distinct indices are Eps-close in both coordinates. */
  ghost predicate HasDuplicatePair(p: seq<Point>) {
    !PairwiseApart(p)
  }

  /** The well-formedness the validator checks: at least three vertices, no two of them Eps-close. */
  ghost predicate WellFormed(p: seq<Point>) {
    |p| >= 3 && PairwiseApart(p)
  }

  /** The inner loop (j from `from` on): is p[i] Eps-close to some later vertex? */
  function ScanColumns(p: seq<Point>, i: nat, from: nat): (found: bool)
    requires i < |p|
    ensures found <==> exists k :: from <= k < |p| && Close(p[i], p[k])
    decreases |p| - from
  {
    if from >= |p| then false else Close(p[i], p[from]) || ScanColumns(p, i, from + 1)
  }

  /** The outer loop (i from `from` on), each row scanning only the indices after i. */
  function ScanRows(p: seq<Point>, from: nat): (found: bool)
    ensures found <==> exists a, b :: from <= a < b < |p| && Close(p[a], p[b])
    decreases |p| - from
  {
    if from >= |p| then false else ScanColumns(p, from, from + 1) || ScanRows(p, from + 1)
  }

  /** validatePolygonVertices: the size check first, then the pairwise duplicate scan. */
  function Validate(p: seq<Point>): (o: Outcome)
    ensures o == Fail(TooFewVertices) <==> |p| < 3
    ensures o == Fail(DuplicateVertex) <==> |p| >= 3 && HasDuplicatePair(p)
    ensures o == Pass <==> WellFormed(p)
  {
    if |p| < 3 then Fail(TooFewVertices)
    else if ScanRows(p, 0) then Fail(DuplicateVertex)
    else Pass
  }

  /** Every vertex is Eps-close to itself, so a scan that compared an index with itself would reject
      every polygon; the well-formed square below passes because only distinct indices are compared. */
  lemma OnlyDistinctIndicesCompared(p: Point)
    ensures Close(p, p)
    ensures Validate([Point(0.0, 0.0), Point(0.0, 5.0), Point(5.0, 5.0), Point(5.0, 0.0)]) == Pass
  {
    var sq := [Point(0.0, 0.0), Point(0.0, 5.0), Point(5.0, 5.0), Point(5.0, 0.0)];
    forall i, j | 0 <= i < j < |sq|
      ensures !Close(sq[i], sq[j])
    {
    }
  }

  /** Removing the element at position i removes exactly one copy of it. */
  lemma RemoveAtMultiset(s: seq<Point>, i: int)
    requires 0 <= i < |s|
    ensures multiset(s[..i] + s[i + 1..]) == multiset(s) - multiset{s[i]}
  {
    assert s == s[..i] + [s[i]] + s[i + 1..];
  }

  /** Two distinct positions of p are found, with the same values, at two distinct positions of any
      permutation q of p. */
  lemma PairSurvivesPermutation(p: seq<Point>, q: seq<Point>, i: int, j: int)
    requires multiset(p) == multiset(q)
    requires 0 <= i < |p| && 0 <= j < |p| && i != j
    ensures exists i', j' :: 0 <= i' < |q| && 0 <= j' < |q| && i' != j' && q[i'] == p[i] && q[j'] == p[j]
  {
    assert p[i] in multiset(q);
    var i' :| 0 <= i' < |q| && q[i'] == p[i];
    var rp := p[..i] + p[i + 1..];
    var rq := q[..i'] + q[i' + 1..];
    RemoveAtMultiset(p, i);
    RemoveAtMultiset(q, i');
    var jr := if j < i then j else j - 1;
    assert rp[jr] == p[j];
    assert p[j] in multiset(rq);
    var k :| 0 <= k < |rq| && rq[k] == p[j];
    var j' := if k < i' then k else k + 1;
    assert q[j'] == p[j];
  }

  lemma DuplicateSurvivesPermutation(p: seq<Point>, q: seq<Point>)
    requires multiset(p) == multiset(q) && HasDuplicatePair(p)
    ensures HasDuplicatePair(q)
  {
    var i, j :| 0 <= i < j < |p| && Close(p[i], p[j]);
    PairSurvivesPermutation(p, q, i, j);
    var i', j' :| 0 <= i' < |q| && 0 <= j' < |q| && i' != j' && q[i'] == p[i] && q[j'] == p[j];
    if i' < j' {
      assert Close(q[i'], q[j']);
    } else {
      assert Close(q[j'], q[i']);
    }
  }

  /** The scan covers every unordered pair with a symmetric test, so reordering the vertices
      never changes the outcome. */
  lemma ValidateIgnoresOrder(p: seq<Point>, q: seq<Point>)
    requires multiset(p) == multiset(q)
    ensures Validate(p) == Validate(q)
  {
    assert |p| == |multiset(p)| == |multiset(q)| == |q|;
    if HasDuplicatePair(p) {
      DuplicateSurvivesPermutation(p, q);
    }
    if HasDuplicatePair(q) {
      DuplicateSurvivesPermutation(q, p);
    }
  }

  /** The validation loop of the engines: each polygon in turn, stopping at the first failure. */
  function ValidateAll(ps: seq<seq<Point>>): (o: Outcome)
    ensures o == Pass <==> forall i :: 0 <= i < |ps| ==> WellFormed(ps[i])
    ensures o.Fail? ==> exists i :: 0 <= i < |ps| && Validate(ps[i]) == o
                          && forall k :: 0 <= k < i ==> WellFormed(ps[k])
  {
    if |ps| == 0 then Pass
    else if Validate(ps[0]).Fail? then Validate(ps[0])
    else
      var rest := ValidateAll(ps[1..]);
      assert forall k :: 1 <= k < |ps| ==> ps[k] == ps[1..][k - 1];
      rest
  }
}
