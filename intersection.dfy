/** intersectionOfPolygons (Intersection.cpp): for every pair of polygons i < j and every pair of
    their edges, Cramer's rule for the two segments, and an Eps-deduplicated accumulation of the
    points found. The OpenMP fan-out is modelled as the sequential loop. */
module Intersection {
  import opened Geometry
  import opened PolygonValidation
  import opened Subsequences

  datatype Option<T> = None | Some(value: T)

  /** The determinant of Intersection.cpp:35 for edge a1→a2 of the first polygon and b1→b2 of the second. */
  function Det(a1: Point, a2: Point, b1: Point, b2: Point): real {
    (b2.x - b1.x) * (a2.y - a1.y) - (a2.x - a1.x) * (b2.y - b1.y)
  }

  /** The numerator of s (Intersection.cpp:40). */
  function NumS(a1: Point, a2: Point, b1: Point, b2: Point): real {
    (b2.x - b1.x) * (b1.y - a1.y) - (b2.y - b1.y) * (b1.x - a1.x)
  }

  /** The numerator of t (Intersection.cpp:41). */
  function NumT(a1: Point, a2: Point, b1: Point, b2: Point): real {
    (a2.x - a1.x) * (b1.y - a1.y) - (a2.y - a1.y) * (b1.x - a1.x)
  }

  /** The point at parameter t along the segment p→q. */
  function Along(p: Point, q: Point, t: real): Point {
    Point(p.x + t * (q.x - p.x), p.y + t * (q.y - p.y))
  }

  /** The candidate for edge a1→a2 against edge b1→b2: none for (near-)parallel edges, none unless
      both parameters lie in [0, 1], and otherwise the point at parameter t along a1→a2. */
  function EdgeHit(a1: Point, a2: Point, b1: Point, b2: Point): Option<Point> {
    var det := Det(a1, a2, b1, b2);
    if Abs(det) < Eps then None
    else
      var s := NumS(a1, a2, b1, b2) / det;
      var t := NumT(a1, a2, b1, b2) / det;
      if 0.0 <= s <= 1.0 && 0.0 <= t <= 1.0 then Some(Along(a1, a2, t)) else None
  }

  /** EdgeHit with the point taken at A's own parameter s: the point where the two segments cross. */
  function CrossingHit(a1: Point, a2: Point, b1: Point, b2: Point): Option<Point> {
    var det := Det(a1, a2, b1, b2);
    if Abs(det) < Eps then None
    else
      var s := NumS(a1, a2, b1, b2) / det;
      var t := NumT(a1, a2, b1, b2) / det;
      if 0.0 <= s <= 1.0 && 0.0 <= t <= 1.0 then Some(Along(a1, a2, s)) else None
  }

  /** A rule giving the candidate, if any, of edge p1A→p2A against edge p1B→p2B. The scan below is
      stated for any rule; intersectionOfPolygons runs it with EdgeHit. */
  type EdgeRule = (Point, Point, Point, Point) -> Option<Point>

  /** The candidate for edge k of polygon a against edge l of polygon b (closing edges included). */
  function Hit(rule: EdgeRule, a: seq<Point>, k: nat, b: seq<Point>, l: nat): Option<Point>
    requires k < |a| && l < |b|
  {
    rule(a[k], a[Next(k, |a|)], b[l], b[Next(l, |b|)])
  }

  function OptSeq(o: Option<Point>): seq<Point> {
    if o.Some? then [o.value] else []
  }

  /** The four nested loops of Intersection.cpp:22-63, each named by what stays fixed while it runs. */
  datatype Loop =
    | EdgeLoop(a: seq<Point>, k: nat, b: seq<Point>)   // edge k of a against the edges of b (lines 31-60)
    | RowLoop(a: seq<Point>, b: seq<Point>)            // the edges of a against b (lines 27-61)
    | LaterLoop(ps: seq<seq<Point>>, i: nat)           // polygon i against each later polygon (lines 24-62)
    | OuterLoop(ps: seq<seq<Point>>)                   // every polygon against the later ones (lines 22-63)

  function Depth(lp: Loop): nat {
    match lp
    case EdgeLoop(_, _, _) => 0
    case RowLoop(_, _) => 1
    case LaterLoop(_, _) => 2
    case OuterLoop(_) => 3
  }

  /** The candidates of round n of loop lp; the rounds j <= i of the later-polygon loop are not run. */
  function Round(rule: EdgeRule, lp: Loop, n: nat): seq<Point>
    decreases Depth(lp), n + 1, 0
  {
    match lp
    case EdgeLoop(a, k, b) => if k < |a| && n < |b| then OptSeq(Hit(rule, a, k, b, n)) else []
    case RowLoop(a, b) => Rounds(rule, EdgeLoop(a, n, b), |b|)
    case LaterLoop(ps, i) => if i < n < |ps| then Rounds(rule, RowLoop(ps[i], ps[n]), |ps[i]|) else []
    case OuterLoop(ps) => Rounds(rule, LaterLoop(ps, n), |ps|)
  }

  /** The candidates of rounds 0..n-1 of loop lp, in loop order. */
  function Rounds(rule: EdgeRule, lp: Loop, n: nat): seq<Point>
    decreases Depth(lp), n, 1
  {
    if n == 0 then [] else Rounds(rule, lp, n - 1) + Round(rule, lp, n - 1)
  }

  /** Every candidate of edge k of a against every edge of b. */
  function RowHits(rule: EdgeRule, a: seq<Point>, k: nat, b: seq<Point>): seq<Point> {
    Rounds(rule, EdgeLoop(a, k, b), |b|)
  }

  /** Every candidate of the edges of a against the edges of b. */
  function PairHits(rule: EdgeRule, a: seq<Point>, b: seq<Point>): seq<Point> {
    Rounds(rule, RowLoop(a, b), |a|)
  }

  /** Every candidate of polygon i against the later polygons. */
  function PolyHits(rule: EdgeRule, ps: seq<seq<Point>>, i: nat): seq<Point> {
    Rounds(rule, LaterLoop(ps, i), |ps|)
  }

  /** All candidates, in the order the four nested loops meet them. */
  function AllHits(rule: EdgeRule, ps: seq<seq<Point>>): seq<Point> {
    Rounds(rule, OuterLoop(ps), |ps|)
  }

  /** Every candidate of rounds 0..n-1 comes from one of the rounds. */
  lemma {:induction false} RoundsSource(rule: EdgeRule, lp: Loop, n: nat, c: Point) returns (m: nat)
    requires c in Rounds(rule, lp, n)
    ensures m < n && c in Round(rule, lp, m)
  {
    assert c in Rounds(rule, lp, n - 1) + Round(rule, lp, n - 1);
    if c in Rounds(rule, lp, n - 1) {
      m := RoundsSource(rule, lp, n - 1, c);
    } else {
      m := n - 1;
    }
  }

  /** Every candidate of each round 0..n-1 is among the candidates of rounds 0..n-1. */
  lemma {:induction false} RoundsFound(rule: EdgeRule, lp: Loop, n: nat, m: nat, c: Point)
    requires m < n && c in Round(rule, lp, m)
    ensures c in Rounds(rule, lp, n)
  {
    if m < n - 1 {
      RoundsFound(rule, lp, n - 1, m, c);
    }
    assert Rounds(rule, lp, n) == Rounds(rule, lp, n - 1) + Round(rule, lp, n - 1);
  }

  /** The rounds j <= i of the later-polygon loop contribute nothing. */
  lemma {:induction false} LaterRoundsSkipped(rule: EdgeRule, ps: seq<seq<Point>>, i: nat, n: nat)
    requires n <= i + 1
    ensures Rounds(rule, LaterLoop(ps, i), n) == []
  {
    if n > 0 {
      LaterRoundsSkipped(rule, ps, i, n - 1);
    }
  }

  /** The std::any_of scan of Intersection.cpp:48-52 from position `from` on: each existing point is
      tested against p, and the scan stops at the first one within Eps in both coordinates. */
  function AnyClose(acc: seq<Point>, p: Point, from: nat): (found: bool)
    ensures found <==> exists k :: from <= k < |acc| && Close(acc[k], p)
    decreases |acc| - from
  {
    if from >= |acc| then false else Close(acc[from], p) || AnyClose(acc, p, from + 1)
  }

  /** The pointExists lambda (Intersection.cpp:47-53): the scan from the first accumulated point finds
      one exactly when p is Eps-close to some accumulated point. */
  function PointExists(acc: seq<Point>, p: Point): (found: bool)
    ensures found <==> CoveredBy(p, acc)
  {
    var found := AnyClose(acc, p, 0);
    assert found ==> exists k :: 0 <= k < |acc| && Close(p, acc[k]);
    found
  }

  /** The guarded append of Intersection.cpp:55-58: p is added unless an Eps-close point is present. */
  function Insert(acc: seq<Point>, p: Point): seq<Point> {
    if PointExists(acc, p) then acc else acc + [p]
  }

  /** The accumulation of one edge pair's candidate, if it has one. */
  function InsertHit(acc: seq<Point>, hit: Option<Point>): seq<Point> {
    if hit.Some? then Insert(acc, hit.value) else acc
  }

  /** Intersection.cpp:43-58 after the candidate is computed: with a candidate, it is appended
      unless an Eps-close point is already in the result; without one, nothing changes. */
  method AddHit(acc: seq<Point>, hit: Option<Point>) returns (result: seq<Point>)
    ensures hit.None? ==> result == acc
    ensures hit.Some? && CoveredBy(hit.value, acc) ==> result == acc
    ensures hit.Some? && !CoveredBy(hit.value, acc) ==> result == acc + [hit.value]
    ensures result == InsertHit(acc, hit)
  {
    result := acc;
    if hit.Some? {
      if !PointExists(acc, hit.value) {
        result := acc + [hit.value];
      }
    }
  }

  /** The accumulation of the candidates cs, in order, onto the points acc already found. */
  function Accumulate(acc: seq<Point>, cs: seq<Point>): seq<Point> {
    if |cs| == 0 then acc else Insert(Accumulate(acc, cs[..|cs| - 1]), cs[|cs| - 1])
  }

  /** Accumulating xs + ys is accumulating xs, then ys. */
  lemma {:induction false} AccumulateAppend(acc: seq<Point>, xs: seq<Point>, ys: seq<Point>)
    ensures Accumulate(acc, xs + ys) == Accumulate(Accumulate(acc, xs), ys)
    decreases |ys|
  {
    if |ys| == 0 {
      assert xs + ys == xs;
    } else {
      assert (xs + ys)[..|xs + ys| - 1] == xs + ys[..|ys| - 1];
      AccumulateAppend(acc, xs, ys[..|ys| - 1]);
    }
  }

  /** One round of a loop: its candidates are accumulated after those of the earlier rounds. */
  lemma AccumulateRound(rule: EdgeRule, acc: seq<Point>, lp: Loop, n: nat)
    ensures Accumulate(acc, Rounds(rule, lp, n + 1)) == Accumulate(Accumulate(acc, Rounds(rule, lp, n)), Round(rule, lp, n))
  {
    AccumulateAppend(acc, Rounds(rule, lp, n), Round(rule, lp, n));
  }

  /** One round of the innermost loop: the candidate of edge l, if any, is inserted. */
  lemma RowStep(rule: EdgeRule, acc: seq<Point>, a: seq<Point>, k: nat, b: seq<Point>, l: nat)
    requires k < |a| && l < |b|
    ensures Accumulate(acc, Rounds(rule, EdgeLoop(a, k, b), l + 1))
         == InsertHit(Accumulate(acc, Rounds(rule, EdgeLoop(a, k, b), l)), Hit(rule, a, k, b, l))
  {
    var hit := Hit(rule, a, k, b, l);
    AccumulateRound(rule, acc, EdgeLoop(a, k, b), l);
    if hit.Some? {
      assert [hit.value][..0] == [];
    }
  }

  /** One round of the loop over the edges of a: the row of edge k is accumulated. */
  lemma PairStep(rule: EdgeRule, acc: seq<Point>, a: seq<Point>, b: seq<Point>, k: nat)
    ensures Accumulate(acc, Rounds(rule, RowLoop(a, b), k + 1))
         == Accumulate(Accumulate(acc, Rounds(rule, RowLoop(a, b), k)), RowHits(rule, a, k, b))
  {
    AccumulateRound(rule, acc, RowLoop(a, b), k);
  }

  /** The loop over the later polygons starts at j = i + 1: the rounds before it contribute nothing. */
  lemma LaterStart(rule: EdgeRule, acc: seq<Point>, ps: seq<seq<Point>>, i: nat)
    ensures Accumulate(acc, Rounds(rule, LaterLoop(ps, i), i + 1)) == acc
  {
    LaterRoundsSkipped(rule, ps, i, i + 1);
  }

  /** One round of the loop over the later polygons: polygon i against polygon j is accumulated. */
  lemma LaterStep(rule: EdgeRule, acc: seq<Point>, ps: seq<seq<Point>>, i: nat, j: nat)
    requires i < j < |ps|
    ensures Accumulate(acc, Rounds(rule, LaterLoop(ps, i), j + 1))
         == Accumulate(Accumulate(acc, Rounds(rule, LaterLoop(ps, i), j)), PairHits(rule, ps[i], ps[j]))
  {
    AccumulateRound(rule, acc, LaterLoop(ps, i), j);
  }

  /** One round of the outer loop: polygon i against all later polygons is accumulated. */
  lemma AllStep(rule: EdgeRule, ps: seq<seq<Point>>, i: nat)
    ensures Accumulate([], Rounds(rule, OuterLoop(ps), i + 1))
         == Accumulate(Accumulate([], Rounds(rule, OuterLoop(ps), i)), PolyHits(rule, ps, i))
  {
    AccumulateRound(rule, [], OuterLoop(ps), i);
  }

  /** The innermost loop (Intersection.cpp:31-60): edge k of a against every edge of b. */
  method CrossRow(rule: EdgeRule, acc: seq<Point>, a: seq<Point>, k: nat, b: seq<Point>) returns (result: seq<Point>)
    requires k < |a|
    ensures result == Accumulate(acc, RowHits(rule, a, k, b))
  {
    result := acc;
    var l := 0;
    while l < |b|
      invariant 0 <= l <= |b|
      invariant result == Accumulate(acc, Rounds(rule, EdgeLoop(a, k, b), l))
    {
      // Intersection.cpp:28-45: edge k of a against edge l of b.
      var hit := Hit(rule, a, k, b, l);
      RowStep(rule, acc, a, k, b, l);
      result := AddHit(result, hit);
      l := l + 1;
    }
  }

  /** The loop over the edges of a (Intersection.cpp:27-61), each against every edge of b. */
  method CrossPair(rule: EdgeRule, acc: seq<Point>, a: seq<Point>, b: seq<Point>) returns (result: seq<Point>)
    ensures result == Accumulate(acc, PairHits(rule, a, b))
  {
    result := acc;
    var k := 0;
    while k < |a|
      invariant 0 <= k <= |a|
      invariant result == Accumulate(acc, Rounds(rule, RowLoop(a, b), k))
    {
      PairStep(rule, acc, a, b, k);
      result := CrossRow(rule, result, a, k, b);
      k := k + 1;
    }
  }

  /** The loop over the later polygons (Intersection.cpp:24-62): polygon i against each polygon j > i. */
  method CrossLater(rule: EdgeRule, acc: seq<Point>, ps: seq<seq<Point>>, i: nat) returns (result: seq<Point>)
    requires i < |ps|
    ensures result == Accumulate(acc, PolyHits(rule, ps, i))
  {
    LaterStart(rule, acc, ps, i);
    result := acc;
    var j := i + 1;
    while j < |ps|
      invariant i + 1 <= j <= |ps|
      invariant result == Accumulate(acc, Rounds(rule, LaterLoop(ps, i), j))
    {
      LaterStep(rule, acc, ps, i, j);
      result := CrossPair(rule, result, ps[i], ps[j]);
      j := j + 1;
    }
  }

  /** The outer loop (Intersection.cpp:22-63): each polygon against every later one. */
  method CrossAll(rule: EdgeRule, ps: seq<seq<Point>>) returns (result: seq<Point>)
    ensures result == Accumulate([], AllHits(rule, ps))
  {
    result := [];
    var i := 0;
    while i < |ps|
      invariant 0 <= i <= |ps|
      invariant result == Accumulate([], Rounds(rule, OuterLoop(ps), i))
    {
      AllStep(rule, ps, i);
      result := CrossLater(rule, result, ps, i);
      i := i + 1;
    }
  }

  /** intersectionOfPolygons: empty for fewer than two polygons (before any validation), the first
      validation failure otherwise, and else the accumulation of every candidate in loop order. */
  method IntersectionOfPolygons(ps: seq<seq<Point>>) returns (r: Result<seq<Point>>)
    ensures |ps| < 2 ==> r == Success([])
    ensures |ps| >= 2 && ValidateAll(ps).Fail? ==> r == Failure(ValidateAll(ps).error)
    ensures |ps| >= 2 && ValidateAll(ps) == Pass ==> r == Success(Accumulate([], AllHits(EdgeHit, ps)))
  {
    if |ps| < 2 {
      return Success([]);
    }
    var v := ValidateAll(ps);
    if v.Fail? {
      return Failure(v.error);
    }
    var result := CrossAll(EdgeHit, ps);
    return Success(result);
  }

  /** The same scan with CrossingHit in place of EdgeHit: the points emitted are the crossings of
      the edges. */
  method IntersectionAtCrossings(ps: seq<seq<Point>>) returns (r: Result<seq<Point>>)
    ensures |ps| < 2 ==> r == Success([])
    ensures |ps| >= 2 && ValidateAll(ps).Fail? ==> r == Failure(ValidateAll(ps).error)
    ensures |ps| >= 2 && ValidateAll(ps) == Pass ==> r == Success(Accumulate([], AllHits(CrossingHit, ps)))
  {
    if |ps| < 2 {
      return Success([]);
    }
    var v := ValidateAll(ps);
    if v.Fail? {
      return Failure(v.error);
    }
    var result := CrossAll(CrossingHit, ps);
    return Success(result);
  }

  /** The guarded append keeps the accumulated points pairwise apart. */
  lemma {:induction false} AccumulateApart(acc: seq<Point>, cs: seq<Point>)
    requires PairwiseApart(acc)
    ensures PairwiseApart(Accumulate(acc, cs))
  {
    if |cs| > 0 {
      var prev := Accumulate(acc, cs[..|cs| - 1]);
      var p := cs[|cs| - 1];
      AccumulateApart(acc, cs[..|cs| - 1]);
      if !PointExists(prev, p) {
        var u := prev + [p];
        forall i, j | 0 <= i < j < |u|
          ensures !Close(u[i], u[j])
        {
          if j == |prev| {
            assert !Close(prev[i], p);
          }
        }
      }
    }
  }

  /** The accumulation only appends: the points found before stay, in place. */
  lemma {:induction false} AccumulateExtends(acc: seq<Point>, cs: seq<Point>)
    ensures |acc| <= |Accumulate(acc, cs)| && Accumulate(acc, cs)[..|acc|] == acc
  {
    if |cs| > 0 {
      AccumulateExtends(acc, cs[..|cs| - 1]);
      var prev := Accumulate(acc, cs[..|cs| - 1]);
      assert (prev + [cs[|cs| - 1]])[..|acc|] == prev[..|acc|];
    }
  }

  /** Every candidate is Eps-close to some point of the final result. */
  lemma {:induction false} AccumulateCovers(acc: seq<Point>, cs: seq<Point>)
    ensures forall i :: 0 <= i < |cs| ==> CoveredBy(cs[i], Accumulate(acc, cs))
  {
    if |cs| > 0 {
      var cs' := cs[..|cs| - 1];
      var p := cs[|cs| - 1];
      var prev := Accumulate(acc, cs');
      var u := Accumulate(acc, cs);
      AccumulateCovers(acc, cs');
      assert u[..|prev|] == prev;
      forall i | 0 <= i < |cs|
        ensures CoveredBy(cs[i], u)
      {
        if i < |cs'| {
          assert cs[i] == cs'[i] && CoveredBy(cs'[i], prev);
          var k :| 0 <= k < |prev| && Close(cs'[i], prev[k]);
          assert u[k] == prev[k];
        } else if PointExists(prev, p) {
          var k :| 0 <= k < |prev| && Close(p, prev[k]);
          assert u[k] == prev[k];
        } else {
          assert u[|prev|] == p && Close(p, p);
        }
      }
    }
  }

  /** Starting from nothing, the result is a subsequence of the candidates. */
  lemma {:induction false} AccumulateIsSubseq(cs: seq<Point>)
    ensures IsSubseq(Accumulate([], cs), cs)
  {
    if |cs| > 0 {
      var cs' := cs[..|cs| - 1];
      var p := cs[|cs| - 1];
      assert cs == cs' + [p];
      AccumulateIsSubseq(cs');
      if PointExists(Accumulate([], cs'), p) {
        SubseqSkip(Accumulate([], cs'), cs', p);
      } else {
        SubseqKeep(Accumulate([], cs'), cs', p);
      }
    }
  }

  /** c is the candidate of an edge pair of two distinct polygons i < j. */
  ghost predicate IsHitOf(rule: EdgeRule, ps: seq<seq<Point>>, c: Point) {
    exists i, j, k, l :: 0 <= i < j < |ps| && 0 <= k < |ps[i]| && 0 <= l < |ps[j]| && Hit(rule, ps[i], k, ps[j], l) == Some(c)
  }

  /** Every candidate is the hit of an edge pair of two polygons i < j. */
  lemma CandidateSource(rule: EdgeRule, ps: seq<seq<Point>>, c: Point) returns (i: nat, j: nat, k: nat, l: nat)
    requires c in AllHits(rule, ps)
    ensures i < j < |ps| && k < |ps[i]| && l < |ps[j]| && Hit(rule, ps[i], k, ps[j], l) == Some(c)
  {
    i := RoundsSource(rule, OuterLoop(ps), |ps|, c);
    j := RoundsSource(rule, LaterLoop(ps, i), |ps|, c);
    k := RoundsSource(rule, RowLoop(ps[i], ps[j]), |ps[i]|, c);
    l := RoundsSource(rule, EdgeLoop(ps[i], k, ps[j]), |ps[j]|, c);
  }

  /** The hit of every edge pair of two polygons i < j is a candidate. */
  lemma HitIsCandidate(rule: EdgeRule, ps: seq<seq<Point>>, i: nat, j: nat, k: nat, l: nat)
    requires i < j < |ps| && k < |ps[i]| && l < |ps[j]| && Hit(rule, ps[i], k, ps[j], l).Some?
    ensures Hit(rule, ps[i], k, ps[j], l).value in AllHits(rule, ps)
  {
    var c := Hit(rule, ps[i], k, ps[j], l).value;
    RoundsFound(rule, EdgeLoop(ps[i], k, ps[j]), |ps[j]|, l, c);
    RoundsFound(rule, RowLoop(ps[i], ps[j]), |ps[i]|, k, c);
    RoundsFound(rule, LaterLoop(ps, i), |ps|, j, c);
    RoundsFound(rule, OuterLoop(ps), |ps|, i, c);
  }

  /** The candidate list holds exactly the hits of edge pairs of distinct polygons i < j; the edges
      of one polygon are never crossed with each other. */
  lemma CandidatesAreHits(rule: EdgeRule, ps: seq<seq<Point>>, c: Point)
    ensures c in AllHits(rule, ps) <==> IsHitOf(rule, ps, c)
  {
    if c in AllHits(rule, ps) {
      var i, j, k, l := CandidateSource(rule, ps, c);
    }
    if IsHitOf(rule, ps, c) {
      var i, j, k, l :| 0 <= i < j < |ps| && 0 <= k < |ps[i]| && 0 <= l < |ps[j]| && Hit(rule, ps[i], k, ps[j], l) == Some(c);
      HitIsCandidate(rule, ps, i, j, k, l);
    }
  }

  /** What intersectionOfPolygons returns on valid input: no two points Eps-close, every point the
      candidate of an edge pair of two distinct polygons, and every such candidate Eps-close to some
      returned point. */
  lemma IntersectionOutput(rule: EdgeRule, ps: seq<seq<Point>>)
    ensures var u := Accumulate([], AllHits(rule, ps));
      && PairwiseApart(u)
      && (forall c :: c in u ==> IsHitOf(rule, ps, c))
      && (forall c :: IsHitOf(rule, ps, c) ==> CoveredBy(c, u))
  {
    var cs := AllHits(rule, ps);
    var u := Accumulate([], cs);
    AccumulateApart([], cs);
    AccumulateIsSubseq(cs);
    SubseqMultiset(u, cs);
    AccumulateCovers([], cs);
    forall c | c in u
      ensures IsHitOf(rule, ps, c)
    {
      assert c in multiset(u);
      CandidatesAreHits(rule, ps, c);
    }
    forall c | IsHitOf(rule, ps, c)
      ensures CoveredBy(c, u)
    {
      CandidatesAreHits(rule, ps, c);
      var n :| 0 <= n < |cs| && cs[n] == c;
    }
  }

  /** In exact arithmetic s is the parameter along a1→a2 and t the parameter along b1→b2 of the
      point where the two lines cross. */
  lemma CrossingParameters(a1: Point, a2: Point, b1: Point, b2: Point)
    requires Det(a1, a2, b1, b2) != 0.0
    ensures Along(a1, a2, NumS(a1, a2, b1, b2) / Det(a1, a2, b1, b2))
         == Along(b1, b2, NumT(a1, a2, b1, b2) / Det(a1, a2, b1, b2))
  {
    var d := Det(a1, a2, b1, b2);
    var ns, nt := NumS(a1, a2, b1, b2), NumT(a1, a2, b1, b2);
    var s, t := ns / d, nt / d;
    var dax, day, dbx, dby := a2.x - a1.x, a2.y - a1.y, b2.x - b1.x, b2.y - b1.y;
    var wx, wy := b1.x - a1.x, b1.y - a1.y;
    assert s * d == ns && t * d == nt;
    assert ns * dax - nt * dbx == wx * d;
    assert ns * day - nt * dby == wy * d;
    Solved(s, t, ns, nt, d, dax, dbx, wx);
    Solved(s, t, ns, nt, d, day, dby, wy);
  }

  /** One coordinate of the crossing: the equation scaled by d holds, so it holds unscaled. */
  lemma Solved(s: real, t: real, ns: real, nt: real, d: real, da: real, db: real, w: real)
    requires d != 0.0 && s * d == ns && t * d == nt && ns * da - nt * db == w * d
    ensures s * da - t * db == w
  {
    assert (s * da - t * db) * d == ns * da - nt * db;
    ZeroProduct(s * da - t * db - w, d);
  }

  lemma ZeroProduct(x: real, d: real)
    requires x * d == 0.0 && d != 0.0
    ensures x == 0.0
  {
  }

  /** A common point at parameters s' along a1→a2 and t' along b1→b2 of non-parallel lines fixes
      both parameters: they are s and t. */
  lemma CrossingIsUnique(a1: Point, a2: Point, b1: Point, b2: Point, s': real, t': real)
    requires Det(a1, a2, b1, b2) != 0.0
    requires Along(a1, a2, s') == Along(b1, b2, t')
    ensures s' == NumS(a1, a2, b1, b2) / Det(a1, a2, b1, b2)
    ensures t' == NumT(a1, a2, b1, b2) / Det(a1, a2, b1, b2)
  {
    var d := Det(a1, a2, b1, b2);
    var dax, day, dbx, dby := a2.x - a1.x, a2.y - a1.y, b2.x - b1.x, b2.y - b1.y;
    var wx, wy := b1.x - a1.x, b1.y - a1.y;
    assert s' * dax - t' * dbx == wx;
    assert s' * day - t' * dby == wy;
    assert (s' * dax - t' * dbx) * dby - (s' * day - t' * dby) * dbx == wx * dby - wy * dbx;
    assert s' * (dax * dby - day * dbx) == wx * dby - wy * dbx;
    assert s' * d == NumS(a1, a2, b1, b2);
    assert (s' * dax - t' * dbx) * day - (s' * day - t' * dby) * dax == wx * day - wy * dax;
    assert t' * (dax * dby - dbx * day) == wx * day - wy * dax;
    assert t' * d == NumT(a1, a2, b1, b2);
  }

  /** An edge pair yields a candidate exactly when the edges are not (near-)parallel and the two
      closed segments meet; the candidate is then the point at B's parameter t along A's edge. */
  lemma EdgeHitMeaning(a1: Point, a2: Point, b1: Point, b2: Point)
    ensures Abs(Det(a1, a2, b1, b2)) < Eps ==> EdgeHit(a1, a2, b1, b2) == None
    ensures EdgeHit(a1, a2, b1, b2).Some? <==>
              Abs(Det(a1, a2, b1, b2)) >= Eps &&
              exists s', t' :: 0.0 <= s' <= 1.0 && 0.0 <= t' <= 1.0 && Along(a1, a2, s') == Along(b1, b2, t')
    ensures EdgeHit(a1, a2, b1, b2).Some? ==>
              var t := NumT(a1, a2, b1, b2) / Det(a1, a2, b1, b2);
              0.0 <= t <= 1.0 && EdgeHit(a1, a2, b1, b2).value == Along(a1, a2, t)
  {
    var d := Det(a1, a2, b1, b2);
    if Abs(d) >= Eps {
      var s, t := NumS(a1, a2, b1, b2) / d, NumT(a1, a2, b1, b2) / d;
      CrossingParameters(a1, a2, b1, b2);
      if exists s', t' :: 0.0 <= s' <= 1.0 && 0.0 <= t' <= 1.0 && Along(a1, a2, s') == Along(b1, b2, t') {
        var s', t' :| 0.0 <= s' <= 1.0 && 0.0 <= t' <= 1.0 && Along(a1, a2, s') == Along(b1, b2, t');
        CrossingIsUnique(a1, a2, b1, b2, s', t');
      }
      if EdgeHit(a1, a2, b1, b2).Some? {
        assert 0.0 <= s <= 1.0 && 0.0 <= t <= 1.0 && Along(a1, a2, s) == Along(b1, b2, t);
      }
    }
  }

  /** Edge (0,5)→(5,5) of the square against edge (2,2)→(2,7) of the triangle: the segments cross at
      (2,5), but the emitted point is (3,5), which is not on the second segment. */
  lemma EmittedPointIsNotTheCrossing()
    ensures EdgeHit(Point(0.0, 5.0), Point(5.0, 5.0), Point(2.0, 2.0), Point(2.0, 7.0)) == Some(Point(3.0, 5.0))
    ensures forall t :: Along(Point(2.0, 2.0), Point(2.0, 7.0), t) != Point(3.0, 5.0)
    ensures Along(Point(0.0, 5.0), Point(5.0, 5.0), 0.4) == Along(Point(2.0, 2.0), Point(2.0, 7.0), 0.6) == Point(2.0, 5.0)
  {
    var a1, a2, b1, b2 := Point(0.0, 5.0), Point(5.0, 5.0), Point(2.0, 2.0), Point(2.0, 7.0);
    assert Det(a1, a2, b1, b2) == -25.0;
    assert NumS(a1, a2, b1, b2) == -10.0;
    assert NumT(a1, a2, b1, b2) == -15.0;
  }

  /** The same two edges with the polygons swapped emit (2,4) instead of (3,5): the points found
      depend on the order of the polygons. */
  lemma EmittedPointDependsOnOrder()
    ensures EdgeHit(Point(2.0, 2.0), Point(2.0, 7.0), Point(0.0, 5.0), Point(5.0, 5.0)) == Some(Point(2.0, 4.0))
  {
    var a1, a2, b1, b2 := Point(2.0, 2.0), Point(2.0, 7.0), Point(0.0, 5.0), Point(5.0, 5.0);
    assert Det(a1, a2, b1, b2) == 25.0;
    assert NumS(a1, a2, b1, b2) == 15.0;
    assert NumT(a1, a2, b1, b2) == 10.0;
  }

  /** The corrected rule finds a point for the same edge pairs as EdgeHit, and that point lies on both
      closed segments. */
  lemma CrossingHitMeaning(a1: Point, a2: Point, b1: Point, b2: Point)
    ensures CrossingHit(a1, a2, b1, b2).Some? <==> EdgeHit(a1, a2, b1, b2).Some?
    ensures CrossingHit(a1, a2, b1, b2).Some? ==>
              exists s', t' :: 0.0 <= s' <= 1.0 && 0.0 <= t' <= 1.0
                && CrossingHit(a1, a2, b1, b2).value == Along(a1, a2, s') == Along(b1, b2, t')
  {
    var d := Det(a1, a2, b1, b2);
    if Abs(d) >= Eps {
      var s, t := NumS(a1, a2, b1, b2) / d, NumT(a1, a2, b1, b2) / d;
      CrossingParameters(a1, a2, b1, b2);
      if CrossingHit(a1, a2, b1, b2).Some? {
        assert CrossingHit(a1, a2, b1, b2).value == Along(a1, a2, s) == Along(b1, b2, t);
      }
    }
  }

  /** The corrected rule does not depend on which polygon comes first. */
  lemma CrossingHitSymmetric(a1: Point, a2: Point, b1: Point, b2: Point)
    ensures CrossingHit(a1, a2, b1, b2) == CrossingHit(b1, b2, a1, a2)
  {
    var d := Det(a1, a2, b1, b2);
    assert Det(b1, b2, a1, a2) == -d;
    assert NumS(b1, b2, a1, a2) == -NumT(a1, a2, b1, b2);
    assert NumT(b1, b2, a1, a2) == -NumS(a1, a2, b1, b2);
    if Abs(d) >= Eps {
      var s, t := NumS(a1, a2, b1, b2) / d, NumT(a1, a2, b1, b2) / d;
      NegDiv(NumT(a1, a2, b1, b2), d);
      NegDiv(NumS(a1, a2, b1, b2), d);
      CrossingParameters(a1, a2, b1, b2);
    }
  }

  lemma NegDiv(x: real, d: real)
    requires d != 0.0
    ensures (-x) / (-d) == x / d
  {
  }

  /** On the edges of EmittedPointIsNotTheCrossing the corrected rule emits the crossing (2,5), in
      either order. */
  lemma CrossingHitOnExample()
    ensures CrossingHit(Point(0.0, 5.0), Point(5.0, 5.0), Point(2.0, 2.0), Point(2.0, 7.0)) == Some(Point(2.0, 5.0))
    ensures CrossingHit(Point(2.0, 2.0), Point(2.0, 7.0), Point(0.0, 5.0), Point(5.0, 5.0)) == Some(Point(2.0, 5.0))
  {
    var a1, a2, b1, b2 := Point(0.0, 5.0), Point(5.0, 5.0), Point(2.0, 2.0), Point(2.0, 7.0);
    assert Det(a1, a2, b1, b2) == -25.0;
    assert NumS(a1, a2, b1, b2) == -10.0;
    assert NumT(a1, a2, b1, b2) == -15.0;
    assert Det(b1, b2, a1, a2) == 25.0;
    assert NumS(b1, b2, a1, a2) == 15.0;
    assert NumT(b1, b2, a1, a2) == 10.0;
  }
}
