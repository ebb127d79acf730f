/** unionOfPolygons (Union.cpp): validate, concatenate every vertex, sort by the angle key, then
    compact Eps-close neighbours with std::unique and erase the tail. */
module Union {
  import opened Geometry
  import opened PolygonValidation
  import opened Subsequences

  /** All vertices of all polygons, polygon after polygon, each in its own order. */
  function Flatten(ps: seq<seq<Point>>): seq<Point> {
    if |ps| == 0 then [] else Flatten(ps[..|ps| - 1]) + ps[|ps| - 1]
  }

  /** std::unique with the Eps-closeness predicate, as the usual library implementation runs it:
      each element is compared with the last element kept so far, and kept when not close to it. */
  function Dedup(s: seq<Point>): seq<Point> {
    if |s| == 0 then []
    else
      var d := Dedup(s[..|s| - 1]);
      if |d| > 0 && Close(d[|d| - 1], s[|s| - 1]) then d else d + [s[|s| - 1]]
  }

  /** No two neighbours of s are Eps-close (the wrap-around pair is not considered). */
  ghost predicate NoCloseNeighbours(s: seq<Point>) {
    forall k :: 0 <= k < |s| - 1 ==> !Close(s[k], s[k + 1])
  }

  /** The merge loop of Union.cpp:12-14: append each polygon's vertices in turn. */
  method Merge(ps: seq<seq<Point>>) returns (merged: seq<Point>)
    ensures merged == Flatten(ps)
  {
    merged := [];
    var k := 0;
    while k < |ps|
      invariant 0 <= k <= |ps|
      invariant merged == Flatten(ps[..k])
    {
      assert ps[..k + 1][..k] == ps[..k];
      merged := merged + ps[k];
      k := k + 1;
    }
    assert ps[..|ps|] == ps;
  }

  /** Exchanges two elements of a; nothing else changes. */
  method Swap(a: array<Point>, i: int, j: int)
    requires 0 <= i < a.Length && 0 <= j < a.Length
    modifies a
    ensures a[i] == old(a[j]) && a[j] == old(a[i])
    ensures forall m :: 0 <= m < a.Length && m != i && m != j ==> a[m] == old(a[m])
    ensures multiset(a[..]) == old(multiset(a[..]))
  {
    a[i], a[j] := a[j], a[i];
  }

  /** One round of the sort: moves a[i] left past every element with a larger key, so that a[..i+1]
      becomes sorted when a[..i] was. */
  method InsertAt(a: array<Point>, i: int, angle: Point -> real)
    requires 0 < i < a.Length
    requires forall x, y :: 0 <= x < y < i ==> angle(a[x]) <= angle(a[y])
    modifies a
    ensures forall x, y :: 0 <= x < y <= i ==> angle(a[x]) <= angle(a[y])
    ensures forall m :: i < m < a.Length ==> a[m] == old(a[m])
    ensures multiset(a[..]) == old(multiset(a[..]))
  {
    var j := i;
    while j > 0 && angle(a[j - 1]) > angle(a[j])
      invariant 0 <= j <= i
      invariant forall x, y :: 0 <= x < y <= i && x != j && y != j ==> angle(a[x]) <= angle(a[y])
      invariant forall y :: j < y <= i ==> angle(a[j]) < angle(a[y])
      invariant forall m :: i < m < a.Length ==> a[m] == old(a[m])
      invariant multiset(a[..]) == old(multiset(a[..]))
    {
      Swap(a, j - 1, j);
      j := j - 1;
    }
  }

  /** std::sort by the angle key, in place. The source compares atan2(y, x); the model takes the key
      as a parameter and relies on none of its values. Any order among equal keys is allowed. */
  method SortByAngle(a: array<Point>, angle: Point -> real)
    modifies a
    ensures SortedBy(a[..], angle)
    ensures multiset(a[..]) == old(multiset(a[..]))
  {
    if a.Length == 0 {
      return;
    }
    var i := 1;
    while i < a.Length
      invariant 1 <= i <= a.Length
      invariant forall x, y :: 0 <= x < y < i ==> angle(a[x]) <= angle(a[y])
      invariant multiset(a[..]) == old(multiset(a[..]))
    {
      InsertAt(a, i, angle);
      i := i + 1;
    }
  }

  /** std::unique followed by reading the kept prefix: a[..last] is the compaction of the input;
      what std::unique leaves after position last is not specified. */
  method Unique(a: array<Point>) returns (last: nat)
    modifies a
    ensures last <= a.Length
    ensures a[..last] == Dedup(old(a[..]))
  {
    ghost var s := a[..];
    if a.Length == 0 {
      assert s == [];
      return 0;
    }
    assert s[..1][..0] == [];
    var kept := 1;
    var i := 1;
    while i < a.Length
      invariant 1 <= kept <= i <= a.Length
      invariant a[..kept] == Dedup(s[..i])
      invariant a[i..] == s[i..]
    {
      assert s[..i + 1][..i] == s[..i];
      assert a[i] == s[i];
      if !Close(a[kept - 1], a[i]) {
        a[kept] := a[i];
        kept := kept + 1;
      }
      i := i + 1;
    }
    assert s[..a.Length] == s;
    last := kept;
  }

  /** The body Union.cpp:10-27 shares with main.cpp:49-69: merge, sort, compact, erase. The ghost
      result `sorted` is the order std::sort chose. */
  method MergeSortUnique(ps: seq<seq<Point>>, angle: Point -> real) returns (r: seq<Point>, ghost sorted: seq<Point>)
    ensures multiset(sorted) == multiset(Flatten(ps))
    ensures SortedBy(sorted, angle)
    ensures r == Dedup(sorted)
  {
    var merged := Merge(ps);
    var a := new Point[|merged|](k requires 0 <= k < |merged| => merged[k]);
    assert a[..] == merged;
    SortByAngle(a, angle);
    sorted := a[..];
    var last := Unique(a);
    r := a[..last];
  }

  /** unionOfPolygons: every polygon validated first (the first failure is reported), then the merge. */
  method UnionOfPolygons(ps: seq<seq<Point>>, angle: Point -> real) returns (r: Result<seq<Point>>, ghost sorted: seq<Point>)
    ensures ValidateAll(ps).Fail? ==> r == Failure(ValidateAll(ps).error)
    ensures ValidateAll(ps) == Pass ==> r.Success?
    ensures r.Success? ==> multiset(sorted) == multiset(Flatten(ps)) && SortedBy(sorted, angle)
                           && r.value == Dedup(sorted)
  {
    var v := ValidateAll(ps);
    if v.Fail? {
      return Failure(v.error), [];
    }
    var merged;
    merged, sorted := MergeSortUnique(ps, angle);
    r := Success(merged);
  }

  /** A vertex belongs to the merged sequence exactly when it is a vertex of one of the polygons,
      and each polygon's vertices all occur in it. */
  lemma {:induction false} FlattenMembers(ps: seq<seq<Point>>)
    ensures forall x :: x in Flatten(ps) <==> exists i :: 0 <= i < |ps| && x in ps[i]
    ensures forall i :: 0 <= i < |ps| ==> multiset(ps[i]) <= multiset(Flatten(ps))
  {
    if |ps| > 0 {
      var ps' := ps[..|ps| - 1];
      FlattenMembers(ps');
      assert forall i :: 0 <= i < |ps'| ==> ps'[i] == ps[i];
    }
  }

  /** The merged sequence is at least as long as any one polygon. */
  lemma {:induction false} FlattenLength(ps: seq<seq<Point>>, i: int)
    requires 0 <= i < |ps|
    ensures |Flatten(ps)| >= |ps[i]|
  {
    if i < |ps| - 1 {
      FlattenLength(ps[..|ps| - 1], i);
      assert ps[..|ps| - 1][i] == ps[i];
    }
  }

  /** The compaction keeps a subsequence of its input. */
  lemma {:induction false} DedupIsSubseq(s: seq<Point>)
    ensures IsSubseq(Dedup(s), s)
  {
    if |s| > 0 {
      var s' := s[..|s| - 1];
      var x := s[|s| - 1];
      assert s == s' + [x];
      DedupIsSubseq(s');
      var d := Dedup(s');
      if |d| > 0 && Close(d[|d| - 1], x) {
        SubseqSkip(d, s', x);
      } else {
        SubseqKeep(d, s', x);
      }
    }
  }

  /** The first element is always kept, and the output is empty exactly when the input is. */
  lemma {:induction false} DedupBounds(s: seq<Point>)
    ensures |s| == 0 <==> |Dedup(s)| == 0
    ensures 0 < |s| ==> 1 <= |Dedup(s)| <= |s| && Dedup(s)[0] == s[0]
  {
    if |s| > 0 {
      var s' := s[..|s| - 1];
      DedupBounds(s');
      DedupIsSubseq(s);
      SubseqMultiset(Dedup(s), s);
      if |s'| > 0 {
        assert s'[0] == s[0];
      }
    }
  }

  /** Under the last-kept rule no two consecutive output points are Eps-close. */
  lemma {:induction false} DedupNoCloseNeighbours(s: seq<Point>)
    ensures NoCloseNeighbours(Dedup(s))
  {
    if |s| > 0 {
      DedupNoCloseNeighbours(s[..|s| - 1]);
    }
  }

  /** Every input point is Eps-close to some output point: a dropped point is close to the point
      kept just before it, a kept point to itself. */
  lemma {:induction false} DedupCovers(s: seq<Point>)
    ensures forall i :: 0 <= i < |s| ==> CoveredBy(s[i], Dedup(s))
  {
    if |s| > 0 {
      var s' := s[..|s| - 1];
      var x := s[|s| - 1];
      var d' := Dedup(s');
      var d := Dedup(s);
      DedupCovers(s');
      assert d[..|d'|] == d';
      forall i | 0 <= i < |s|
        ensures CoveredBy(s[i], d)
      {
        if i < |s'| {
          assert s[i] == s'[i];
          assert CoveredBy(s'[i], d');
          var k :| 0 <= k < |d'| && Close(s'[i], d'[k]);
          assert d[k] == d'[k];
          assert Close(s[i], d[k]);
        } else if |d'| > 0 && Close(d'[|d'| - 1], x) {
          assert d == d';
          assert Close(s[i], d[|d'| - 1]);
        } else {
          assert d == d' + [x];
          assert Close(s[i], d[|d'|]);
        }
      }
    }
  }

  /** A sequence without close neighbours is left unchanged by the compaction. */
  lemma {:induction false} DedupKeepsSpread(s: seq<Point>)
    requires NoCloseNeighbours(s)
    ensures Dedup(s) == s
  {
    if |s| > 0 {
      var s' := s[..|s| - 1];
      DedupKeepsSpread(s');
      if |s'| > 0 {
        assert s'[|s'| - 1] == s[|s| - 2];
      }
      assert s == s' + [s[|s| - 1]];
    }
  }

  /** Running the compaction again on its own output changes nothing. */
  lemma DedupIdempotent(s: seq<Point>)
    ensures Dedup(Dedup(s)) == Dedup(s)
  {
    DedupNoCloseNeighbours(s);
    DedupKeepsSpread(Dedup(s));
  }

  /** Every point of a successful union is a vertex of one of the input polygons. */
  lemma UnionPointsAreVertices(ps: seq<seq<Point>>, sorted: seq<Point>)
    requires multiset(sorted) == multiset(Flatten(ps))
    ensures forall x :: x in Dedup(sorted) ==> exists i :: 0 <= i < |ps| && x in ps[i]
  {
    var u := Dedup(sorted);
    DedupIsSubseq(sorted);
    SubseqMultiset(u, sorted);
    FlattenMembers(ps);
    forall x | x in u
      ensures x in Flatten(ps)
    {
      assert x in multiset(u);
    }
  }

  /** Every vertex of every input polygon is Eps-close to some point of a successful union. */
  lemma UnionCoversVertices(ps: seq<seq<Point>>, sorted: seq<Point>)
    requires multiset(sorted) == multiset(Flatten(ps))
    ensures forall i, v :: 0 <= i < |ps| && v in ps[i] ==> CoveredBy(v, Dedup(sorted))
  {
    DedupCovers(sorted);
    FlattenMembers(ps);
    forall i, v | 0 <= i < |ps| && v in ps[i]
      ensures CoveredBy(v, Dedup(sorted))
    {
      assert v in multiset(Flatten(ps));
      assert v in multiset(sorted);
      var m :| 0 <= m < |sorted| && sorted[m] == v;
      assert CoveredBy(sorted[m], Dedup(sorted));
    }
  }

  /** A successful union is angle-sorted and has no two Eps-close neighbours. */
  lemma UnionSortedAndSpread(sorted: seq<Point>, angle: Point -> real)
    requires SortedBy(sorted, angle)
    ensures SortedBy(Dedup(sorted), angle)
    ensures NoCloseNeighbours(Dedup(sorted))
  {
    DedupIsSubseq(sorted);
    SubseqSorted(Dedup(sorted), sorted, angle);
    DedupNoCloseNeighbours(sorted);
  }

  /** An empty polygon list gives an empty union; a non-empty list of valid polygons gives between 1
      and the total vertex count of points. */
  lemma UnionSize(ps: seq<seq<Point>>, sorted: seq<Point>)
    requires ValidateAll(ps) == Pass
    requires multiset(sorted) == multiset(Flatten(ps))
    ensures |ps| == 0 ==> Dedup(sorted) == []
    ensures |ps| > 0 ==> 1 <= |Dedup(sorted)| <= |Flatten(ps)|
  {
    assert |sorted| == |multiset(sorted)| == |multiset(Flatten(ps))| == |Flatten(ps)|;
    DedupBounds(sorted);
    if |ps| > 0 {
      FlattenLength(ps, 0);
    }
  }
}
