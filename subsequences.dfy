/** Subsequences and key-sortedness of sequences, used to state what the filters and the compaction keep. */
module Subsequences {

  /** s can be obtained from t by deleting elements, keeping the order of the rest. */
  ghost predicate IsSubseq<T>(s: seq<T>, t: seq<T>)
    decreases |t|
  {
    if |s| == 0 then true
    else if |t| == 0 then false
    else (s[|s| - 1] == t[|t| - 1] && IsSubseq(s[..|s| - 1], t[..|t| - 1])) || IsSubseq(s, t[..|t| - 1])
  }

  /** The keys of s never decrease from left to right. */
  ghost predicate SortedBy<T>(s: seq<T>, key: T -> real) {
    forall i, j :: 0 <= i < j < |s| ==> key(s[i]) <= key(s[j])
  }

  lemma SubseqKeep<T>(s: seq<T>, t: seq<T>, x: T)
    requires IsSubseq(s, t)
    ensures IsSubseq(s + [x], t + [x])
  {
    assert (s + [x])[..|s|] == s;
    assert (t + [x])[..|t|] == t;
  }

  lemma SubseqSkip<T>(s: seq<T>, t: seq<T>, x: T)
    requires IsSubseq(s, t)
    ensures IsSubseq(s, t + [x])
  {
    assert (t + [x])[..|t|] == t;
  }

  /** A subsequence takes no element more often than the sequence holds it. */
  lemma {:induction false} SubseqMultiset<T>(s: seq<T>, t: seq<T>)
    requires IsSubseq(s, t)
    ensures multiset(s) <= multiset(t)
    ensures |s| <= |t|
    decreases |t|
  {
    if |s| == 0 {
    } else if |t| == 0 {
    } else {
      var s', t' := s[..|s| - 1], t[..|t| - 1];
      assert s == s' + [s[|s| - 1]];
      assert t == t' + [t[|t| - 1]];
      if s[|s| - 1] == t[|t| - 1] && IsSubseq(s', t') {
        SubseqMultiset(s', t');
      } else {
        SubseqMultiset(s, t');
      }
    }
  }

  /** Deleting elements from a key-sorted sequence leaves it key-sorted. */
  lemma {:induction false} SubseqSorted<T>(s: seq<T>, t: seq<T>, key: T -> real)
    requires IsSubseq(s, t) && SortedBy(t, key)
    ensures SortedBy(s, key)
    decreases |t|
  {
    if |s| == 0 {
    } else if |t| == 0 {
    } else {
      var s', t' := s[..|s| - 1], t[..|t| - 1];
      assert SortedBy(t', key);
      if s[|s| - 1] == t[|t| - 1] && IsSubseq(s', t') {
        SubseqSorted(s', t', key);
        SubseqMultiset(s', t');
        forall i | 0 <= i < |s'|
          ensures key(s[i]) <= key(s[|s| - 1])
        {
          assert s[i] == s'[i];
          assert s'[i] in multiset(t');
          var k :| 0 <= k < |t'| && t'[k] == s'[i];
          assert t[k] == s[i];
        }
        forall i, j | 0 <= i < j < |s|
          ensures key(s[i]) <= key(s[j])
        {
          if j < |s| - 1 {
            assert s[i] == s'[i] && s[j] == s'[j];
          }
        }
      } else {
        SubseqSorted(s, t', key);
      }
    }
  }
}
