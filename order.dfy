/** Ordering facts shared by the sorter, the merger and the harness.

    The buffers of the program hold `double`s drawn from [1, 1000], so no NaN
    occurs and the only operation applied to them, `<`, is a strict total
    order. The model uses `int` elements with the same `<`. */
module Order {

  /** Non-decreasing order: what selectionSort leaves behind and what
      mergeSort expects of its two inputs. */
  predicate Sorted(s: seq<int>) {
    forall p, q :: 0 <= p < q < |s| ==> s[p] <= s[q]
  }

  /** The index the inner loop of selectionSort ends on, when it scans
      s[lo..hi) starting from idxMinNum == lo and moves only on a strictly
      smaller element: the FIRST position of a minimum of s[lo..hi). */
  function FirstMinIndex(s: seq<int>, lo: int, hi: int): (m: int)
    requires 0 <= lo < hi <= |s|
    ensures lo <= m < hi
    ensures forall k :: lo <= k < hi ==> s[m] <= s[k]
    ensures forall k :: lo <= k < m ==> s[m] < s[k]
    decreases hi - lo
  {
    if hi == lo + 1 then lo
    else
      var m := FirstMinIndex(s, lo, hi - 1);
      if s[hi - 1] < s[m] then hi - 1 else m
  }

  /** Splitting off the first element of a suffix splits its multiset. */
  lemma SuffixMultiset(s: seq<int>, i: nat)
    requires i < |s|
    ensures multiset(s[i..]) == multiset{s[i]} + multiset(s[i + 1..])
  {
    assert s[i..] == [s[i]] + s[i + 1..];
  }

  /** The head of a sorted sequence is no larger than any of its elements. */
  lemma SortedHeadIsLeast(s: seq<int>, x: int)
    requires Sorted(s) && x in multiset(s)
    ensures s[0] <= x
  {
    assert x in s;
  }

  /** A sorted permutation is unique: two sorted sequences with the same
      multiset of elements are equal. */
  lemma {:induction false} SortedPermutationUnique(s: seq<int>, t: seq<int>)
    requires Sorted(s) && Sorted(t)
    requires multiset(s) == multiset(t)
    ensures s == t
  {
    assert |s| == |multiset(s)| == |multiset(t)| == |t|;
    if s != [] {
      SortedHeadIsLeast(t, s[0]);
      SortedHeadIsLeast(s, t[0]);
      assert s == [s[0]] + s[1..];
      assert t == [t[0]] + t[1..];
      assert s[0] == t[0];
      assert multiset(s[1..]) == multiset(t[1..]) by {
        assert multiset(s) == multiset([s[0]]) + multiset(s[1..]);
        assert multiset(t) == multiset([s[0]]) + multiset(t[1..]);
        assert multiset(s[1..]) == multiset(s) - multiset([s[0]]);
        assert multiset(t[1..]) == multiset(t) - multiset([s[0]]);
      }
      SortedPermutationUnique(s[1..], t[1..]);
    }
  }
}
