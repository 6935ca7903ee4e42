/** The two-way merge run by the merging thread. */
module Merger {
  import opened Order
  import opened Buffers

  /** What mergeSort writes from the point where its cursors stand at
      firstIdx == i and secondIdx == j: while both inputs have elements left
      it takes s[i] only when it is strictly smaller than t[j] (so on equal
      heads t[j] goes first); once one input is used up it copies the rest of
      the other. */
  function MergeFrom(s: seq<int>, t: seq<int>, i: nat, j: nat): (r: seq<int>)
    requires i <= |s| && j <= |t|
    ensures |r| == (|s| - i) + (|t| - j)
    decreases (|s| - i) + (|t| - j)
  {
    if i == |s| then t[j..]
    else if j == |t| then s[i..]
    else if s[i] < t[j] then [s[i]] + MergeFrom(s, t, i + 1, j)
    else [t[j]] + MergeFrom(s, t, i, j + 1)
  }

  /** The whole sequence mergeSort writes for inputs s and t. */
  function Merged(s: seq<int>, t: seq<int>): (r: seq<int>)
    ensures |r| == |s| + |t|
  {
    MergeFrom(s, t, 0, 0)
  }

  /** Nothing is lost or duplicated from the cursors on. */
  lemma {:induction false} MergeFromPermutation(s: seq<int>, t: seq<int>, i: nat, j: nat)
    requires i <= |s| && j <= |t|
    ensures multiset(MergeFrom(s, t, i, j)) == multiset(s[i..]) + multiset(t[j..])
    decreases (|s| - i) + (|t| - j)
  {
    if i < |s| && j < |t| {
      if s[i] < t[j] {
        var rest := MergeFrom(s, t, i + 1, j);
        MergeFromPermutation(s, t, i + 1, j);
        SuffixMultiset(s, i);
        assert MergeFrom(s, t, i, j) == [s[i]] + rest;
        assert multiset([s[i]] + rest) == multiset{s[i]} + multiset(rest);
      } else {
        var rest := MergeFrom(s, t, i, j + 1);
        MergeFromPermutation(s, t, i, j + 1);
        SuffixMultiset(t, j);
        assert MergeFrom(s, t, i, j) == [t[j]] + rest;
        assert multiset([t[j]] + rest) == multiset{t[j]} + multiset(rest);
      }
    }
  }

  /** The merge is the multiset union of its inputs. */
  lemma MergedPermutation(s: seq<int>, t: seq<int>)
    ensures multiset(Merged(s, t)) == multiset(s) + multiset(t)
  {
    MergeFromPermutation(s, t, 0, 0);
    assert s[0..] == s && t[0..] == t;
  }

  /** A common lower bound of what is left of both inputs bounds everything
      still to be written. */
  lemma {:induction false} MergeFromBounded(s: seq<int>, t: seq<int>, i: nat, j: nat, x: int)
    requires i <= |s| && j <= |t|
    requires forall k :: i <= k < |s| ==> x <= s[k]
    requires forall k :: j <= k < |t| ==> x <= t[k]
    ensures forall k :: 0 <= k < |MergeFrom(s, t, i, j)| ==> x <= MergeFrom(s, t, i, j)[k]
    decreases (|s| - i) + (|t| - j)
  {
    if i < |s| && j < |t| {
      if s[i] < t[j] {
        MergeFromBounded(s, t, i + 1, j, x);
      } else {
        MergeFromBounded(s, t, i, j + 1, x);
      }
    }
  }

  /** Merging from any cursor position of two sorted inputs writes a sorted
      run. */
  lemma {:induction false} MergeFromSorted(s: seq<int>, t: seq<int>, i: nat, j: nat)
    requires i <= |s| && j <= |t|
    requires Sorted(s) && Sorted(t)
    ensures Sorted(MergeFrom(s, t, i, j))
    decreases (|s| - i) + (|t| - j)
  {
    if i < |s| && j < |t| {
      if s[i] < t[j] {
        MergeFromSorted(s, t, i + 1, j);
        MergeFromBounded(s, t, i + 1, j, s[i]);
      } else {
        MergeFromSorted(s, t, i, j + 1);
        MergeFromBounded(s, t, i, j + 1, t[j]);
      }
    }
  }

  /** Merging two sorted inputs gives a sorted result. */
  lemma MergedSorted(s: seq<int>, t: seq<int>)
    requires Sorted(s) && Sorted(t)
    ensures Sorted(Merged(s, t))
  {
    MergeFromSorted(s, t, 0, 0);
  }

  /** The tie-break: when the two heads are equal, the head of the second
      input is written first and the first input is left as it was. */
  lemma MergeFromTieTakesSecond(s: seq<int>, t: seq<int>, i: nat, j: nat)
    requires i < |s| && j < |t| && s[i] == t[j]
    ensures MergeFrom(s, t, i, j) == [t[j]] + MergeFrom(s, t, i, j + 1)
  {
  }

  /** An empty input (the first half of a one-element buffer) leaves the
      merge equal to the other input. */
  lemma MergedWithEmpty(s: seq<int>, t: seq<int>)
    ensures Merged([], t) == t
    ensures Merged(s, []) == s
  {
    assert t[0..] == t && s[0..] == s;
  }

  /** One pass of a merge loop that copies firstHalf[firstIdx] to position k
      of the destination: that element is the k-th of the whole merge, and
      what is still to be written moves on by one. */
  lemma MergeStepFirst(s: seq<int>, t: seq<int>, i: nat, j: nat, k: nat)
    requires i < |s| && j <= |t| && k <= |Merged(s, t)|
    requires j == |t| || s[i] < t[j]
    requires MergeFrom(s, t, i, j) == Merged(s, t)[k..]
    ensures k < |Merged(s, t)| && Merged(s, t)[k] == s[i]
    ensures MergeFrom(s, t, i + 1, j) == Merged(s, t)[k + 1..]
  {
    assert Merged(s, t)[k..][0] == s[i];
    assert Merged(s, t)[k..][1..] == Merged(s, t)[k + 1..];
  }

  /** One pass of a merge loop that copies secondHalf[secondIdx]. */
  lemma MergeStepSecond(s: seq<int>, t: seq<int>, i: nat, j: nat, k: nat)
    requires i <= |s| && j < |t| && k <= |Merged(s, t)|
    requires i == |s| || !(s[i] < t[j])
    requires MergeFrom(s, t, i, j) == Merged(s, t)[k..]
    ensures k < |Merged(s, t)| && Merged(s, t)[k] == t[j]
    ensures MergeFrom(s, t, i, j + 1) == Merged(s, t)[k + 1..]
  {
    assert Merged(s, t)[k..][0] == t[j];
    assert Merged(s, t)[k..][1..] == Merged(s, t)[k + 1..];
  }

  /** The first loop of mergeSort: while both inputs have elements left,
      copies the strictly smaller head (the second input's head on a tie) to
      the destination. On return one input is used up, what was written is
      the start of the merge and what is still to be written is the merge
      from the returned cursors. */
  method MergeHeads(firstHalf: array<int>, secondHalf: array<int>, c: array<int>)
      returns (firstIdx: nat, secondIdx: nat)
    requires c != firstHalf && c != secondHalf
    requires firstHalf.Length + secondHalf.Length <= c.Length
    modifies c
    ensures firstIdx <= firstHalf.Length && secondIdx <= secondHalf.Length
    ensures firstIdx == firstHalf.Length || secondIdx == secondHalf.Length
    ensures forall k :: 0 <= k < firstIdx + secondIdx ==> c[k] == Merged(firstHalf[..], secondHalf[..])[k]
    ensures MergeFrom(firstHalf[..], secondHalf[..], firstIdx, secondIdx)
         == Merged(firstHalf[..], secondHalf[..])[firstIdx + secondIdx..]
    ensures forall k :: firstIdx + secondIdx <= k < c.Length ==> c[k] == old(c[k])
  {
    ghost var s, t := firstHalf[..], secondHalf[..];
    ghost var whole := Merged(s, t);
    firstIdx, secondIdx := 0, 0;
    var mergedIdx := 0;
    while firstIdx < firstHalf.Length && secondIdx < secondHalf.Length
      invariant firstIdx <= |s| && secondIdx <= |t| && mergedIdx == firstIdx + secondIdx
      invariant forall k :: 0 <= k < mergedIdx ==> c[k] == whole[k]
      invariant MergeFrom(s, t, firstIdx, secondIdx) == whole[mergedIdx..]
      invariant forall k :: mergedIdx <= k < c.Length ==> c[k] == old(c[k])
    {
      if firstHalf[firstIdx] < secondHalf[secondIdx] {
        MergeStepFirst(s, t, firstIdx, secondIdx, mergedIdx);
        c[mergedIdx] := firstHalf[firstIdx];
        firstIdx := firstIdx + 1;
      } else {
        MergeStepSecond(s, t, firstIdx, secondIdx, mergedIdx);
        c[mergedIdx] := secondHalf[secondIdx];
        secondIdx := secondIdx + 1;
      }
      mergedIdx := mergedIdx + 1;
    }
  }

  /** The two draining loops of mergeSort: copies src[from..] to the
      destination starting at position at, leaving the rest of it alone. */
  method CopyRest(src: array<int>, from: nat, c: array<int>, at: nat)
    requires c != src
    requires from <= src.Length && at + (src.Length - from) <= c.Length
    modifies c
    ensures forall q :: at <= q < at + (src.Length - from) ==> c[q] == src[from + (q - at)]
    ensures forall q :: 0 <= q < c.Length && !(at <= q < at + (src.Length - from)) ==> c[q] == old(c[q])
  {
    var i, k := from, at;
    while i < src.Length
      invariant from <= i <= src.Length && k == at + (i - from)
      invariant forall q :: at <= q < k ==> c[q] == src[from + (q - at)]
      invariant forall q :: 0 <= q < c.Length && !(at <= q < k) ==> c[q] == old(c[q])
    {
      c[k] := src[i];
      i, k := i + 1, k + 1;
    }
  }

  /** Once one input is used up, what is left of the merge is the rest of
      the other input: position k of the whole merge holds s[k - j] up to
      |s| + j and t[k - |s|] after it. */
  lemma DrainTail(s: seq<int>, t: seq<int>, i: nat, j: nat, w: seq<int>)
    requires i <= |s| && j <= |t| && (i == |s| || j == |t|)
    requires |w| == |s| + |t| && MergeFrom(s, t, i, j) == w[i + j..]
    ensures forall k :: i + j <= k < |s| + j ==> w[k] == s[k - j]
    ensures forall k :: |s| + j <= k < |s| + |t| ==> w[k] == t[k - |s|]
  {
    assert MergeFrom(s, t, i, j) == s[i..] + t[j..];
    forall k | i + j <= k < |s| + |t|
      ensures w[k] == (s[i..] + t[j..])[k - (i + j)]
    {
    }
  }

  /** mergeSort: merges first.data[0..first.size) and
      second.data[0..second.size) into third.data[0..first.size + second.size),
      leaving the inputs and the rest of the destination untouched. When both
      inputs are sorted the written part is sorted, and in every case it is
      the multiset union of the inputs. */
  method MergeSort(m: MergingParams)
    requires m.first.Valid() && m.second.Valid() && m.third.Valid()
    requires m.third.size >= m.first.size + m.second.size
    requires m.third.data != m.first.data && m.third.data != m.second.data
    modifies m.third.data
    ensures m.third.data[..m.first.size + m.second.size] == Merged(m.first.data[..], m.second.data[..])
    ensures forall k :: m.first.size + m.second.size <= k < m.third.size
              ==> m.third.data[k] == old(m.third.data[k])
    ensures multiset(m.third.data[..m.first.size + m.second.size])
         == multiset(m.first.data[..]) + multiset(m.second.data[..])
    ensures Sorted(m.first.data[..]) && Sorted(m.second.data[..])
         ==> Sorted(m.third.data[..m.first.size + m.second.size])
    ensures unchanged(m.first.data) && unchanged(m.second.data)
  {
    var firstHalf, secondHalf, c := m.first.data, m.second.data, m.third.data;
    ghost var s, t := firstHalf[..], secondHalf[..];
    ghost var whole := Merged(s, t);
    var firstIdx, secondIdx := MergeHeads(firstHalf, secondHalf, c);
    ghost var c1 := c[..];
    CopyRest(firstHalf, firstIdx, c, firstIdx + secondIdx);
    ghost var c2 := c[..];
    CopyRest(secondHalf, secondIdx, c, firstHalf.Length + secondIdx);
    DrainTail(s, t, firstIdx, secondIdx, whole);
    forall k | 0 <= k < |s| + |t|
      ensures c[k] == whole[k]
    {
      if k < firstIdx + secondIdx {
        assert c[k] == c2[k] == c1[k];
      } else if k < |s| + secondIdx {
        assert c[k] == c2[k];
      }
    }
    assert c[..|s| + |t|] == whole;
    MergedPermutation(s, t);
    if Sorted(s) && Sorted(t) {
      MergedSorted(s, t);
    }
  }
}
