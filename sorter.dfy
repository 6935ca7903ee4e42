/** The in-place selection sort run by each sorting thread. */
module Sorter {
  import opened Order
  import opened Buffers

  /** swap: exchanges the elements at positions x and y (which may be the
      same position) of one buffer. */
  method Swap(a: array<int>, x: int, y: int)
    requires 0 <= x < a.Length && 0 <= y < a.Length
    modifies a
    ensures a[..] == old(a[..])[x := old(a[y])][y := old(a[x])]
    ensures multiset(a[..]) == multiset(old(a[..]))
  {
    var temp := a[x];
    a[x] := a[y];
    a[y] := temp;
  }

  /** The first i positions hold the i smallest elements, in order: the
      state selectionSort reaches after i rounds of its outer loop. */
  ghost predicate SortedPrefix(s: seq<int>, i: int) {
    && (forall p, q :: 0 <= p < q < i <= |s| ==> s[p] <= s[q])
    && (forall p, q :: 0 <= p < i <= q < |s| ==> s[p] <= s[q])
  }

  /** One round of the outer loop: swapping the first minimum of s[i..] into
      position i extends the sorted prefix by one. */
  lemma SelectionStep(s: seq<int>, i: int, m: int)
    requires 0 <= i < |s| && SortedPrefix(s, i)
    requires m == FirstMinIndex(s, i, |s|)
    ensures SortedPrefix(s[m := s[i]][i := s[m]], i + 1)
  {
    var t := s[m := s[i]][i := s[m]];
    forall p, q | 0 <= p < i + 1 <= q < |t|
      ensures t[p] <= t[q]
    {
      if q == m {
        assert t[q] == s[i];
      } else {
        assert t[q] == s[q];
      }
    }
  }

  /** When at most one element is left unsorted, the whole buffer is sorted. */
  lemma SortedPrefixComplete(s: seq<int>, i: int)
    requires SortedPrefix(s, i) && 0 <= i <= |s| && |s| - 1 <= i
    ensures Sorted(s)
  {
  }

  /** The inner loop of selectionSort: scans a[i + 1..] and keeps the index
      of the smallest element seen, moving only on a strictly smaller one, so
      it ends on the first index of a minimum of a[i..]. */
  method MinIndexFrom(a: array<int>, i: int) returns (idxMinNum: int)
    requires 0 <= i < a.Length
    ensures idxMinNum == FirstMinIndex(a[..], i, a.Length)
  {
    idxMinNum := i;
    var j := i + 1;
    while j < a.Length
      invariant i + 1 <= j <= a.Length
      invariant idxMinNum == FirstMinIndex(a[..], i, j)
    {
      if a[j] < a[idxMinNum] {
        idxMinNum := j;
      }
      j := j + 1;
    }
  }

  /** selectionSort: for i from 0 to size - 2, find the first index of a
      minimum of [i, size) and swap it into position i. The result is sorted
      and a permutation of the input; buffers of size 0 or 1 are untouched. */
  method SelectionSort(arr: SortingParams)
    requires arr.Valid()
    modifies arr.data
    ensures Sorted(arr.data[..])
    ensures multiset(arr.data[..]) == multiset(old(arr.data[..]))
    ensures arr.size <= 1 ==> arr.data[..] == old(arr.data[..])
  {
    var a, n := arr.data, arr.size;
    var i := 0;
    while i < n - 1
      invariant 0 <= i <= n
      invariant SortedPrefix(a[..], i)
      invariant multiset(a[..]) == multiset(old(a[..]))
    {
      var idxMinNum := MinIndexFrom(a, i);
      ghost var before := a[..];
      SelectionStep(before, i, idxMinNum);
      Swap(a, idxMinNum, i);
      assert a[..] == before[idxMinNum := before[i]][i := before[idxMinNum]];
      i := i + 1;
    }
    SortedPrefixComplete(a[..], i);
    if n <= 1 {
      SortedPermutationUnique(a[..], old(a[..]));
    }
  }
}
