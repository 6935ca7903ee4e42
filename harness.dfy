/** The data flow of main with its threads joined: the one-thread run sorts a
    full copy b of the source, the two-thread run sorts the two halves and
    merges them into c. Both end with the same sorted sequence. */
module Harness {
  import opened Order
  import opened Buffers
  import opened Sorter
  import opened Merger
  import opened Partitioner

  /** The half-sized buffers of main and their copies of the source: the
      first half followed by the second half is the source, in order. */
  method SplitHalves(a: SortingParams) returns (firstHalf: SortingParams, secondHalf: SortingParams)
    requires a.Valid()
    ensures firstHalf.Valid() && secondHalf.Valid()
    ensures (firstHalf.size, secondHalf.size) == HalfSizes(a.size)
    ensures firstHalf.data[..] + secondHalf.data[..] == a.data[..]
    ensures fresh(firstHalf.data) && fresh(secondHalf.data) && firstHalf.data != secondHalf.data
  {
    var firstHalfSize := a.size / 2;
    var secondHalfSize := firstHalfSize + a.size % 2;
    firstHalf := new SortingParams(firstHalfSize);
    secondHalf := new SortingParams(secondHalfSize);
    CopyArray(a, firstHalf);
    CopySecondHalf(a, secondHalf);
    assert a.data[..] == a.data[..a.size / 2] + a.data[a.size / 2..];
  }

  /** The one-thread run of main: b is a fresh copy of the source, sorted
      by one selection sort. */
  method OneThread(a: SortingParams) returns (b: SortingParams)
    requires a.Valid()
    ensures b.Valid() && b.size == a.size
    ensures Sorted(b.data[..]) && multiset(b.data[..]) == multiset(a.data[..])
  {
    b := new SortingParams(a.size);
    CopyArray(a, b);
    assert b.data[..] == a.data[..];
    SelectionSort(b);
  }

  /** The two sorting threads of the two-thread run: each half of the
      source is copied out and sorted on its own. */
  method SortHalves(a: SortingParams) returns (firstHalf: SortingParams, secondHalf: SortingParams)
    requires a.Valid()
    ensures firstHalf.Valid() && secondHalf.Valid()
    ensures (firstHalf.size, secondHalf.size) == HalfSizes(a.size)
    ensures Sorted(firstHalf.data[..]) && Sorted(secondHalf.data[..])
    ensures multiset(firstHalf.data[..]) == multiset(a.data[..a.size / 2])
    ensures multiset(secondHalf.data[..]) == multiset(a.data[a.size / 2..])
    ensures multiset(firstHalf.data[..]) + multiset(secondHalf.data[..]) == multiset(a.data[..])
    ensures fresh(firstHalf.data) && fresh(secondHalf.data) && firstHalf.data != secondHalf.data
  {
    firstHalf, secondHalf := SplitHalves(a);
    assert firstHalf.data[..] == a.data[..a.size / 2];
    assert secondHalf.data[..] == a.data[a.size / 2..];
    assert a.data[..] == a.data[..a.size / 2] + a.data[a.size / 2..];
    SelectionSort(firstHalf);
    SelectionSort(secondHalf);
  }

  /** The two-thread run of main: the two sorted halves are merged into a
      fresh buffer c. */
  method TwoThreads(a: SortingParams) returns (c: SortingParams)
    requires a.Valid()
    ensures c.Valid() && c.size == a.size
    ensures Sorted(c.data[..]) && multiset(c.data[..]) == multiset(a.data[..])
  {
    c := new SortingParams(a.size);
    var firstHalf, secondHalf := SortHalves(a);
    MergeSort(MergingParams(firstHalf, secondHalf, c));
    assert c.data[..] == c.data[..firstHalf.size + secondHalf.size];
    assert multiset(c.data[..]) == multiset(firstHalf.data[..]) + multiset(secondHalf.data[..]);
  }

  /** main without its threads, timers and output: both runs end with the
      same sequence, the sorted permutation of the source. */
  method RunScenarios(a: SortingParams) returns (b: SortingParams, c: SortingParams)
    requires a.Valid()
    ensures b.Valid() && c.Valid() && b.size == a.size && c.size == a.size
    ensures Sorted(b.data[..]) && multiset(b.data[..]) == multiset(a.data[..])
    ensures c.data[..] == b.data[..]
  {
    b := OneThread(a);
    c := TwoThreads(a);
    SortedPermutationUnique(c.data[..], b.data[..]);
  }
}
