/** The two parameter records that main hands to its worker threads. */
module Buffers {

  /** A `sortingParams`: a heap buffer and its size. Neither field is
      reassigned after the buffer is made; only the elements change. */
  class SortingParams {
    const data: array<int>
    const size: int

    /** generateSorting always makes `size` the allocated length. */
    ghost predicate Valid() {
      size == data.Length
    }

    /** generateSorting: a fresh buffer of `n` elements. The element values
        are left unspecified, as malloc leaves them. */
    constructor (n: nat)
      ensures Valid() && size == n && fresh(data)
    {
      data := new int[n];
      size := n;
    }
  }

  /** A `mergingParams`: the two sorted inputs and the destination of
      mergeSort. generateMerging only fills these three fields. */
  datatype MergingParams = MergingParams(first: SortingParams, second: SortingParams, third: SortingParams)
}
