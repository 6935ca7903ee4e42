/** The copies main makes of its source buffer: a full copy for the
    one-thread run, and the two halves for the two-thread run. */
module Partitioner {
  import opened Buffers

  /** The sizes main gives the two halves of a buffer of n elements: the
      first half rounds down, the second half takes the odd element. */
  function HalfSizes(n: nat): (r: (nat, nat))
    ensures r.0 + r.1 == n
    ensures r.0 <= r.1 <= r.0 + 1
    ensures r.1 == r.0 + 1 <==> n % 2 == 1
  {
    (n / 2, n / 2 + n % 2)
  }

  /** The position of og that copySecondHalf copies into position 0 of a
      buffer of copySize elements: copySize when og.size is even, one less
      when it is odd. */
  function SecondHalfStart(ogSize: nat, copySize: nat): (start: int)
    ensures start == copySize - ogSize % 2
    ensures 0 < copySize ==> 0 <= start
  {
    if ogSize % 2 == 0 then copySize else copySize - 1
  }

  /** For the size main gives the second half, both parity branches start
      the copy right after the first half. */
  lemma SecondHalfStartIsFirstHalfSize(ogSize: nat)
    ensures SecondHalfStart(ogSize, HalfSizes(ogSize).1) == HalfSizes(ogSize).0
  {
  }

  /** copySecondHalf reads only inside og exactly when twice the copy size
      is at most og.size rounded up to even. */
  lemma SecondHalfInBounds(ogSize: nat, copySize: nat)
    requires 0 < copySize
    ensures 0 <= SecondHalfStart(ogSize, copySize)
    ensures SecondHalfStart(ogSize, copySize) + copySize <= ogSize
        <==> 2 * copySize <= ogSize + ogSize % 2
  {
  }

  /** copyArray: copies the first copy.size elements of og into copy. og may
      be the same buffer as copy. */
  method CopyArray(og: SortingParams, copy: SortingParams)
    requires og.Valid() && copy.Valid()
    requires copy.size <= og.size
    modifies copy.data
    ensures copy.data[..] == old(og.data[..copy.size])
    ensures og.data != copy.data ==> unchanged(og.data)
  {
    var i := 0;
    while i < copy.size
      invariant 0 <= i <= copy.size
      invariant forall k :: 0 <= k < i ==> copy.data[k] == old(og.data[k])
      invariant forall k :: i <= k < og.size ==> og.data[k] == old(og.data[k])
    {
      copy.data[i] := og.data[i];
      i := i + 1;
    }
  }

  /** copySecondHalf: fills copy with the copy.size elements of og starting
      at SecondHalfStart, which stays inside og only when
      2 * copy.size <= og.size + og.size % 2. For the size main gives the
      second half, the copy is exactly og from og.size / 2 on. */
  method CopySecondHalf(og: SortingParams, copy: SortingParams)
    requires og.Valid() && copy.Valid()
    requires 2 * copy.size <= og.size + og.size % 2
    modifies copy.data
    ensures forall k :: 0 <= k < copy.size
              ==> copy.data[k] == old(og.data[SecondHalfStart(og.size, copy.size) + k])
    ensures copy.size == HalfSizes(og.size).1 ==>
              forall k :: 0 <= k < copy.size ==> copy.data[k] == old(og.data[og.size / 2 + k])
    ensures og.data != copy.data ==> unchanged(og.data)
  {
    ghost var start := SecondHalfStart(og.size, copy.size);
    if 0 < copy.size {
      SecondHalfInBounds(og.size, copy.size);
    }
    var i := 0;
    while i < copy.size
      invariant 0 <= i <= copy.size
      invariant forall k :: 0 <= k < i ==> copy.data[k] == old(og.data[start + k])
      invariant forall k :: i <= k < og.size ==> og.data[k] == old(og.data[k])
    {
      if og.size % 2 == 0 {
        copy.data[i] := og.data[copy.size + i];
      } else {
        copy.data[i] := og.data[(copy.size - 1) + i];
      }
      i := i + 1;
    }
    if copy.size == HalfSizes(og.size).1 {
      SecondHalfStartIsFirstHalfSize(og.size);
    }
  }
}
