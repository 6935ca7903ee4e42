# Multi-threaded sorting program: verified model of its sorting core

The program builds a buffer of `n` random doubles and sorts it two ways. In
the one-thread run, a full copy `b` is sorted by one selection sort. In the
two-thread run, the buffer is split into a first half of `n/2` elements and a
second half of `n/2 + n%2` elements. Each half is sorted by its own thread,
and a third thread merges the two sorted halves into `c`.

This project models that core in Dafny:

- `Order`: non-decreasing order, the first index of a minimum, and the
  uniqueness of a sorted permutation.
- `Buffers`: `sortingParams` as a class holding an `array<int>` and its size,
  and `mergingParams` as a record of three of them.
- `Sorter`: `swap` and `selectionSort` over a buffer, in place.
- `Merger`: `mergeSort`'s three loops. They are proved against `Merged`, a
  recursive definition of what the loops write.
- `Partitioner`: `copyArray`, `copySecondHalf` and the half-size arithmetic.
- `Harness`: `main`'s copy, sort and merge steps, run one after another. It
  proves that `b` and `c` end up holding the same sequence.

Every thread in `main` is joined before its result is read, and the two
sorting threads own disjoint buffers. The threads are therefore modelled as
sequential calls.

Elements are `int`. The source's doubles lie in [1, 1000], so no NaN occurs.
The code only copies them and compares them with `<`, which is then a strict
total order.

Some loops are written as separate methods:

- `MinIndexFrom` is the inner loop of `selectionSort`.
- `MergeHeads` is the first loop of `mergeSort`.
- `CopyRest` is used for both of `mergeSort`'s draining loops.

`MinIndexFrom` and `MergeHeads` hold the source's loops unchanged.
`CopyRest` is the same copying loop, parametrised by the source array and the
two start positions. The source's two draining loops advance
`firstIdx`/`secondIdx` and `mergedIdx` instead. The enclosing method calls
each of these methods where the source has the loop.

The merge writes the second input's element first when the two heads are
equal. The comparison `firstHalf->array[firstIdx] < secondHalf->array[secondIdx]`
is strict, and the `else` branch takes the second input. So this is not the
stable merge that would favour the first input on a tie (`MergeFrom`,
`Merger.MergeFromTieTakesSecond`). With `int` elements,
equal elements cannot be told apart, so sortedness and the permutation
property hold either way.

## Model

| member | source | states |
|---|---|---|
| Order.FirstMinIndex | main.c:89-95 | the index lies in [lo, hi); its element is at most every element of s[lo..hi); every earlier index in the range holds a strictly larger element, so this is the first minimum |
| Order.SortedPermutationUnique | main.c:210-267 | two sorted sequences with the same multiset are equal: there is only one sorted permutation of the source |
| Buffers.SortingParams.constructor | main.c:28-35 | generateSorting makes a fresh buffer whose size is its allocated length |
| Sorter.Swap | main.c:76-80 | the two positions exchange their elements, nothing else changes, and the multiset is preserved |
| Sorter.SelectionStep | main.c:88-97 | swapping the first minimum of s[i..] into position i extends the sorted prefix, whose elements are no larger than any later element, by one position |
| Sorter.SortedPrefixComplete | main.c:88 | once the outer loop stops at i >= size - 1, the whole buffer is sorted |
| Sorter.MinIndexFrom | main.c:89-95 | the inner loop ends on FirstMinIndex of a[i..size), the first index of a minimum |
| Sorter.SelectionSort | main.c:85-100 | the buffer ends non-decreasing and a permutation of its input; a buffer of size 0 or 1 is left exactly as it was |
| Merger.MergeFrom | main.c:116-144 | what the three loops still write from cursors (i, j): the strictly smaller head, or the second input's head on a tie, then the rest of whichever input remains; its length is what is left of both inputs |
| Merger.Merged | main.c:116-144 | the whole sequence the loops write, MergeFrom from cursors (0, 0); its length is the sum of the input lengths |
| Merger.MergeFromPermutation | main.c:116-144 | from any cursor pair (i, j), what the loops still write is the multiset union of s[i..] and t[j..] |
| Merger.MergedPermutation | main.c:116-144 | the merge is the multiset union of its two inputs |
| Merger.MergeFromBounded | main.c:116-144 | a common lower bound of what is left of both inputs bounds everything still to be written |
| Merger.MergeFromSorted | main.c:116-144 | from any cursor pair, two sorted inputs give a sorted run |
| Merger.MergedSorted | main.c:116-144 | two sorted inputs merge into a sorted sequence |
| Merger.MergeFromTieTakesSecond | main.c:119-126 | on equal heads the second input's head is written first, and the first input's cursor does not move |
| Merger.MergedWithEmpty | main.c:133-144 | an empty input leaves the merge equal to the other input (the first half is empty when n == 1) |
| Merger.MergeHeads | main.c:112-130 | on exit one input is used up; positions [0, firstIdx + secondIdx) hold the start of Merged; what is still to be written is MergeFrom at the final cursors; the rest of c is untouched |
| Merger.CopyRest | main.c:133-144 | src[from..] lands in c from position `at` on, and every other position of c is unchanged |
| Merger.DrainTail | main.c:132-144 | once one input is used up, the rest of the merge is the rest of the other input, position by position |
| Merger.MergeSort | main.c:105-146 | c[0..n1+n2) is exactly Merged(first, second); it is their multiset union; it is sorted when both inputs are; the inputs and c[n1+n2..) are unchanged |
| Partitioner.HalfSizes | main.c:199-200 | the half sizes add up to n; the second is the first or one more, and it is one more exactly when n is odd |
| Partitioner.SecondHalfStart | main.c:163-166 | both parity branches start reading og at copy.size - og.size % 2, which is non-negative for a non-empty copy |
| Partitioner.SecondHalfStartIsFirstHalfSize | main.c:161-169 | for the second-half size main uses, both parity branches start the copy at n/2, right after the first half |
| Partitioner.SecondHalfInBounds | main.c:161-169 | for a non-empty copy, the start offset is non-negative, and the reads stay inside og exactly when 2 * copy.size <= og.size + og.size % 2 |
| Partitioner.CopyArray | main.c:152-156 | copy holds og[0..copy.size), and og is unchanged when the buffers differ |
| Partitioner.CopySecondHalf | main.c:161-169 | copy[k] == og[SecondHalfStart + k]; for the size main uses, copy[k] == og[og.size/2 + k]; og is unchanged when the buffers differ |
| Harness.SplitHalves | main.c:199-239 | the half sizes are HalfSizes(n), and the first half followed by the second half is the source, in order |
| Harness.OneThread | main.c:196-223 | b is a sorted permutation of the source |
| Harness.SortHalves | main.c:238-255 | the halves have sizes HalfSizes(n); each ends sorted; the first holds the multiset of the source's first n/2 elements and the second the multiset of the rest |
| Harness.TwoThreads | main.c:197-267 | c is a sorted permutation of the source |
| Harness.RunScenarios | main.c:188-267 | the one-thread run and the two-thread run end with the same sequence, the sorted permutation of the source |

## Left out

- Threads (`pthread_create`/`pthread_join`): each is joined before its result is read, so they are modelled as sequential calls.
- Timing (`clock_gettime`) and the elapsed-time arithmetic: clock I/O and floating point.
- `fillArray`, with `srand`/`rand` and the scaling to [1, 1000]: the source buffer is an arbitrary input.
- `printArray` and every `printf`/`fprintf`: console output.
- Command-line checks, `atoi` and exit codes: argument handling only. `RunScenarios` accepts every size, including the sizes `main` rejects.
- `malloc`/`free` and `generateMerging`: the buffer constructor stands for `generateSorting`; `MergingParams` is built directly.
- Element type: doubles are modelled as `int`. Only `<` and copying are used, and the values exclude NaN.
- Integer width: sizes and indices are unbounded. The source's `int` cannot overflow for any buffer it can allocate.
- Partitioner.CopyArray and Partitioner.CopySecondHalf: when `og` and `copy` are the same buffer, the model still states the copied values. It does not state that `og` is unchanged, because the writes change it.
