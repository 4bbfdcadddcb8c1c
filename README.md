# Sorting visualizer: the sorting engine, verified

SortingVisualizer is a Swing panel. It draws an array of integers as bars and animates
four sorts over it: merge sort, quick sort, heap sort and LSD radix sort. A "Stop" button
cancels a running sort. The sort then finds out at its next poll of the panel's
`isSorting` flag or of its thread's interrupt status. This project models the panel's
array and each sort's moves on it in Dafny, and proves what each sort leaves behind.

The model is imperative, like the program:

- `Visualizer.SortingVisualizer` is a class whose field `bars: array<int>` is the
  program's `array`. Each Java method becomes a method on it that updates the array in
  place, with the same branches and the same index arithmetic.
- Where a Java method has several loops, each loop is a method of its own. For example,
  `merge` is `MergeHeads`, `DrainLeft`, `DrainRight` and `CopyIfRunning`, and `countSort`
  is `CountDigits`, `PrefixSums`, `Place` and `CopyOut`. The composite method calls them
  in the program's order.
- Each method is proved against a specification function on sequences:

  | Method | Specification |
  |---|---|
  | `Swap` | `Swapped` |
  | `Merge` | `MergedRange`, built from `Merged` |
  | `Partition` | `PartitionedAt`, `CountLess` |
  | `Heapify` and the build loop | `HeapFrom`, `IsMaxHeap` |
  | `CountSort` | `CountPass`, built from `Bucket` |
  | `RadixSort` | `RadixSortOf` |
- The properties the program relies on are proved as lemmas about those functions:
  - merge is sorted, a permutation and stable;
  - radix passes are stable per digit;
  - the number of radix passes is the number of decimal digits of the maximum;
  - all four sorts agree when uninterrupted.

Cancellation (module `Cancel`):

- Another thread writes the two flags. A sort sees them only at a poll, so they are
  modelled as a value `Flags(sorting, interrupted)` that every sort threads through its
  calls. At each poll (`Cancel.Poll`) the value may have moved on to any `g` with
  `Later(f, g)`.
- `Later` says a stop is never undone. Nothing clears the interrupt flag, and
  `stopSorting` interrupts the sorting thread after clearing `isSorting`. For the
  `isSorting` half, `Later` assumes at most one sorting thread is alive at a time (see
  "## Left out" for the overlap this excludes).
- The sorts promise their results on that basis:
  - every sort except radix sort always leaves a rearrangement of the range it was
    given, and nothing outside it changes; radix sort, when interrupted in the middle
    of a copy back, need not (see its lines under "## Left out");
  - if the last flags seen do not say stop, the range is sorted.

## Model

| member | source | states |
|---|---|---|
| Visualizer.SortingVisualizer.constructor | SortingVisualizer.java:27-28 | the panel starts with 100 bars, each of height between 1 and 100 |
| Visualizer.SortingVisualizer.GenerateArray | SortingVisualizer.java:89-102 | accepted exactly when size and maximum are both positive; when rejected the array object and its contents are unchanged; when accepted the array is a new one of exactly `size` bars, each in `[1, maxElement]` |
| Visualizer.SortingVisualizer.Swap | SortingVisualizer.java:324-329 | the new contents are the old ones with positions `i` and `j` exchanged, and the multiset of bars is unchanged |
| SwapSpec.Swapped | SortingVisualizer.java:324-329 | the result has the same length, `s[j]` at `i`, `s[i]` at `j`, and every other position unchanged |
| SwapSpec.SwappedPermutation | SortingVisualizer.java:324-329 | a swap keeps the multiset of elements |
| SwapSpec.SwappedTwice | SortingVisualizer.java:324-329 | swapping the same two positions again restores the original |
| SwapSpec.SwappedSymmetric | SortingVisualizer.java:324-329 | `swap(i, j)` and `swap(j, i)` have the same effect |
| SwapSpec.RearrangedSwap | SortingVisualizer.java:250 | a swap of two positions inside a range keeps the array a rearrangement of that range |
| Visualizer.PollRun | SortingVisualizer.java:168 | the guard lets the call go on only if the interrupt flag was clear; when it refuses, the observed flags say stop; flags only move forward |
| Cancel.Poll | SortingVisualizer.java:180 | a poll observes flags that are `Later` than the previous ones: an interrupt or a stop seen before is still seen |
| Cancel.LaterTransitive | SortingVisualizer.java:75-86 | a stop observed once stays observed through any chain of later polls |
| Cancel.LaterReflexive | SortingVisualizer.java:331-337 | a poll may observe the same flags again |
| Cancel.Stopped | SortingVisualizer.java:168 | the guard refuses when `isSorting` is false or the thread is interrupted: either flag alone says stop |
| Cancel.Later | SortingVisualizer.java:75-86 | flags `g` can follow `f` when an interrupt seen in `f` is still seen in `g` and a stop seen in `f` is still seen in `g`, as `stopSorting` clears `isSorting` and then interrupts, with at most one sorting thread alive |
| Visualizer.SortingVisualizer.MergeSort | SortingVisualizer.java:167-174 | an empty or one-bar range is unchanged; otherwise `[low, high]` is rearranged and nothing outside it changes; if the last flags seen do not say stop, the range is sorted |
| Visualizer.HalvesMerged | SortingVisualizer.java:169-172 | sorting both halves and merging them leaves a rearrangement of `[low, high]`, sorted unless stopped |
| MergeSpec.MergeSortStep | SortingVisualizer.java:169-172 | two rearranged and sorted halves followed by their merge give a sorted rearrangement of the whole range |
| Visualizer.SortingVisualizer.Merge | SortingVisualizer.java:176-207 | `[left, right]` is rearranged and nothing else changes; if the last poll saw an interrupt the bars are exactly the old ones; otherwise they are the old ones with the range replaced by the merge of its two runs |
| Visualizer.MergeHeads | SortingVisualizer.java:180-187 | after the first loop the buffer holds a prefix of the merge and the remaining merge is what is left of the two runs; it stops with both runs non-empty only on an interrupt |
| Visualizer.DrainLeft | SortingVisualizer.java:189-194 | the buffer stays a prefix of the merge; the left run is left unfinished only on an interrupt |
| Visualizer.DrainRight | SortingVisualizer.java:196-201 | the buffer stays a prefix of the merge; the right run is left unfinished only on an interrupt |
| Visualizer.Emit | SortingVisualizer.java:183-184 | `temp[k++] = x` extends the buffer's agreement with the merge by one position and changes nothing after it |
| Visualizer.CopyIfRunning | SortingVisualizer.java:203-206 | on an interrupt the bars are untouched; otherwise the uninterrupted loops have filled the buffer, and after the copy the bars hold the merged range |
| Visualizer.CopyBack | SortingVisualizer.java:204 | `arraycopy` puts the buffer at `left` and keeps every other position |
| MergeSpec.MergeFromTakesLeft | SortingVisualizer.java:183 | when the left head is `<=` the right one, or the right run is used up, the next merged element is the left head |
| MergeSpec.MergeFromTakesRight | SortingVisualizer.java:184 | when the right head is strictly smaller, or the left run is used up, the next merged element is the right head |
| MergeSpec.MergeFromIsMergedAll | SortingVisualizer.java:180-201 | the three loops, run to the end, produce `Merged(xs, ys)` |
| MergeSpec.MergeFrom | SortingVisualizer.java:180-201 | the scan from heads `a` and `b` has as many elements as are left in the two runs, `xs` from `a` on and `ys` from `b` on; which elements, and in which order, is stated by `MergeFromIsMergedAll` and `MergeByPermutation` |
| MergeSpec.MergedIsSortedPermutation | SortingVisualizer.java:176-207 | merging two sorted runs gives a sorted sequence whose multiset is the union of theirs |
| MergeSpec.MergedRangeSorted | SortingVisualizer.java:176-207 | with both runs sorted, the merged range `[left, right]` is sorted |
| MergeSpec.MergedPermutation | SortingVisualizer.java:176-207 | the merge of the two runs is a permutation of the range |
| MergeSpec.MergedRangeRearranged | SortingVisualizer.java:176-207 | replacing the range by its merge rearranges the range and keeps everything outside it |
| MergeSpec.MergeCopied | SortingVisualizer.java:203-206 | copying the finished buffer back gives the merged range and a rearrangement of it |
| MergeSpec.MergeStable | SortingVisualizer.java:183 | merging runs whose elements are tagged with their positions gives the same keys as `Merged`, and equal keys keep their original order, because ties go to the left run |
| MergeSpec.MergeByStable | SortingVisualizer.java:183 | a key-sorted merge of two stable runs, with every left tag before every right tag, is stable |
| MergeSpec.KeysMergeSortBy | SortingVisualizer.java:167-207 | merge sort on tagged elements computes, on the keys, plain merge sort |
| MergeSpec.MergeSortByStable | SortingVisualizer.java:167-207 | merge sort keeps elements with equal keys in their original order |
| MergeSpec.MergeSortStable | SortingVisualizer.java:167-207 | merge sort of a tagged array has the keys of `MergeSortOf` and is stable |
| MergeSpec.MergeSortOfIsSortedPermutation | SortingVisualizer.java:167-174 | the result of merge sort is sorted and a permutation of its input |
| MergeSpec.MergeByPermutation | SortingVisualizer.java:176-207 | a merge holds exactly the elements of its two runs |
| MergeSpec.MergeBySorted | SortingVisualizer.java:180-201 | the merge of two key-sorted runs is key-sorted |
| Visualizer.SortingVisualizer.QuickSort | SortingVisualizer.java:209-215 | an empty or one-bar range is unchanged; otherwise `[low, high]` is rearranged and nothing outside it changes; if the last flags seen do not say stop, the range is sorted |
| Visualizer.PivotSidesSorted | SortingVisualizer.java:211-213 | a partition followed by sorting both sides of the pivot sorts the range |
| PartitionSpec.PartitionedSorted | SortingVisualizer.java:211-213 | with the range partitioned at `p` and both sides then sorted in place, the whole range is sorted |
| Visualizer.SortingVisualizer.Partition | SortingVisualizer.java:217-235 | returns `p` in `[low, high]` and rearranges only `[low, high]`; unless interrupted, the old `array[high]` is at `p`, everything left of `p` is below it, everything right of it is at least it, and the scan made exactly one swap per element below the pivot |
| Visualizer.SortingVisualizer.Scan | SortingVisualizer.java:218-228 | the scan keeps the pivot at `high`, only rearranges `[low, high)`, and, unless interrupted, leaves the elements below the pivot in `[low, i]` and the rest in `(i, high)` |
| Visualizer.SortingVisualizer.ScanStep | SortingVisualizer.java:221-227 | one comparison keeps the scan state: one more element checked, one more swap exactly when the element was below the pivot |
| Visualizer.ScanStateEnds | SortingVisualizer.java:220-228 | when the scan reaches `high`, the swap count equals the number of elements below the pivot |
| PartitionSpec.ScanSwapsStep | SortingVisualizer.java:222-224 | swapping an element below the pivot to `i + 1` extends the "below" block and keeps a rearrangement |
| PartitionSpec.ScanKeepsStep | SortingVisualizer.java:222 | an element at least the pivot joins the "at least" block with no swap |
| PartitionSpec.PivotPlaced | SortingVisualizer.java:229-234 | the final swap puts the pivot at `i + 1` and partitions the range there |
| PartitionSpec.CountLessNoneBelow | SortingVisualizer.java:222 | the scan swaps nothing exactly when no element is below the pivot, for example when all the elements of the range are equal |
| PartitionSpec.CountLessBound | SortingVisualizer.java:220-228 | the scan makes at most one swap per element, and one for every element exactly when all of them are below the pivot |
| PartitionSpec.SortedAround | SortingVisualizer.java:211-213 | a sorted left side below the pivot and a sorted right side at least the pivot make a sorted range |
| Visualizer.SortingVisualizer.HeapSort | SortingVisualizer.java:237-255 | the bars are always a rearrangement of the old ones; unless interrupted they are sorted |
| Visualizer.SortingVisualizer.BuildHeap | SortingVisualizer.java:241-243 | the build loop rearranges the bars and, unless interrupted, makes the whole array a max-heap |
| Visualizer.SortingVisualizer.SortDown | SortingVisualizer.java:246-252 | from a max-heap the extraction loop keeps a rearrangement and, unless interrupted, ends sorted |
| Visualizer.SortingVisualizer.ExtractMax | SortingVisualizer.java:247-251 | one round turns "heap on `[0, i]` below a sorted tail" into "heap on `[0, i)` below a longer sorted tail" unless interrupted |
| Visualizer.RootExtracted | SortingVisualizer.java:250-251 | `swap(0, i)` and `heapify(i, 0)` together keep a rearrangement and, unless interrupted, the heap-below-sorted-tail shape |
| Visualizer.SortingVisualizer.Heapify | SortingVisualizer.java:257-287 | only positions in `[i, n)` are rearranged, nothing when `i >= n`; unless interrupted the sifted subtree, and so `[lo, n)`, is in heap order |
| Visualizer.SortingVisualizer.Largest | SortingVisualizer.java:260-276 | `largest` is `i` or a child of `i` below `n`, it moves off `i` only to a strictly larger child, and unless interrupted `array[largest]` is at least `array[i]` and at least each child of `i` below `n` |
| HeapSpec.HeapRootMax | SortingVisualizer.java:250 | in a max-heap the root is at least every element of the heap |
| HeapSpec.LeavesFormHeap | SortingVisualizer.java:241 | the positions from `n / 2` on are leaves, so they already satisfy the heap property |
| HeapSpec.ReadyToBuild | SortingVisualizer.java:242 | with everything after `i` a heap, `heapify(n, i)` may start at `i` |
| HeapSpec.SiftStep | SortingVisualizer.java:278-283 | swapping `i` with its larger child moves the only heap violation down to that child |
| HeapSpec.SiftSwap | SortingVisualizer.java:282-283 | after the swap the sift can continue at the child |
| HeapSpec.SiftDone | SortingVisualizer.java:278 | when no child is larger than `i`, the sift is finished and the range is a heap |
| HeapSpec.SwapRootKeepsSubheaps | SortingVisualizer.java:250 | swapping the root with the last leaf keeps both subtrees of the root heaps |
| HeapSpec.ExtractRoot | SortingVisualizer.java:250 | swapping the root with `i` leaves a heap whose only violation is at the root, and a sorted tail one longer |
| HeapSpec.SiftKeepsSortedAbove | SortingVisualizer.java:251 | sifting inside `[0, i)` leaves the sorted tail from `i` on untouched and sorted |
| HeapSpec.ExtractionStarts | SortingVisualizer.java:246 | before the first round the sorted tail is empty |
| HeapSpec.SortedAboveAll | SortingVisualizer.java:246 | when the loop reaches `i = 0` the whole array is sorted |
| Visualizer.SortingVisualizer.RadixSort | SortingVisualizer.java:289-296 | unless interrupted, it makes exactly one pass per decimal digit of the maximum and leaves `RadixSortOf` of the old bars; it never makes more passes than that; interrupted or not, the bars stay non-negative |
| Visualizer.SortingVisualizer.CountSort | SortingVisualizer.java:298-322 | the bars are the pass's result up to the point where copying stopped and unchanged after it; unless interrupted they are the whole counting pass on digit `exp` |
| Visualizer.SortingVisualizer.CountDigits | SortingVisualizer.java:303 | `count[d]` is the number of bars whose digit is `d` |
| Visualizer.PrefixSums | SortingVisualizer.java:305 | `count[d - 1]` ends as the number of bars whose digit is below `d`, which is the end of bucket `d - 1` in the output |
| Visualizer.SortingVisualizer.Place | SortingVisualizer.java:307-311 | unless interrupted, `output` is the counting pass: every bar sits in its digit's bucket, in its original order |
| Visualizer.SortingVisualizer.PlaceOne | SortingVisualizer.java:308-310 | placing bar `i` at `--count[digit]` keeps every bar from `i` on where the pass puts it |
| Visualizer.SortingVisualizer.CopyOut | SortingVisualizer.java:313-319 | the bars equal the output up to the point where copying stopped and are unchanged after it; all of them are copied unless interrupted, and none if the flags already said interrupted |
| Visualizer.PrefixCopied | SortingVisualizer.java:313-319 | a copy that stopped part way leaves the pass's prefix followed by the old suffix |
| RadixSpec.Digit | SortingVisualizer.java:303 | the digit `(x / exp) % 10` indexes `count` in bounds; it agrees with Java's truncating `/` and `%` only for `x >= 0`, which is all it is applied to |
| RadixSpec.CountPassPermutation | SortingVisualizer.java:298-322 | a counting pass keeps the multiset and the length |
| RadixSpec.CountPassStable | SortingVisualizer.java:307-311 | a pass keeps elements with the same digit in their original relative order |
| RadixSpec.CountPassSortedByDigit | SortingVisualizer.java:298-322 | after a pass the digits `(x / exp) % 10` are in ascending order |
| RadixSpec.PassRefinesOrder | SortingVisualizer.java:291-292 | a pass on digit `exp` of an array sorted modulo `exp` leaves it sorted modulo `10 * exp` |
| RadixSpec.RadixPassesOrdered | SortingVisualizer.java:291-292 | after `k` passes the array is a permutation of the input, sorted modulo `10^k` |
| RadixSpec.RadixSortOfSortedPermutation | SortingVisualizer.java:289-296 | for non-negative input, radix sort gives a sorted permutation |
| RadixSpec.NumPassesIsDigitCount | SortingVisualizer.java:291 | for a maximum of at least 1, the loop makes `N >= 1` passes, where `10^(N-1) <= max < 10^N`, that is one per decimal digit |
| RadixSpec.NumPasses | SortingVisualizer.java:291 | with `max <= 0` the loop makes no pass at all, and with `max >= 1` it makes at least one |
| RadixSpec.PassesFrom | SortingVisualizer.java:291 | a pass with divisor `exp = 10^k` runs only when `exp <= max` |
| RadixSpec.MaxOr1 | SortingVisualizer.java:290 | with no bars the maximum is 1; otherwise it is one of the bars and no bar exceeds it |
| RadixSpec.PartialPassNonNegative | SortingVisualizer.java:313-319 | a copy back that stopped part way leaves only values taken from the old bars, so non-negative bars stay non-negative |
| RadixSpec.SampleRun | SortingVisualizer.java:290-291 | on `[170, 45, 75, 90, 802, 24, 2, 66]` the maximum is 802 and the loop makes 3 passes |
| RadixSpec.MaxOf | SortingVisualizer.java:290 | the result is an element of the array and no element exceeds it |
| RadixSpec.MaxBounds | SortingVisualizer.java:290 | for non-negative bars, `max().orElse(1)` bounds every bar from above |
| RadixSpec.PassesNonNegative | SortingVisualizer.java:303 | passes keep the bars non-negative, so every later digit is in bounds in the same way |
| RadixSpec.BucketCount | SortingVisualizer.java:303 | a bucket holds every occurrence of the values with its digit and no others |
| RadixSpec.BucketsBelowByDigit | SortingVisualizer.java:305-311 | the buckets of digits below `d`, laid end to end, are in ascending digit order and hold only digits below `d` |
| RadixSpec.BucketSlot | SortingVisualizer.java:305-309 | bucket `d` occupies `[count[d-1], count[d])` of the pass's output |
| RadixSpec.PrefixSumStep | SortingVisualizer.java:305 | one step of the prefix-sum loop turns one more bucket size into a bucket end |
| RadixSpec.PlacedStart | SortingVisualizer.java:305-307 | once the prefix sums are done, the placement loop may start at the last bar |
| RadixSpec.PlaceStep | SortingVisualizer.java:308-310 | placing one more bar keeps the placement invariant one position further left |
| RadixSpec.PlacedAll | SortingVisualizer.java:307-311 | a finished placement loop has produced exactly the counting pass |
| Visualizer.SortedRearrangementIsMergeSort | SortingVisualizer.java:140-153 | any sorted rearrangement of the array equals merge sort's result, so the uninterrupted sorts the dispatcher can start all leave the same array |
| Visualizer.RadixAgreesWithMergeSort | SortingVisualizer.java:150-152 | on non-negative bars radix sort and merge sort leave the same array |
| Order.SortedPermutationUnique | SortingVisualizer.java:140-153 | two sorted sequences with the same multiset are equal |

## Left out

- The GUI and drawing are not modelled: the Swing frame, buttons, combo box, dialogs,
  `paintComponent`, `repaint`, `barWidth`, and the parsing of the size and maximum
  typed by the user. They produce no state the sorts read.
- The highlight fields `current` and `next` are not modelled, because they only affect
  drawing.
- `sleep` and the delay are not modelled. The "sorted unless stopped" promises assume
  `delay >= 0`: the delay is parsed without a check (SortingVisualizer.java:108), a
  negative one makes `Thread.sleep` throw `IllegalArgumentException`, which the catch
  at SortingVisualizer.java:334 does not take, and every sort then ends at its first
  sleep without being stopped; radix sort has by then overwritten `array[0]`
  (SortingVisualizer.java:316-318). Nor is `sleep`'s re-interrupt on
  `InterruptedException`: it only keeps the interrupt flag set, which `Later` already
  assumes.
- Threads are not modelled: the `sort()` dispatcher, its thread, and `stopSorting`.
  The other thread's writes appear only as the freedom `Poll` has at each poll.
  Dispatching `mergeSort(0, n - 1)` and the rest is covered by the agreement lemmas,
  not by a method.
- `Random` in `generateArray` becomes a nondeterministic choice of each height within
  `[1, maxElement]`. The dialog shown on rejection becomes the `false` result.
- Java's 32-bit `int` is not modelled: values and indices are unbounded integers. This
  leaves out `exp *= 10` wrapping around once the maximum is at least `10^9`, and
  `low + high` in `(low + high) / 2` overflowing for arrays of more than `2^30` bars.
- Visualizer.SortingVisualizer.RadixSort: requires non-negative bars. Java's `%` takes
  the sign of the dividend, so a negative bar whose digit `(j / exp) % 10` is non-zero
  in a pass that runs makes `count[...]` throw `ArrayIndexOutOfBoundsException`; that
  exception path is not modelled. The `requires` also excludes negative inputs that
  the program accepts: `[-10, 5]` runs one pass without an exception, because
  `-10 % 10 == 0`, and with `max <= 0`, e.g. `[-3, -5]`, no pass runs at all.
  `generateArray` only produces bars in `[1, maxElement]`. With non-negative values,
  Dafny's `/` and `%` agree with Java's.
- Visualizer.SortingVisualizer.CountSort: requires non-negative bars, for the same
  reason.
- Visualizer.SortingVisualizer.CountSort: when interrupted during the copy loop the
  bars are the pass's prefix followed by the old suffix. This need not be a permutation
  of the old bars: the program can lose or duplicate values there, and the model states
  exactly that form instead.
- Visualizer.SortingVisualizer.RadixSort: when interrupted it promises only that the
  observed flags moved forward, that the pass count is not exceeded, and that the bars
  stay non-negative. It does not promise a permutation, because of the mid-copy case
  just described.
- Cancel.Later: assumes at most one sorting thread is alive at a time. The program
  allows an overlap. Press "Stop", then "Sort" while the stopped run A is still
  unwinding, so a run B starts. A's `finally` (SortingVisualizer.java:154-155) clears
  `isSorting` under B without interrupting it, and A's `invokeLater` re-enables
  "Sort". A second "Sort" (SortingVisualizer.java:127-131) sets `isSorting` again, so
  B can see a stop and then no stop. Under that overlap the "sorted unless stopped"
  promises of `MergeSort` and `QuickSort` are not covered: B may have skipped a range
  at a poll that saw the stop. Nor are the rearrangement promises of any sort: B and
  the new run write `array` at the same time (a heap sort B, for one, never polls
  `isSorting` and runs on beside the new run), and the model has one writer only.
- RadixSpec.SampleRun: states the maximum and the number of passes of the example. It
  does not state the sorted result, which `RadixSortOfSortedPermutation` covers in
  general.
