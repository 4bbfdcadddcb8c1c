/** The panel's bars and the sorts that run on it. Each sort polls the
    cancellation flags where the program does, and promises its full result
    only when no poll could have stopped it. */
module Visualizer {
  import opened Order
  import opened SwapSpec
  import opened MergeSpec
  import opened PartitionSpec
  import opened HeapSpec
  import opened RadixSpec
  import opened Cancel

  /** Whatever sort produced it, a sorted rearrangement of `s` is the
      result of merge sort on `s`: uninterrupted, all four sorts leave the
      same array. */
  lemma SortedRearrangementIsMergeSort(s: seq<int>, t: seq<int>)
    requires Sorted(t) && multiset(t) == multiset(s)
    ensures t == MergeSortOf(s)
  {
    MergeSortOfIsSortedPermutation(s);
    SortedPermutationUnique(t, MergeSortOf(s));
  }

  /** On non-negative values the passes of `radixSort` end where merge
      sort does. */
  lemma RadixAgreesWithMergeSort(s: seq<int>)
    requires forall k :: 0 <= k < |s| ==> s[k] >= 0
    ensures RadixSortOf(s) == MergeSortOf(s)
  {
    RadixSortOfSortedPermutation(s);
    SortedRearrangementIsMergeSort(s, RadixSortOf(s));
  }

  /** What `mergeSort` knows after its three calls, in the form their
      contracts give it, put together. */
  lemma HalvesMerged(s0: seq<int>, s1: seq<int>, s2: seq<int>, s3: seq<int>,
                     low: int, mid: int, high: int, f0: Flags, f1: Flags, f2: Flags, f3: Flags)
    requires low <= mid < high
    requires Later(f0, f1) && Later(f1, f2) && Later(f2, f3)
    requires low <= mid ==> Rearranged(s0, s1, low, mid + 1)
    requires low <= mid && !Stopped(f1) ==> Sorted(s1[low..mid + 1])
    requires mid + 1 <= high ==> Rearranged(s1, s2, mid + 1, high + 1)
    requires mid + 1 <= high && !Stopped(f2) ==> Sorted(s2[mid + 1..high + 1])
    requires Rearranged(s2, s3, low, high + 1)
    requires !f3.interrupted ==> s3 == MergedRange(s2, low, mid, high)
    ensures Later(f0, f3)
    ensures Rearranged(s0, s3, low, high + 1)
    ensures !Stopped(f3) ==> Sorted(s3[low..high + 1])
  {
    MergeSortStep(s0, s1, s2, s3, low, mid, high, Stopped(f3));
  }

  /** What `quickSort` knows after its partition and its two calls, in the
      form their contracts give it, put together. */
  lemma PivotSidesSorted(s0: seq<int>, s1: seq<int>, s2: seq<int>, s3: seq<int>,
                         low: int, p: int, high: int, f0: Flags, f1: Flags, f2: Flags, f3: Flags)
    requires low <= p <= high
    requires Later(f0, f1) && Later(f1, f2) && Later(f2, f3)
    requires Rearranged(s0, s1, low, high + 1)
    requires !f1.interrupted ==> PartitionedAt(s1, low, p, high) && s1[p] == s0[high]
    requires low >= p - 1 ==> s2 == s1
    requires low <= p - 1 ==> Rearranged(s1, s2, low, p)
    requires low <= p - 1 && !Stopped(f2) ==> Sorted(s2[low..p])
    requires p + 1 >= high ==> s3 == s2
    requires p + 1 <= high ==> Rearranged(s2, s3, p + 1, high + 1)
    requires p + 1 <= high && !Stopped(f3) ==> Sorted(s3[p + 1..high + 1])
    ensures Later(f0, f3)
    ensures Rearranged(s0, s3, low, high + 1)
    ensures !Stopped(f3) ==> Sorted(s3[low..high + 1])
  {
    if low > p - 1 {
      RearrangedReflexive(s1, low, p);
    }
    if p + 1 > high {
      RearrangedReflexive(s2, p + 1, high + 1);
    }
    RearrangedWiden(s1, s2, low, p, low, high + 1);
    RearrangedWiden(s2, s3, p + 1, high + 1, low, high + 1);
    if !Stopped(f3) {
      PartitionedSorted(s1, s2, s3, low, p, high);
    }
  }

  /** What the scan of `partition` has done when it stops at `j`. */
  lemma ScanStateEnds(s0: seq<int>, s: seq<int>, low: int, i: int, j: int, high: int, pivot: int, swaps: int)
    requires ScanState(s0, s, low, i, j, pivot, swaps) && j <= high < |s0| && pivot == s0[high]
    ensures low - 1 <= i < high && swaps == i + 1 - low
    ensures Rearranged(s0, s, low, high) && s[high] == s0[high]
    ensures j == high ==> ScannedTo(s, low, i, high, s[high])
    ensures j == high ==> swaps == CountLess(s0[low..high], s[high])
  {
    RearrangedWiden(s0, s, low, j, low, high);
  }

  /** One round of `heapSort`'s extraction loop, from the facts `swap(0, i)`
      and `heapify(i, 0)` establish: the array is still a rearrangement, and
      unless interrupted `[0, i)` is a heap below a longer sorted tail. */
  lemma RootExtracted(s0: seq<int>, s1: seq<int>, s2: seq<int>, s3: seq<int>, i: int, g: Flags)
    requires 0 < i < |s1| && Rearranged(s0, s1, 0, |s1|) && SortedAbove(Swapped(s1, 0, i), i)
    requires s2 == Swapped(s1, 0, i)
    requires i < |s3| == |s2|
    requires 0 < i ==> Rearranged(s2, s3, 0, i)
    requires !g.interrupted ==> HeapFrom(s3, i, 0)
    ensures Rearranged(s0, s3, 0, |s0|)
    ensures !g.interrupted ==> HeapThenSorted(s3, i)
  {
    RearrangedSwap(s0, s1, 0, |s1|, |s1|, 0, i);
    RearrangedWiden(s2, s3, 0, i, 0, |s3|);
    RearrangedTransitive(s0, s2, s3, 0, |s3|);
    SiftKeepsSortedAbove(s2, s3, i);
  }

  /** The prefix-sum loop of `countSort`: `count[i] += count[i - 1]` for `i`
      from `1` to `9`, turning bucket sizes into the ends of the slots. */
  method PrefixSums(count: array<int>, ghost s: seq<int>, ghost exp: int)
    requires exp > 0 && count.Length == 10
    requires forall d :: 0 <= d < 10 ==> count[d] == |Bucket(s, exp, d)|
    modifies count
    ensures forall d :: 1 <= d <= 10 ==> count[d - 1] == Offset(s, exp, d)
  {
    PrefixSumStarts(s, exp, count[..]);
    var i := 1;
    while i < 10
      invariant 1 <= i <= 10
      invariant PrefixSummed(s, exp, count[..], i)
    {
      ghost var c := count[..];
      count[i] := count[i] + count[i - 1];
      PrefixSumStep(s, exp, c, count[..], i);
      i := i + 1;
    }
  }

  /** A copy that stopped at `copied`: the front is the copied output
      `o`, which agrees with `c` there, and the rest is unchanged. */
  lemma PrefixCopied(t: seq<int>, s: seq<int>, c: seq<int>, o: seq<int>, copied: int)
    requires |t| == |s| == |c| == |o| && 0 <= copied <= |s|
    requires forall k :: 0 <= k < copied ==> t[k] == o[k]
    requires forall k :: copied <= k < |t| ==> t[k] == s[k]
    requires o[..copied] == c[..copied]
    ensures t == c[..copied] + s[copied..]
  {
    forall k | 0 <= k < copied ensures t[k] == c[k] {
      assert o[..copied][k] == c[..copied][k];
    }
  }

  /** The slice `s[lo..hi]` of the contents `s` of `a`, read in place. */
  lemma Window(a: array<int>, s: seq<int>, lo: int, hi: int)
    requires s == a[..] && 0 <= lo <= hi <= a.Length
    ensures |s[lo..hi]| == hi - lo
    ensures forall p :: lo <= p < hi ==> a[p] == s[lo..hi][p - lo]
  {
  }

  class SortingVisualizer {
    /** The program's `array`: one value per bar, the bar's height. */
    var bars: array<int>

    /** The panel starts with 100 bars of heights 1 to 100. */
    constructor ()
      ensures bars.Length == 100
      ensures forall k :: 0 <= k < bars.Length ==> 1 <= bars[k] <= 100
    {
      bars := new int[0];
      new;
      var ok := GenerateArray(100, 100);
    }

    /** `generateArray`: rejects a non-positive size or maximum and keeps
        the current bars; otherwise `size` fresh bars, each of a height
        chosen in `[1, maxElement]`. */
    method GenerateArray(size: int, maxElement: int) returns (ok: bool)
      modifies this
      ensures ok <==> size > 0 && maxElement > 0
      ensures !ok ==> bars == old(bars) && bars[..] == old(bars[..])
      ensures ok ==> fresh(bars) && bars.Length == size
      ensures ok ==> forall k :: 0 <= k < bars.Length ==> 1 <= bars[k] <= maxElement
    {
      if size <= 0 || maxElement <= 0 {
        return false;
      }
      var a := new int[size];
      var i := 0;
      while i < size
        invariant 0 <= i <= size
        invariant forall k :: 0 <= k < i ==> 1 <= a[k] <= maxElement
      {
        var v :| 1 <= v <= maxElement;
        a[i] := v;
        i := i + 1;
      }
      bars := a;
      ok := true;
    }

    /** `swap`: exchanges two bars. */
    method Swap(i: int, j: int)
      requires 0 <= i < bars.Length && 0 <= j < bars.Length
      modifies bars
      ensures bars[..] == Swapped(old(bars[..]), i, j)
      ensures multiset(bars[..]) == multiset(old(bars[..]))
    {
      SwappedPermutation(bars[..], i, j);
      bars[i], bars[j] := bars[j], bars[i];
    }

    /** `mergeSort(low, high)`: below `low < high` it polls `isSorting`
        and then the interrupt flag, and only if neither says stop sorts
        the two halves and merges them. It always leaves a rearrangement of
        `[low, high]`; if no poll saw a stop, the range is sorted. */
    method MergeSort(low: int, high: int, f0: Flags) returns (f: Flags)
      requires 0 <= low && high < bars.Length
      modifies bars
      decreases high - low
      ensures Later(f0, f)
      ensures low >= high ==> bars[..] == old(bars[..])
      ensures low <= high ==> Rearranged(old(bars[..]), bars[..], low, high + 1)
      ensures low <= high && !Stopped(f) ==> Sorted(bars[low..high + 1])
    {
      var go := false;
      f := f0;
      if low < high {
        f, go := PollRun(f0);
      }
      if !go {
        if low <= high {
          RearrangedReflexive(bars[..], low, high + 1);
        }
        return;
      }
      ghost var s0 := bars[..];
      var mid := (low + high) / 2;
      var f1 := MergeSort(low, mid, f);
      ghost var s1 := bars[..];
      var f2 := MergeSort(mid + 1, high, f1);
      ghost var s2 := bars[..];
      var f3 := Merge(low, mid, high, f2);
      HalvesMerged(s0, s1, s2, bars[..], low, mid, high, f, f1, f2, f3);
      LaterTransitive(f0, f, f3);
      f := f3;
    }

    /** `merge`: merges the runs `[left, mid]` and `[mid + 1, right]`
        through a buffer. The buffer is copied back in one step after a
        last poll, so the bars hold either their old values or the merge. */
    method Merge(left: int, mid: int, right: int, f0: Flags) returns (f: Flags)
      requires 0 <= left <= mid <= right < bars.Length
      modifies bars
      ensures Later(f0, f)
      ensures Rearranged(old(bars[..]), bars[..], left, right + 1)
      ensures f.interrupted ==> bars[..] == old(bars[..])
      ensures !f.interrupted ==> bars[..] == MergedRange(old(bars[..]), left, mid, right)
    {
      var arr := bars;
      ghost var s0 := arr[..];
      ghost var xs, ys := s0[left..mid + 1], s0[mid + 1..right + 1];
      Window(arr, s0, left, mid + 1);
      Window(arr, s0, mid + 1, right + 1);
      ghost var w := MergeFrom(xs, ys, 0, 0);
      var temp := new int[right - left + 1];
      var i, j, k, fH, fA, fB;
      ghost var da, db;
      i, j, k, fH, da, db := MergeHeads(arr, temp, left, mid, right, f0, xs, ys, w);
      i, k, fA, da := DrainLeft(arr, temp, left, mid, right, fH, xs, ys, w, i, k, da, db);
      j, k, fB, db := DrainRight(arr, temp, left, mid, right, fA, xs, ys, w, j, k, da, db);
      LaterTransitive(f0, fH, fA);
      LaterTransitive(f0, fA, fB);
      f := CopyIfRunning(arr, temp, left, mid, right, fB, s0, xs, ys, w, k, da, db);
      LaterTransitive(f0, fB, f);
    }

    /** `quickSort(low, high)`: the same guard as `mergeSort`, then a
        partition and a sort of each side of the pivot. */
    method QuickSort(low: int, high: int, f0: Flags) returns (f: Flags)
      requires 0 <= low && high < bars.Length
      modifies bars
      decreases high - low
      ensures Later(f0, f)
      ensures low >= high ==> bars[..] == old(bars[..])
      ensures low <= high ==> Rearranged(old(bars[..]), bars[..], low, high + 1)
      ensures low <= high && !Stopped(f) ==> Sorted(bars[low..high + 1])
    {
      var go := false;
      f := f0;
      if low < high {
        f, go := PollRun(f0);
      }
      if !go {
        if low <= high {
          RearrangedReflexive(bars[..], low, high + 1);
        }
        return;
      }
      ghost var s0 := bars[..];
      var p, f1, swaps := Partition(low, high, f);
      ghost var s1 := bars[..];
      var f2 := QuickSort(low, p - 1, f1);
      ghost var s2 := bars[..];
      var f3 := QuickSort(p + 1, high, f2);
      PivotSidesSorted(s0, s1, s2, bars[..], low, p, high, f, f1, f2, f3);
      LaterTransitive(f0, f, f3);
      f := f3;
    }

    /** `radixSort`: passes of `countSort` with `exp = 1, 10, 100, ...` for
        as long as `max / exp > 0`, polling the interrupt flag before each
        pass. `max` is the largest bar, or `1` when there are none. The
        bars must be non-negative, as `generateArray` makes them: a negative
        digit would index `count` out of bounds. `passes` counts the passes. */
    method RadixSort(f0: Flags) returns (f: Flags, ghost passes: nat)
      requires forall k :: 0 <= k < bars.Length ==> bars[k] >= 0
      modifies bars
      ensures Later(f0, f) && passes <= NumPasses(MaxOr1(old(bars[..])))
      ensures !f.interrupted ==> passes == NumPasses(MaxOr1(old(bars[..])))
      ensures !f.interrupted ==> bars[..] == RadixSortOf(old(bars[..]))
      ensures forall k :: 0 <= k < bars.Length ==> bars[k] >= 0
    {
      ghost var s0 := bars[..];
      var max := MaxOr1(bars[..]);
      var exp := 1;
      passes := 0;
      Pow10Positive(0);
      f := f0;
      while max / exp > 0
        invariant exp == Pow10(passes) && exp > 0 && passes + PassesFrom(max, passes) == NumPasses(max)
        invariant Later(f0, f)
        invariant !f.interrupted ==> bars[..] == RadixPasses(s0, passes)
        invariant forall k :: 0 <= k < bars.Length ==> bars[k] >= 0
        decreases PassesFrom(max, passes)
      {
        var g := Poll(f);
        LaterTransitive(f0, f, g);
        f := g;
        if f.interrupted {
          break;
        }
        ghost var s := bars[..];
        ghost var copied;
        g, copied := CountSort(exp, f);
        PartialPassNonNegative(s, exp, copied, bars[..]);
        LaterTransitive(f0, f, g);
        f := g;
        Pow10Positive(passes + 1);
        exp := exp * 10;
        passes := passes + 1;
      }
    }

    /** `countSort(exp)`: a stable counting pass on the digit
        `(x / exp) % 10`. The placement and the copy back both poll the
        interrupt flag; `copied` bars have been copied back, so the bars
        are the pass's result up to `copied` and unchanged after it. */
    method CountSort(exp: int, f0: Flags) returns (f: Flags, ghost copied: nat)
      requires exp > 0 && forall k :: 0 <= k < bars.Length ==> bars[k] >= 0
      modifies bars
      ensures Later(f0, f) && copied <= bars.Length == |CountPass(old(bars[..]), exp)|
      ensures bars[..] == CountPass(old(bars[..]), exp)[..copied] + old(bars[..])[copied..]
      ensures !f.interrupted ==> copied == bars.Length && bars[..] == CountPass(old(bars[..]), exp)
    {
      ghost var s := bars[..];
      var output := new int[bars.Length];
      var count := CountDigits(exp);
      PrefixSums(count, s, exp);
      var fP := Place(exp, count, output, f0, s);
      f, copied := CopyOut(output, fP);
      LaterTransitive(f0, fP, f);
      CountPassPermutation(s, exp);
      PrefixCopied(bars[..], s, if fP.interrupted then s else CountPass(s, exp), output[..], copied);
    }

    /** The counting loop of `countSort`: `count[d]` ends as the number of
        bars whose digit is `d`. */
    method CountDigits(exp: int) returns (count: array<int>)
      requires exp > 0
      ensures fresh(count) && count.Length == 10
      ensures forall d :: 0 <= d < 10 ==> count[d] == |Bucket(bars[..], exp, d)|
    {
      count := new int[10](d => 0);
      var k := 0;
      while k < bars.Length
        invariant 0 <= k <= bars.Length
        invariant forall d :: 0 <= d < 10 ==> count[d] == |Bucket(bars[..k], exp, d)|
      {
        BucketPrefixStep(bars[..], exp, k);
        var d := Digit(bars[k], exp);
        count[d] := count[d] + 1;
        k := k + 1;
      }
      assert bars[..k] == bars[..];
    }

    /** The placement loop of `countSort`: from the last bar to the first,
        each goes to `output[count[d] - 1]` for its digit `d`, and
        `count[d]` goes down. If no poll sees an interrupt, `output` is the
        pass's result. */
    method Place(exp: int, count: array<int>, output: array<int>, f0: Flags, ghost s: seq<int>)
      returns (f: Flags)
      requires exp > 0 && s == bars[..] && count.Length == 10 && output.Length == |s|
      requires count != output && count != bars && output != bars
      requires forall d :: 0 <= d < 10 ==> count[d] == Offset(s, exp, d + 1)
      modifies count, output
      ensures Later(f0, f)
      ensures !f.interrupted ==> output[..] == CountPass(s, exp)
    {
      var i := bars.Length - 1;
      f := f0;
      LaterReflexive(f0);
      PlacedStart(s, exp, count[..], output[..]);
      while i >= 0
        invariant -1 <= i < bars.Length && Later(f0, f)
        invariant Placed(s, exp, count[..], output[..], i + 1)
      {
        var g := Poll(f);
        LaterTransitive(f0, f, g);
        f := g;
        if f.interrupted {
          break;
        }
        PlaceOne(exp, count, output, i, s);
        i := i - 1;
      }
      if !f.interrupted {
        PlacedAll(s, exp, count[..], output[..]);
      }
    }

    /** The body of the placement loop, for bar `i`. */
    method PlaceOne(exp: int, count: array<int>, output: array<int>, i: int, ghost s: seq<int>)
      requires exp > 0 && s == bars[..] && 0 <= i < bars.Length && count.Length == 10
      requires count != output && count != bars && output != bars
      requires Placed(s, exp, count[..], output[..], i + 1)
      modifies count, output
      ensures Placed(s, exp, count[..], output[..], i)
    {
      var index := Digit(bars[i], exp);
      ghost var cnt, out := count[..], output[..];
      SlotInRange(s, exp, cnt, out, i + 1, index, count[index] - 1);
      output[count[index] - 1] := bars[i];
      count[index] := count[index] - 1;
      PlaceStep(s, exp, cnt, out, i + 1, index, cnt[index] - 1, count[..], output[..]);
    }

    /** The copy loop of `countSort`: `array[i] = output[i]` from the front,
        polling before each bar. A run interrupted before it starts copies
        nothing. */
    method CopyOut(output: array<int>, f0: Flags) returns (f: Flags, ghost copied: nat)
      requires output.Length == bars.Length && output != bars
      modifies bars
      ensures Later(f0, f) && copied <= bars.Length
      ensures f0.interrupted ==> copied == 0
      ensures !f.interrupted ==> copied == bars.Length
      ensures forall k :: 0 <= k < copied ==> bars[k] == output[k]
      ensures forall k :: copied <= k < bars.Length ==> bars[k] == old(bars[k])
    {
      var i := 0;
      f := f0;
      LaterReflexive(f0);
      while i < bars.Length
        invariant 0 <= i <= bars.Length && Later(f0, f)
        invariant f0.interrupted ==> i == 0
        invariant forall k :: 0 <= k < i ==> bars[k] == output[k]
        invariant forall k :: i <= k < bars.Length ==> bars[k] == old(bars[k])
      {
        var g := Poll(f);
        LaterTransitive(f0, f, g);
        f := g;
        if f.interrupted {
          break;
        }
        bars[i] := output[i];
        i := i + 1;
      }
      copied := i;
    }

    /** `heapSort`: builds a max-heap on the whole array, then repeatedly
        swaps its root behind the heap and sifts the new root down. Both
        loops poll the interrupt flag before each step. */
    method HeapSort(f0: Flags) returns (f: Flags)
      modifies bars
      ensures Later(f0, f)
      ensures Rearranged(old(bars[..]), bars[..], 0, bars.Length)
      ensures !f.interrupted ==> Sorted(bars[..])
    {
      ghost var s0 := bars[..];
      var f1 := BuildHeap(f0);
      ghost var s1 := bars[..];
      f := SortDown(f1);
      RearrangedTransitive(s0, s1, bars[..], 0, bars.Length);
      LaterTransitive(f0, f1, f);
    }

    /** The first loop of `heapSort`: `heapify(n, i)` for `i` from
        `n / 2 - 1` down to `0`. */
    method BuildHeap(f0: Flags) returns (f: Flags)
      modifies bars
      ensures Later(f0, f)
      ensures Rearranged(old(bars[..]), bars[..], 0, bars.Length)
      ensures !f.interrupted ==> IsMaxHeap(bars[..], bars.Length)
    {
      ghost var s0 := bars[..];
      var n := bars.Length;
      var i := n / 2 - 1;
      f := f0;
      LeavesFormHeap(s0, n);
      RearrangedReflexive(s0, 0, n);
      while i >= 0
        invariant -1 <= i < n && Later(f0, f)
        invariant Rearranged(s0, bars[..], 0, n)
        invariant !f.interrupted ==> HeapFrom(bars[..], n, i + 1)
      {
        var g := Poll(f);
        LaterTransitive(f0, f, g);
        f := g;
        if f.interrupted {
          break;
        }
        ghost var s1 := bars[..];
        ReadyToBuild(s1, n, i);
        g := Heapify(n, i, f, i);
        LaterTransitive(f0, f, g);
        f := g;
        RearrangedWiden(s1, bars[..], i, n, 0, n);
        RearrangedTransitive(s0, s1, bars[..], 0, n);
        i := i - 1;
      }
    }

    /** The second loop of `heapSort`: for `i` from `n - 1` down to `1`,
        `swap(0, i)` and `heapify(i, 0)`. */
    method SortDown(f0: Flags) returns (f: Flags)
      requires !f0.interrupted ==> IsMaxHeap(bars[..], bars.Length)
      modifies bars
      ensures Later(f0, f)
      ensures Rearranged(old(bars[..]), bars[..], 0, bars.Length)
      ensures !f.interrupted ==> Sorted(bars[..])
    {
      ghost var s0 := bars[..];
      var n := bars.Length;
      var i := n - 1;
      f := f0;
      ExtractionStarts(s0);
      RearrangedReflexive(s0, 0, n);
      while i > 0
        invariant -1 <= i < n && Later(f0, f)
        invariant Rearranged(s0, bars[..], 0, n)
        invariant !f.interrupted ==> HeapThenSorted(bars[..], i + 1)
      {
        var g := Poll(f);
        LaterTransitive(f0, f, g);
        f := g;
        if f.interrupted {
          break;
        }
        g := ExtractMax(i, f, s0);
        LaterTransitive(f0, f, g);
        f := g;
        i := i - 1;
      }
      if !f.interrupted {
        SortedAboveAll(bars[..], i + 1);
      }
    }

    /** One round of the extraction loop of `heapSort`: `swap(0, i)`, then
        `heapify(i, 0)`. */
    method ExtractMax(i: int, f0: Flags, ghost s0: seq<int>) returns (f: Flags)
      requires 0 < i < bars.Length && Rearranged(s0, bars[..], 0, bars.Length)
      requires HeapThenSorted(bars[..], i + 1)
      modifies bars
      ensures Later(f0, f) && Rearranged(s0, bars[..], 0, bars.Length)
      ensures !f.interrupted ==> HeapThenSorted(bars[..], i)
    {
      ghost var s1 := bars[..];
      ExtractRoot(s1, i);
      Swap(0, i);
      ghost var s2 := bars[..];
      f := Heapify(i, 0, f0, 0);
      RootExtracted(s0, s1, s2, bars[..], i, f);
    }

    /** `heapify(n, i)`: sifts `array[i]` down within `[0, n)`. It polls
        the interrupt flag on entry and before each comparison and the
        swap; it only ever exchanges a node with a child below `n`. When no
        poll saw an interrupt, `[lo, n)` is in heap order. */
    method Heapify(n: int, i: int, f0: Flags, ghost lo: int) returns (f: Flags)
      requires 0 <= lo <= i && 0 <= n <= bars.Length
      requires SiftReady(bars[..], n, lo, i)
      modifies bars
      decreases n - i
      ensures Later(f0, f)
      ensures i < n ==> Rearranged(old(bars[..]), bars[..], i, n)
      ensures n <= i ==> bars[..] == old(bars[..])
      ensures !f.interrupted ==> HeapFrom(bars[..], n, lo)
    {
      ghost var s0 := bars[..];
      f := Poll(f0);
      if i < n {
        RearrangedReflexive(s0, i, n);
      }
      if f.interrupted {
        return;
      }
      var largest, g := Largest(n, i, f);
      LaterTransitive(f0, f, g);
      f := g;
      if largest != i {
        g := Poll(f);
        LaterTransitive(f0, f, g);
        f := g;
        if !f.interrupted {
          SiftSwap(s0, n, lo, i, largest);
          Swap(i, largest);
          ghost var s1 := bars[..];
          RearrangedSwap(s0, s0, i, i, n, i, largest);
          g := Heapify(n, largest, f, lo);
          LaterTransitive(f0, f, g);
          f := g;
          RearrangedWiden(s1, bars[..], largest, n, i, n);
          RearrangedTransitive(s0, s1, bars[..], i, n);
        }
      } else if !f.interrupted {
        SiftDone(s0, n, lo, i);
      }
    }

    /** The two comparisons of `heapify(n, i)`: `largest` becomes the left
        child, then the right child, whenever that child is below `n`, its
        poll sees no interrupt and it is strictly larger than the current
        `largest`. */
    method Largest(n: int, i: int, f0: Flags) returns (largest: int, f: Flags)
      requires 0 <= i && n <= bars.Length
      ensures Later(f0, f)
      ensures largest == i || (largest == 2 * i + 1 && largest < n) || (largest == 2 * i + 2 && largest < n)
      ensures 0 <= largest < bars.Length || largest == i
      ensures largest != i ==> bars[i] < bars[largest]
      ensures i < n && !f.interrupted ==> bars[i] <= bars[largest]
      ensures !f.interrupted && 2 * i + 1 < n ==> bars[2 * i + 1] <= bars[largest]
      ensures !f.interrupted && 2 * i + 2 < n ==> bars[2 * i + 2] <= bars[largest]
    {
      largest := i;
      f := f0;
      LaterReflexive(f0);
      var l := 2 * i + 1;
      var r := 2 * i + 2;
      if l < n {
        var g := Poll(f);
        f := g;
        if !f.interrupted && bars[l] > bars[largest] {
          largest := l;
        }
      }
      if r < n {
        var g := Poll(f);
        LaterTransitive(f0, f, g);
        f := g;
        if !f.interrupted && bars[r] > bars[largest] {
          largest := r;
        }
      }
    }

    /** `partition(low, high)`, Lomuto's scheme with pivot `array[high]`.
        The scan swaps every element below the pivot to the front; the
        pivot goes to `p` only if the last poll sees no interrupt. `swaps`
        counts the swaps of the scan: one per element below the pivot. */
    method Partition(low: int, high: int, f0: Flags) returns (p: int, f: Flags, ghost swaps: nat)
      requires 0 <= low <= high < bars.Length
      modifies bars
      ensures Later(f0, f)
      ensures low <= p <= high && swaps == p - low
      ensures Rearranged(old(bars[..]), bars[..], low, high + 1)
      ensures !f.interrupted ==> PartitionedAt(bars[..], low, p, high) && bars[p] == old(bars[high])
      ensures !f.interrupted ==> swaps == CountLess(old(bars[low..high]), old(bars[high]))
    {
      ghost var s0 := bars[..];
      var i, fS;
      i, fS, swaps := Scan(low, high, f0);
      f := Poll(fS);
      LaterTransitive(f0, fS, f);
      ghost var s1 := bars[..];
      if !f.interrupted {
        Swap(i + 1, high);
        PivotPlaced(s1, low, i, high);
        RearrangedSwap(s0, s1, low, high + 1, high + 1, i + 1, high);
      }
      p := i + 1;
    }

    /** The scan loop of `partition`: `i` ends one before the first
        element at least the pivot. It runs to `high` unless a poll sees
        an interrupt. */
    method Scan(low: int, high: int, f0: Flags) returns (i: int, f: Flags, ghost swaps: nat)
      requires 0 <= low <= high < bars.Length
      modifies bars
      ensures Later(f0, f) && low - 1 <= i < high && swaps == i + 1 - low
      ensures Rearranged(old(bars[..]), bars[..], low, high) && bars[high] == old(bars[high])
      ensures !f.interrupted ==> ScannedTo(bars[..], low, i, high, bars[high])
      ensures !f.interrupted ==> swaps == CountLess(old(bars[low..high]), bars[high])
    {
      ghost var s0 := bars[..];
      var pivot := bars[high];
      i := low - 1;
      var j := low;
      f := f0;
      swaps := 0;
      ScanStarts(s0, low, pivot);
      while j < high
        invariant j <= high && Later(f0, f)
        invariant ScanState(s0, bars[..], low, i, j, pivot, swaps)
        decreases high - j
      {
        var g := Poll(f);
        LaterTransitive(f0, f, g);
        f := g;
        if f.interrupted {
          break;
        }
        i, swaps := ScanStep(low, i, j, pivot, s0, swaps);
        j := j + 1;
      }
      ScanStateEnds(s0, bars[..], low, i, j, high, pivot, swaps);
    }

    /** The body of the scan loop: `if (array[j] < pivot) { i++; swap(i, j); }`. */
    method ScanStep(low: int, i: int, j: int, pivot: int, ghost s0: seq<int>, ghost swaps: nat)
      returns (i': int, ghost swaps': nat)
      requires j < bars.Length && ScanState(s0, bars[..], low, i, j, pivot, swaps)
      modifies bars
      ensures ScanState(s0, bars[..], low, i', j + 1, pivot, swaps')
    {
      if bars[j] < pivot {
        ghost var s := bars[..];
        i' := i + 1;
        Swap(i', j);
        swaps' := swaps + 1;
        ScanSwapsStep(s0, s, bars[..], low, i, j, pivot, swaps);
      } else {
        ScanKeepsStep(s0, bars[..], low, i, j, pivot, swaps);
        i', swaps' := i, swaps;
      }
    }
  }

  /** The guard's two polls, `isSorting.get()` and then, only if that
      held, `!isInterrupted()`: `go` says whether both let the call go on. */
  method PollRun(f0: Flags) returns (f: Flags, go: bool)
    ensures Later(f0, f)
    ensures go ==> !f.interrupted
    ensures !go ==> Stopped(f)
  {
    f := Poll(f0);
    go := f.sorting;
    if go {
      var g := Poll(f);
      LaterTransitive(f0, f, g);
      f := g;
      go := !f.interrupted;
    }
  }

  /** An array that agrees with `w` at each of its positions holds `w`. */
  lemma Filled(a: array<int>, w: seq<int>)
    requires a.Length == |w| && forall t :: 0 <= t < a.Length ==> a[t] == w[t]
    ensures a[..] == w
  {
  }

  /** `merge`'s last poll and, only if it saw no interrupt, the copy of
      the buffer back over `[left, right]`. */
  method CopyIfRunning(a: array<int>, temp: array<int>, left: int, mid: int, right: int, f0: Flags,
                       ghost s0: seq<int>, ghost xs: seq<int>, ghost ys: seq<int>, ghost w: seq<int>,
                       k: int, ghost da: int, ghost db: int) returns (f: Flags)
    requires a != temp && temp.Length == right - left + 1
    requires 0 <= left <= mid <= right < a.Length && a[..] == s0
    requires xs == s0[left..mid + 1] && ys == s0[mid + 1..right + 1]
    requires w == MergeFrom(xs, ys, 0, 0)
    requires k == da + db && 0 <= da <= |xs| && 0 <= db <= |ys| && k <= |w|
    requires forall t :: 0 <= t < k ==> temp[t] == w[t]
    requires MergeFrom(xs, ys, da, db) == w[k..]
    requires da < |xs| || db < |ys| ==> f0.interrupted
    modifies a
    ensures Later(f0, f)
    ensures Rearranged(s0, a[..], left, right + 1)
    ensures f.interrupted ==> a[..] == s0
    ensures !f.interrupted ==> a[..] == MergedRange(s0, left, mid, right)
  {
    f := Poll(f0);
    if !f.interrupted {
      assert w[k..] == [];
      Filled(temp, w);
      CopyBack(a, temp, left);
      MergeCopied(s0, a[..], w, left, mid, right);
    } else {
      RearrangedReflexive(s0, left, right + 1);
    }
  }

  /** `System.arraycopy(temp, 0, array, left, temp.length)`. */
  method CopyBack(a: array<int>, temp: array<int>, left: int)
    requires a != temp && 0 <= left && left + temp.Length <= a.Length
    modifies a
    ensures a[..] == Spliced(old(a[..]), left, temp[..])
  {
    ghost var s0 := a[..];
    forall t | 0 <= t < temp.Length {
      a[left + t] := temp[t];
    }
    Splice(a[..], s0, left, temp[..]);
  }

  /** The first loop of `merge`: while both runs `a[left..mid + 1]` (the
      values `xs`) and `a[mid + 1..right + 1]` (the values `ys`) have
      elements and no interrupt is seen, the smaller head moves to `temp`,
      the left one on a tie. Throughout, `temp[..k]` is the first `k`
      elements of their merge `w`, and the scan from `i` and `j` gives the
      rest. */
  method MergeHeads(a: array<int>, temp: array<int>, left: int, mid: int, right: int, f0: Flags,
                    ghost xs: seq<int>, ghost ys: seq<int>, ghost w: seq<int>)
    returns (i: int, j: int, k: int, f: Flags, ghost da: int, ghost db: int)
    requires a != temp && temp.Length == right - left + 1
    requires 0 <= left <= mid <= right < a.Length
    requires |xs| == mid + 1 - left && |ys| == right - mid
    requires forall p :: left <= p <= mid ==> a[p] == xs[p - left]
    requires forall p :: mid < p <= right ==> a[p] == ys[p - mid - 1]
    requires w == MergeFrom(xs, ys, 0, 0)
    modifies temp
    ensures i == left + da && j == mid + 1 + db && k == da + db
    ensures 0 <= da <= |xs| && 0 <= db <= |ys| && k <= |w|
    ensures forall t :: 0 <= t < k ==> temp[t] == w[t]
    ensures MergeFrom(xs, ys, da, db) == w[k..]
    ensures Later(f0, f) && (da < |xs| && db < |ys| ==> f.interrupted)
  {
    f := f0;
    k := 0;
    i, j := left, mid + 1;
    da, db := 0, 0;
    while i <= mid && j <= right
      invariant i == left + da && j == mid + 1 + db && k == da + db
      invariant 0 <= da <= |xs| && 0 <= db <= |ys| && k <= |w|
      invariant forall t :: 0 <= t < k ==> temp[t] == w[t]
      invariant MergeFrom(xs, ys, da, db) == w[k..]
      invariant Later(f0, f)
      modifies temp
      decreases temp.Length - k
    {
      var g := Poll(f);
      LaterTransitive(f0, f, g);
      f := g;
      if f.interrupted {
        break;
      }
      if a[i] <= a[j] {
        MergeFromTakesLeft(xs, ys, da, db, w, k);
        k := k + 1;
        Emit(temp, k, a[i], w);
        i, da := i + 1, da + 1;
      } else {
        MergeFromTakesRight(xs, ys, da, db, w, k);
        k := k + 1;
        Emit(temp, k, a[j], w);
        j, db := j + 1, db + 1;
      }
    }
  }

  /** `temp[k++] = ...` in the loops of `merge`, seen from after the
      increment: the value written is the next one of the merge `w`, so
      the first `k` positions of `temp` hold those of `w`. */
  method Emit(temp: array<int>, k: int, x: int, ghost w: seq<int>)
    requires 0 < k <= temp.Length && k <= |w| && x == w[k - 1]
    requires forall t :: 0 <= t < k - 1 ==> temp[t] == w[t]
    modifies temp
    ensures forall t :: 0 <= t < k ==> temp[t] == w[t]
    ensures forall t :: k <= t < temp.Length ==> temp[t] == old(temp[t])
  {
    temp[k - 1] := x;
  }

  /** The second loop of `merge`: the rest of the left run is copied while
      no interrupt is seen. It runs, as in the program, even when the first
      loop stopped on an interrupt. */
  method DrainLeft(a: array<int>, temp: array<int>, left: int, mid: int, right: int, f0: Flags,
                   ghost xs: seq<int>, ghost ys: seq<int>, ghost w: seq<int>,
                   i0: int, k0: int, ghost da0: int, ghost db: int)
    returns (i: int, k: int, f: Flags, ghost da: int)
    requires a != temp && temp.Length == right - left + 1
    requires 0 <= left <= mid <= right < a.Length
    requires |xs| == mid + 1 - left && |ys| == right - mid
    requires forall p :: left <= p <= mid ==> a[p] == xs[p - left]
    requires i0 == left + da0 && k0 == da0 + db
    requires 0 <= da0 <= |xs| && 0 <= db <= |ys| && k0 <= |w|
    requires da0 == |xs| || db == |ys| || f0.interrupted
    requires forall t :: 0 <= t < k0 ==> temp[t] == w[t]
    requires MergeFrom(xs, ys, da0, db) == w[k0..]
    modifies temp
    ensures i == left + da && k == da + db
    ensures da0 <= da <= |xs| && k <= |w|
    ensures forall t :: 0 <= t < k ==> temp[t] == w[t]
    ensures MergeFrom(xs, ys, da, db) == w[k..]
    ensures Later(f0, f) && (da < |xs| ==> f.interrupted)
  {
    f := f0;
    i, k := i0, k0;
    da := da0;
    while i <= mid
      invariant i == left + da && k == da + db
      invariant da0 <= da <= |xs| && k <= |w|
      invariant forall t :: 0 <= t < k ==> temp[t] == w[t]
      invariant MergeFrom(xs, ys, da, db) == w[k..]
      invariant Later(f0, f)
      invariant da == |xs| || db == |ys| || f.interrupted
      modifies temp
      decreases mid - i
    {
      var g := Poll(f);
      LaterTransitive(f0, f, g);
      f := g;
      if f.interrupted {
        break;
      }
      MergeFromTakesLeft(xs, ys, da, db, w, k);
      k := k + 1;
      Emit(temp, k, a[i], w);
      i, da := i + 1, da + 1;
    }
  }

  /** The third loop of `merge`: the rest of the right run is copied while
      no interrupt is seen. */
  method DrainRight(a: array<int>, temp: array<int>, left: int, mid: int, right: int, f0: Flags,
                    ghost xs: seq<int>, ghost ys: seq<int>, ghost w: seq<int>,
                    j0: int, k0: int, ghost da: int, ghost db0: int)
    returns (j: int, k: int, f: Flags, ghost db: int)
    requires a != temp && temp.Length == right - left + 1
    requires 0 <= left <= mid <= right < a.Length
    requires |xs| == mid + 1 - left && |ys| == right - mid
    requires forall p :: mid < p <= right ==> a[p] == ys[p - mid - 1]
    requires j0 == mid + 1 + db0 && k0 == da + db0
    requires 0 <= da <= |xs| && 0 <= db0 <= |ys| && k0 <= |w|
    requires da == |xs| || f0.interrupted
    requires forall t :: 0 <= t < k0 ==> temp[t] == w[t]
    requires MergeFrom(xs, ys, da, db0) == w[k0..]
    modifies temp
    ensures j == mid + 1 + db && k == da + db
    ensures db0 <= db <= |ys| && k <= |w|
    ensures forall t :: 0 <= t < k ==> temp[t] == w[t]
    ensures MergeFrom(xs, ys, da, db) == w[k..]
    ensures Later(f0, f) && (db < |ys| ==> f.interrupted)
  {
    f := f0;
    j, k := j0, k0;
    db := db0;
    while j <= right
      invariant j == mid + 1 + db && k == da + db
      invariant db0 <= db <= |ys| && k <= |w|
      invariant forall t :: 0 <= t < k ==> temp[t] == w[t]
      invariant MergeFrom(xs, ys, da, db) == w[k..]
      invariant Later(f0, f)
      modifies temp
      decreases right - j
    {
      var g := Poll(f);
      LaterTransitive(f0, f, g);
      f := g;
      if f.interrupted {
        break;
      }
      MergeFromTakesRight(xs, ys, da, db, w, k);
      k := k + 1;
      Emit(temp, k, a[j], w);
      j, db := j + 1, db + 1;
    }
  }
}
