/** What Lomuto's partition establishes and counts while it scans, and
    why sorting both sides of a placed pivot sorts the whole range. */
module PartitionSpec {
  import opened Order
  import opened SwapSpec

  /** How many elements of `s` are strictly below `pivot`: the number of
      times `partition` advances its boundary `i`, each time with a swap. */
  function CountLess(s: seq<int>, pivot: int): nat
  {
    if |s| == 0 then 0
    else CountLess(s[..|s| - 1], pivot) + (if s[|s| - 1] < pivot then 1 else 0)
  }

  lemma {:induction false} CountLessBound(s: seq<int>, pivot: int)
    ensures CountLess(s, pivot) <= |s|
    ensures CountLess(s, pivot) == |s| <==> forall k :: 0 <= k < |s| ==> s[k] < pivot
  {
    if |s| > 0 {
      CountLessBound(s[..|s| - 1], pivot);
    }
  }

  /** When no element is below the pivot (an all-equal range, say) the scan
      advances the boundary, and so swaps, zero times. */
  lemma {:induction false} CountLessNoneBelow(s: seq<int>, pivot: int)
    ensures CountLess(s, pivot) == 0 <==> forall k :: 0 <= k < |s| ==> pivot <= s[k]
  {
    if |s| > 0 {
      CountLessNoneBelow(s[..|s| - 1], pivot);
    }
  }

  /** One more scanned element adds one to the count exactly when it is
      below the pivot. */
  lemma CountLessStep(s: seq<int>, lo: int, j: int, pivot: int)
    requires 0 <= lo <= j < |s|
    ensures CountLess(s[lo..j + 1], pivot) == CountLess(s[lo..j], pivot) + (if s[j] < pivot then 1 else 0)
  {
    assert s[lo..j + 1][..j - lo] == s[lo..j];
  }

  /** The pivot sits at `p`: everything in `[low, p)` is below it and
      everything in `(p, high]` is at least it. */
  predicate PartitionedAt(s: seq<int>, low: int, p: int, high: int)
    requires 0 <= low <= p <= high < |s|
  {
    && (forall k :: low <= k < p ==> s[k] < s[p])
    && (forall k :: p < k <= high ==> s[p] <= s[k])
  }

  /** Sorting `[low, p)` and then `(p, high]` around a placed pivot sorts
      `[low, high]`. */
  lemma PartitionedSorted(s1: seq<int>, s2: seq<int>, s3: seq<int>, low: int, p: int, high: int)
    requires 0 <= low <= p <= high < |s1|
    requires PartitionedAt(s1, low, p, high)
    requires Rearranged(s1, s2, low, p) && Rearranged(s2, s3, p + 1, high + 1)
    requires Sorted(s2[low..p]) && Sorted(s3[p + 1..high + 1])
    ensures Sorted(s3[low..high + 1])
  {
    LeftSideBelow(s1, s2, s3, low, p, high);
    RightSideAtLeast(s1, s2, s3, low, p, high);
    SortedAround(s3, low, p, high);
  }

  /** The left side, rearranged and then left alone, stays below the pivot. */
  lemma LeftSideBelow(s1: seq<int>, s2: seq<int>, s3: seq<int>, low: int, p: int, high: int)
    requires 0 <= low <= p <= high < |s1|
    requires PartitionedAt(s1, low, p, high)
    requires Rearranged(s1, s2, low, p) && Rearranged(s2, s3, p + 1, high + 1)
    requires Sorted(s2[low..p])
    ensures s3[p] == s1[p] && AllBelow(s3[low..p], s3[p]) && Sorted(s3[low..p])
  {
    var v := s1[p];
    var a1 := s1[low..p];
    assert AllBelow(a1, v) by {
      forall x | x in a1 ensures x < v {
        var k :| 0 <= k < |a1| && a1[k] == x;
        assert s1[low + k] == x;
      }
    }
    RearrangedRange(s1, s2, low, p);
    PermutationKeepsBounds(a1, s2[low..p], v);
    RearrangedOutside(s2, s3, p + 1, high + 1, low, p);
  }

  /** The right side, left alone and then rearranged, stays at least the pivot. */
  lemma RightSideAtLeast(s1: seq<int>, s2: seq<int>, s3: seq<int>, low: int, p: int, high: int)
    requires 0 <= low <= p <= high < |s1|
    requires PartitionedAt(s1, low, p, high)
    requires Rearranged(s1, s2, low, p) && Rearranged(s2, s3, p + 1, high + 1)
    ensures AllAtLeast(s3[p + 1..high + 1], s1[p])
  {
    var v := s1[p];
    var b1 := s1[p + 1..high + 1];
    assert AllAtLeast(b1, v) by {
      forall x | x in b1 ensures v <= x {
        var k :| 0 <= k < |b1| && b1[k] == x;
        assert s1[p + 1 + k] == x;
      }
    }
    RearrangedOutside(s1, s2, low, p, p + 1, high + 1);
    RearrangedRange(s2, s3, p + 1, high + 1);
    PermutationKeepsBounds(b1, s3[p + 1..high + 1], v);
  }

  /** A sorted run below `s[p]`, then `s[p]`, then a sorted run at least
      `s[p]` form a sorted range. */
  lemma SortedAround(s: seq<int>, low: int, p: int, high: int)
    requires 0 <= low <= p <= high < |s|
    requires AllBelow(s[low..p], s[p]) && Sorted(s[low..p])
    requires AllAtLeast(s[p + 1..high + 1], s[p]) && Sorted(s[p + 1..high + 1])
    ensures Sorted(s[low..high + 1])
  {
    var a, b := s[low..p], s[p + 1..high + 1];
    SortedAroundPivot(a, s[p], b);
    assert s[low..high + 1] == a + [s[p]] + b;
  }

  /** The scan's picture: `[low, i]` below the pivot, `(i, j)` at least it. */
  predicate ScannedTo(s: seq<int>, low: int, i: int, j: int, pivot: int)
    requires 0 <= low && j <= |s|
  {
    && (forall k :: low <= k <= i && k < j ==> s[k] < pivot)
    && (forall k :: i < k < j && low <= k ==> pivot <= s[k])
  }

  /** Scanning an element at least the pivot only widens the right part. */
  lemma ScanKeeps(s: seq<int>, low: int, i: int, j: int, pivot: int)
    requires 0 <= low && low - 1 <= i < j < |s| && ScannedTo(s, low, i, j, pivot)
    requires pivot <= s[j]
    ensures ScannedTo(s, low, i, j + 1, pivot)
  {
  }

  /** Scanning an element below the pivot and swapping it to `i + 1`
      extends the left part by one. */
  lemma ScanSwaps(s: seq<int>, low: int, i: int, j: int, pivot: int)
    requires 0 <= low && low - 1 <= i < j < |s| && ScannedTo(s, low, i, j, pivot)
    requires s[j] < pivot
    ensures ScannedTo(Swapped(s, i + 1, j), low, i + 1, j + 1, pivot)
  {
  }

  /** Swapping the pivot from `high` to just after the left part places it. */
  lemma PivotPlaced(s: seq<int>, low: int, i: int, high: int)
    requires 0 <= low && low - 1 <= i < high < |s| && ScannedTo(s, low, i, high, s[high])
    ensures PartitionedAt(Swapped(s, i + 1, high), low, i + 1, high)
    ensures Swapped(s, i + 1, high)[i + 1] == s[high]
  {
  }

  /** Everything the scan of `partition` keeps while `j` runs from `low`
      to `high`: `s` is `s0` rearranged on the scanned part, split at `i`
      around the pivot, and `swaps` counts the scanned elements below the
      pivot, each of them swapped once. */
  predicate ScanState(s0: seq<int>, s: seq<int>, low: int, i: int, j: int, pivot: int, swaps: int)
  {
    && 0 <= low <= j <= |s0| && low - 1 <= i < j
    && swaps == i + 1 - low
    && swaps == CountLess(s0[low..j], pivot)
    && Rearranged(s0, s, low, j)
    && ScannedTo(s, low, i, j, pivot)
  }

  lemma ScanStarts(s0: seq<int>, low: int, pivot: int)
    requires 0 <= low <= |s0|
    ensures ScanState(s0, s0, low, low - 1, low, pivot, 0)
  {
    RearrangedReflexive(s0, low, low);
  }

  /** The loop body of the scan when `s[j]` is below the pivot: `i`
      advances and `swap(i, j)` moves the element into the left part. */
  lemma ScanSwapsStep(s0: seq<int>, s: seq<int>, s': seq<int>, low: int, i: int, j: int, pivot: int, swaps: int)
    requires ScanState(s0, s, low, i, j, pivot, swaps) && j < |s0| && s[j] < pivot
    requires s' == Swapped(s, i + 1, j)
    ensures ScanState(s0, s', low, i + 1, j + 1, pivot, swaps + 1)
  {
    CountLessStep(s0, low, j, pivot);
    ScanSwaps(s, low, i, j, pivot);
    RearrangedSwap(s0, s, low, j, j + 1, i + 1, j);
  }

  /** The loop body of the scan when `s[j]` is at least the pivot. */
  lemma ScanKeepsStep(s0: seq<int>, s: seq<int>, low: int, i: int, j: int, pivot: int, swaps: int)
    requires ScanState(s0, s, low, i, j, pivot, swaps) && j < |s0| && pivot <= s[j]
    ensures ScanState(s0, s, low, i, j + 1, pivot, swaps)
  {
    CountLessStep(s0, low, j, pivot);
    ScanKeeps(s, low, i, j, pivot);
    RearrangedWiden(s0, s, low, j, low, j + 1);
  }
}
