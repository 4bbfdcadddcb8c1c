/** Orderings and permutation facts shared by the four sorting algorithms. */
module Order {

  /** `s` is in ascending order. */
  predicate Sorted(s: seq<int>)
  {
    forall p, q :: 0 <= p < q < |s| ==> s[p] <= s[q]
  }

  /** There is only one ascending arrangement of a multiset. */
  lemma {:induction false} SortedPermutationUnique(a: seq<int>, b: seq<int>)
    requires Sorted(a) && Sorted(b) && multiset(a) == multiset(b)
    ensures a == b
    decreases |a|
  {
    assert |a| == |multiset(a)| == |multiset(b)| == |b|;
    if |a| > 0 {
      SortedHeadsEqual(a, b);
      DropHead(a);
      DropHead(b);
      SortedPermutationUnique(a[1..], b[1..]);
      assert a == [a[0]] + a[1..] && b == [b[0]] + b[1..];
    }
  }

  /** Two ascending arrangements of one multiset start with its least
      element. */
  lemma SortedHeadsEqual(a: seq<int>, b: seq<int>)
    requires Sorted(a) && Sorted(b) && multiset(a) == multiset(b) && |a| > 0 && |b| > 0
    ensures a[0] == b[0]
  {
    assert b[0] in multiset(a) && a[0] in multiset(b);
    var i :| 0 <= i < |a| && a[i] == b[0];
    var j :| 0 <= j < |b| && b[j] == a[0];
    assert a[0] <= a[i] && b[0] <= b[j];
  }

  /** Dropping the head of an ascending sequence. */
  lemma DropHead(a: seq<int>)
    requires Sorted(a) && |a| > 0
    ensures Sorted(a[1..]) && multiset(a[1..]) == multiset(a) - multiset{a[0]}
  {
    assert a == [a[0]] + a[1..];
  }

  /** Every element of `s` is strictly below `v`. */
  predicate AllBelow(s: seq<int>, v: int)
  {
    forall x :: x in s ==> x < v
  }

  /** Every element of `s` is at least `v`. */
  predicate AllAtLeast(s: seq<int>, v: int)
  {
    forall x :: x in s ==> v <= x
  }

  /** A permutation has the same elements, so bounds on the elements carry over. */
  lemma PermutationKeepsBounds(a: seq<int>, b: seq<int>, v: int)
    requires multiset(a) == multiset(b)
    ensures AllBelow(a, v) ==> AllBelow(b, v)
    ensures AllAtLeast(a, v) ==> AllAtLeast(b, v)
  {
    forall x | x in b ensures x in a {
      assert x in multiset(b);
    }
  }

  /** Two sorted runs around a pivot, the left one not above it and the
      right one not below it, concatenate to a sorted sequence. */
  lemma SortedAroundPivot(a: seq<int>, v: int, b: seq<int>)
    requires Sorted(a) && Sorted(b)
    requires forall x :: x in a ==> x <= v
    requires AllAtLeast(b, v)
    ensures Sorted(a + [v] + b)
  {
    var s := a + [v] + b;
    forall p, q | 0 <= p < q < |s| ensures s[p] <= s[q] {
      if q < |a| {
      } else if q == |a| {
        assert s[p] in a;
      } else if p < |a| {
        assert s[p] in a && s[q] in b;
      } else if p == |a| {
        assert s[q] in b;
      } else {
        assert s[p] == b[p - |a| - 1] && s[q] == b[q - |a| - 1];
      }
    }
  }

  /** Cutting a sequence in two cuts its multiset in two. */
  lemma MultisetSplit<T>(s: seq<T>, h: int)
    requires 0 <= h <= |s|
    ensures multiset(s) == multiset(s[..h]) + multiset(s[h..])
  {
    assert s == s[..h] + s[h..];
  }

  lemma MultisetHead<T>(s: seq<T>)
    requires |s| > 0
    ensures multiset(s) == multiset{s[0]} + multiset(s[1..])
  {
    assert s == [s[0]] + s[1..];
  }

  lemma MultisetLast<T>(s: seq<T>)
    requires |s| > 0
    ensures multiset(s) == multiset(s[..|s| - 1]) + multiset{s[|s| - 1]}
  {
    assert s == s[..|s| - 1] + [s[|s| - 1]];
  }

  /** Cutting a sequence in three at `lo` and `hi`. */
  lemma MultisetThree(s: seq<int>, lo: int, hi: int)
    requires 0 <= lo <= hi <= |s|
    ensures multiset(s) == multiset(s[..lo]) + multiset(s[lo..hi]) + multiset(s[hi..])
  {
    assert s == s[..lo] + s[lo..hi] + s[hi..];
  }

  /** If two sequences of one length agree outside `[lo, hi)` and are
      permutations of each other, then so are their `[lo, hi)` slices. */
  lemma PermutationOnRange(a: seq<int>, b: seq<int>, lo: int, hi: int)
    requires 0 <= lo <= hi <= |a| == |b|
    requires a[..lo] == b[..lo] && a[hi..] == b[hi..]
    requires multiset(a) == multiset(b)
    ensures multiset(a[lo..hi]) == multiset(b[lo..hi])
  {
    MultisetThree(a, lo, hi);
    MultisetThree(b, lo, hi);
    var outside := multiset(a[..lo]) + multiset(a[hi..]);
    forall v ensures multiset(a[lo..hi])[v] == multiset(b[lo..hi])[v] {
      assert multiset(a)[v] == multiset(a[lo..hi])[v] + outside[v];
      assert multiset(b)[v] == multiset(b[lo..hi])[v] + outside[v];
    }
  }

  /** The three parts of a concatenation, sliced back out. */
  lemma SliceThree<T>(p: seq<T>, q: seq<T>, r: seq<T>)
    ensures (p + q + r)[..|p|] == p
    ensures (p + q + r)[|p|..|p| + |q|] == q
    ensures (p + q + r)[|p| + |q|..] == r
    ensures (p + q + r)[..|p| + |q|] == p + q
  {
  }

  /** A slice cut in two. */
  lemma SliceSplit<T>(s: seq<T>, i: int, j: int, k: int)
    requires 0 <= i <= j <= k <= |s|
    ensures s[i..k] == s[i..j] + s[j..k]
  {
  }

  /** A sequence is the concatenation of its slices at `lo` and `hi`. */
  lemma JoinSlices<T>(t: seq<T>, lo: int, hi: int)
    requires 0 <= lo <= hi <= |t|
    ensures t == t[..lo] + t[lo..hi] + t[hi..]
  {
  }

  /** Agreeing on a prefix means agreeing on every slice inside it. */
  lemma PrefixSlices<T>(t: seq<T>, s: seq<T>, k: int, j: int)
    requires 0 <= j <= k <= |t| && k <= |s| && t[..k] == s[..k]
    ensures t[..j] == s[..j] && t[j..k] == s[j..k]
  {
    assert t[..j] == t[..k][..j] && s[..j] == s[..k][..j];
    assert t[j..k] == t[..k][j..] && s[j..k] == s[..k][j..];
  }

  /** `s` with the block starting at `lo` overwritten by `m`. */
  function Spliced(s: seq<int>, lo: int, m: seq<int>): (t: seq<int>)
    requires 0 <= lo && lo + |m| <= |s|
    ensures |t| == |s|
  {
    s[..lo] + m + s[lo + |m|..]
  }

  /** A sequence that agrees with `s` outside the block and with `m`
      inside it, position by position, is `Spliced(s, lo, m)`. */
  lemma Splice(t: seq<int>, s: seq<int>, lo: int, m: seq<int>)
    requires |t| == |s| && 0 <= lo && lo + |m| <= |s|
    requires forall n :: 0 <= n < lo ==> t[n] == s[n]
    requires forall n :: 0 <= n < |m| ==> t[lo + n] == m[n]
    requires forall n :: lo + |m| <= n < |s| ==> t[n] == s[n]
    ensures t == Spliced(s, lo, m)
  {
  }

  /** The three parts of a splice whose block ends at `hi`. */
  lemma SplicedParts(s: seq<int>, lo: int, m: seq<int>, hi: int)
    requires 0 <= lo && hi == lo + |m| <= |s|
    ensures Spliced(s, lo, m)[..lo] == s[..lo]
    ensures Spliced(s, lo, m)[lo..hi] == m
    ensures Spliced(s, lo, m)[hi..] == s[hi..]
  {
    SliceThree(s[..lo], m, s[hi..]);
  }

  /** A splice keeps every position outside its block. */
  lemma SplicedFrame(s: seq<int>, lo: int, m: seq<int>)
    requires 0 <= lo && lo + |m| <= |s|
    ensures forall n :: 0 <= n < |s| && !(lo <= n < lo + |m|) ==> Spliced(s, lo, m)[n] == s[n]
  {
  }

  /** Splicing in a permutation of the block permutes the whole. */
  lemma SplicedPermutation(s: seq<int>, lo: int, m: seq<int>, hi: int)
    requires 0 <= lo && hi == lo + |m| <= |s|
    requires multiset(m) == multiset(s[lo..hi])
    ensures multiset(Spliced(s, lo, m)) == multiset(s)
  {
    JoinSlices(s, lo, hi);
  }

  /** `t` is `s` with the positions in `[lo, hi)` permuted among
      themselves and every other position left as it was: what every sort
      promises about the bars it touches. */
  predicate Rearranged(s: seq<int>, t: seq<int>, lo: int, hi: int)
  {
    && 0 <= lo <= hi <= |s| == |t|
    && multiset(t) == multiset(s)
    && forall n :: 0 <= n < |s| && !(lo <= n < hi) ==> t[n] == s[n]
  }

  /** A rearrangement of `[lo, hi)` leaves every slice outside it alone. */
  lemma RearrangedOutside(s: seq<int>, t: seq<int>, lo: int, hi: int, i: int, j: int)
    requires Rearranged(s, t, lo, hi) && 0 <= i <= j <= |s|
    requires j <= lo || hi <= i
    ensures t[i..j] == s[i..j]
  {
    forall k | 0 <= k < j - i ensures t[i..j][k] == s[i..j][k] {
      assert t[i + k] == s[i + k];
    }
  }

  lemma RearrangedReflexive(s: seq<int>, lo: int, hi: int)
    requires 0 <= lo <= hi <= |s|
    ensures Rearranged(s, s, lo, hi)
  {
  }

  lemma RearrangedTransitive(s: seq<int>, t: seq<int>, u: seq<int>, lo: int, hi: int)
    requires Rearranged(s, t, lo, hi) && Rearranged(t, u, lo, hi)
    ensures Rearranged(s, u, lo, hi)
  {
  }

  /** Rearranging a range rearranges every range around it. */
  lemma RearrangedWiden(s: seq<int>, t: seq<int>, lo: int, hi: int, lo': int, hi': int)
    requires Rearranged(s, t, lo, hi) && 0 <= lo' <= lo && hi <= hi' <= |s|
    ensures Rearranged(s, t, lo', hi')
  {
  }

  /** A rearranged range holds a permutation of what it held. */
  lemma RearrangedRange(s: seq<int>, t: seq<int>, lo: int, hi: int)
    requires Rearranged(s, t, lo, hi)
    ensures t[..lo] == s[..lo] && t[hi..] == s[hi..]
    ensures multiset(t[lo..hi]) == multiset(s[lo..hi])
  {
    assert t[..lo] == s[..lo];
    assert t[hi..] == s[hi..];
    PermutationOnRange(s, t, lo, hi);
  }
}
