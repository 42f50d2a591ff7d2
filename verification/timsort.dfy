/**
 * TimSortStrategy: the state of one sort (the array a, the merge buffer tmp
 * with its slice tmpBase/tmpLen, the adaptive minGallop and the stack of
 * pending runs), the operations that push, merge and collapse runs, and the
 * static sort that drives them over a range of the array.
 */
module TimSort {
  import opened SortSpec
  import opened MergeSpec
  import opened MergeState
  import opened RunSpec
  import opened InsertionSpec
  import opened TimSortRuns
  import opened TimSortMinRun
  import opened TimSortGallop
  import opened TimSortStack
  import opened MergeCursors

  /** Galloping starts once one run has won this many times in a row. */
  const MIN_GALLOP := 7

  /** The largest merge buffer the constructor allocates. */
  const INITIAL_TMP_STORAGE_LENGTH := 256

  /**
   * The mask -1 >>> Integer.numberOfLeadingZeros(m) for a positive int m:
   * ones in every bit position up to the highest set bit of m.
   */
  function LowMask(m: nat): (r: nat)
    ensures m > 0 ==> m <= r < 2 * m
  {
    if m == 0 then 0 else 2 * LowMask(m / 2) + 1
  }

  /** The number of binary digits of m. */
  function BitLength(m: nat): nat {
    if m == 0 then 0 else 1 + BitLength(m / 2)
  }

  /** LowMask(m) + 1 is the smallest power of two above m. */
  lemma {:induction false} LowMaskIsPowerAbove(m: nat)
    ensures LowMask(m) + 1 == Pow2(BitLength(m))
    ensures m < Pow2(BitLength(m))
    ensures m > 0 ==> Pow2(BitLength(m) - 1) <= m
  {
    if m > 0 {
      LowMaskIsPowerAbove(m / 2);
    }
  }

  /**
   * The size ensureCapacity gives a buffer that has to hold m elements for a
   * sort of n: the smallest power of two above m, capped at half of n, or m
   * itself when that power of two does not fit in an int.
   */
  ghost function GrownCapacity(m: nat, n: nat): int {
    var p := Pow2(BitLength(m));
    if p > INT_MAX then m else if p < n / 2 then p else n / 2
  }

  /** The grown buffer holds the m elements whenever half of n does. */
  lemma GrownCapacitySuffices(m: nat, n: nat)
    ensures 0 <= GrownCapacity(m, n)
    ensures m <= n / 2 ==> m <= GrownCapacity(m, n)
  {
    LowMaskIsPowerAbove(m);
  }

  /**
   * ensureCapacity's int arithmetic computes GrownCapacity: the mask plus
   * one overflows to a negative int exactly when the power of two does not
   * fit.
   */
  lemma MaskArithmetic(m: int, n: nat, w: int)
    requires 0 < m <= INT_MAX && w == Wrap32(LowMask(m) + 1)
    ensures w < 0 ==> m == GrownCapacity(m, n)
    ensures 0 <= w ==> (if w < n / 2 then w else n / 2) == GrownCapacity(m, n)
  {
    LowMaskIsPowerAbove(m);
    var p := LowMask(m) + 1;
    assert p == Pow2(BitLength(m)) && 0 < p <= 2 * m;
    WrapOnce(p);
  }

  /**
   * The run countRunAndMakeAscending finds at lo, extended by binarySort to
   * force elements, is sorted, and [lo, hi) keeps its elements.
   */
  lemma ExtendedRunSorted(s: seq<int>, lo: int, hi: int, force: int, t: seq<int>)
    requires 0 <= lo < hi <= |s| && RunEnd(s, lo, hi) <= lo + force <= hi
    requires t == BinarySorted(MadeAscending(s, lo, hi), lo, lo + force, RunEnd(s, lo, hi))
    ensures Sorted(t[lo..lo + force]) && PermutedWithin(t, s, lo, hi)
  {
    var r := MadeAscending(s, lo, hi);
    MadeAscendingSortsRun(s, lo, hi);
    BinarySortedSorts(r, lo, lo + force, RunEnd(s, lo, hi));
    SlicesPermuted(t, r, lo, lo + force);
    PermutedWiden(t, r, lo, lo + force, lo, hi);
    PermutedTrans(t, r, s, lo, hi);
  }

  /**
   * The length of the run sort pushes at lo: the natural run there, or
   * minRun elements (all that remain, if fewer) when the natural run is
   * shorter than minRun.
   */
  ghost function ForcedRunLength(s: seq<int>, lo: int, hi: int, minRun: int): int
    requires 0 <= lo < hi <= |s|
  {
    var n := RunEnd(s, lo, hi) - lo;
    if n < minRun then (if hi - lo <= minRun then hi - lo else minRun) else n
  }

  class TimSortStrategy {
    /** The array being sorted. */
    const a: array<int>
    /** How many wins in a row of one run start galloping; adapts to the data. */
    var minGallop: int
    /** The merge buffer, of which tmp[tmpBase..tmpBase + tmpLen) is ours. */
    var tmp: array<int>
    var tmpBase: int
    var tmpLen: int
    /** The stack of pending runs: run i is a[runBase[i]..runBase[i] + runLen[i]). */
    var stackSize: int
    var runBase: seq<int>
    var runLen: seq<int>

    ghost predicate Valid()
      reads this
    {
      && a != tmp && a.Length <= INT_MAX && tmp.Length <= INT_MAX
      && 1 <= minGallop
      && 0 <= tmpBase && 0 <= tmpLen && tmpBase + tmpLen <= tmp.Length
      && stackSize == |runBase| == |runLen|
    }

    /**
     * Sets up the sort of a: the merge buffer is the caller's work slice
     * when it holds half of a (at most INITIAL_TMP_STORAGE_LENGTH), and a new
     * array of that size otherwise; the run stack starts empty.
     */
    constructor (a: array<int>, work: array?<int>, workBase: int, workLen: int)
      requires work != a && a.Length <= INT_MAX
      requires work != null ==> 0 <= workBase && 0 <= workLen && workBase + workLen <= work.Length <= INT_MAX
      ensures this.a == a && Valid()
      ensures stackSize == 0 && minGallop == MIN_GALLOP
      ensures var tlen := if a.Length < 2 * INITIAL_TMP_STORAGE_LENGTH then a.Length / 2 else INITIAL_TMP_STORAGE_LENGTH;
        if work == null || workLen < tlen || workBase + tlen > work.Length then
          fresh(tmp) && tmpBase == 0 && tmpLen == tmp.Length == tlen
        else
          tmp == work && tmpBase == workBase && tmpLen == workLen
    {
      this.a := a;
      var len := a.Length;
      var tlen := if len < 2 * INITIAL_TMP_STORAGE_LENGTH then len / 2 else INITIAL_TMP_STORAGE_LENGTH;
      if work == null || workLen < tlen || workBase + tlen > work.Length {
        tmp := new int[tlen];
        tmpBase := 0;
        tmpLen := tlen;
      } else {
        tmp := work;
        tmpBase := workBase;
        tmpLen := workLen;
      }
      minGallop := MIN_GALLOP;
      stackSize := 0;
      runBase := [];
      runLen := [];
    }

    /**
     * The static sort of a[lo..hi): ranges of fewer than two elements are
     * left alone, ranges shorter than MIN_MERGE are sorted by binary
     * insertion after their first run, and longer ones by finding runs,
     * extending short ones to minRun, and merging them on the run stack.
     * The range ends up sorted with the same elements, and nothing else in
     * a changes.
     */
    static method SortRange(a: array<int>, lo: int, hi: int, work: array?<int>, workBase: int, workLen: int)
      requires 0 <= lo <= hi <= a.Length <= INT_MAX
      requires work != a
      requires work != null ==> 0 <= workBase && 0 <= workLen && workBase + workLen <= work.Length <= INT_MAX
      modifies a, work
      ensures Sorted(a[lo..hi]) && PermutedWithin(a[..], old(a[..]), lo, hi)
      ensures hi - lo < 2 ==> a[..] == old(a[..])
    {
      var nRemaining := hi - lo;
      if nRemaining < 2 {
        return;
      }

      if nRemaining < MIN_MERGE {
        // countRunAndMakeAscending, then binarySort of the rest of the range
        var initRunLen := NextRun(a, lo, hi, nRemaining);
        return;
      }

      var ts := new TimSortStrategy(a, work, workBase, workLen);
      var minRun := MinRunLength(nRemaining);
      ts.SortRuns(lo, hi, minRun);
    }

    /**
     * The strategy's sort: the whole array, with a fresh work array of the
     * same length as merge buffer, ends up sorted with the same elements.
     */
    static method Sort(a: array<int>)
      requires a.Length <= INT_MAX
      modifies a
      ensures Sorted(a[..]) && multiset(a[..]) == old(multiset(a[..]))
    {
      var work := new int[a.Length];
      SortRange(a, 0, a.Length, work, 0, work.Length);
      assert a[..] == a[0..a.Length];
    }

    /**
     * The main loop of sort over a[lo..hi) on a fresh stack: pushes run after
     * run, collapsing as it goes, and finally merges everything left into
     * one sorted run.
     */
    method SortRuns(lo: int, hi: int, minRun: int)
      requires Valid() && stackSize == 0 && 0 <= lo < hi <= a.Length
      modifies this, a, tmp
      ensures Valid() && stackSize == 1
      ensures Sorted(a[lo..hi]) && PermutedWithin(a[..], old(a[..]), lo, hi)
      ensures tmp == old(tmp) || fresh(tmp)
    {
      var lo' := lo;
      var nRemaining := hi - lo;
      while nRemaining != 0
        invariant Valid() && lo <= lo' <= hi && nRemaining == hi - lo'
        invariant Tiles(runBase, runLen, lo, lo') && RunsSorted(a[..], runBase, runLen) && Balanced(runLen)
        invariant PermutedWithin(a[..], old(a[..]), lo, hi)
        invariant tmp == old(tmp) || fresh(tmp)
        decreases nRemaining
      {
        ghost var cur := a[..];
        var n := AddRun(lo', hi, minRun, lo);
        ghost var next := a[..];
        PermutedTrans(next, cur, old(a[..]), lo, hi);
        lo' := lo' + n;
        nRemaining := nRemaining - n;
      }
      MergeForceCollapse(lo, hi);
    }

    /**
     * Makes the merge buffer hold at least minCapacity elements, replacing
     * it by a fresh array of GrownCapacity(minCapacity, a.Length) elements
     * when it is too small, and returns it.
     */
    method EnsureCapacity(minCapacity: int) returns (r: array<int>)
      requires Valid() && minCapacity <= INT_MAX
      modifies this
      ensures Valid() && r == tmp
      ensures minCapacity <= a.Length / 2 ==> minCapacity <= tmpLen
      ensures old(tmpLen) >= minCapacity ==> tmp == old(tmp) && tmpBase == old(tmpBase) && tmpLen == old(tmpLen)
      ensures old(tmpLen) < minCapacity ==>
        fresh(tmp) && tmpBase == 0 && tmpLen == tmp.Length == GrownCapacity(minCapacity, a.Length)
      ensures minGallop == old(minGallop) && stackSize == old(stackSize)
      ensures runBase == old(runBase) && runLen == old(runLen)
    {
      if tmpLen < minCapacity {
        var newSize := Wrap32(LowMask(minCapacity) + 1);
        MaskArithmetic(minCapacity, a.Length, newSize);
        GrownCapacitySuffices(minCapacity, a.Length);
        if newSize < 0 {
          newSize := minCapacity;
        } else {
          newSize := if newSize < a.Length / 2 then newSize else a.Length / 2;
        }
        var newArray := new int[newSize];
        tmp := newArray;
        tmpLen := newSize;
        tmpBase := 0;
      }
      r := tmp;
    }

    /**
     * Finds the run at lo and, when it is shorter than minRun, extends it by
     * binary insertion to minRun elements or to hi.
     */
    static method NextRun(a: array<int>, lo: int, hi: int, minRun: int) returns (n: int)
      requires 0 <= lo < hi <= a.Length
      modifies a
      ensures n == ForcedRunLength(old(a[..]), lo, hi, minRun) && 0 < n <= hi - lo
      ensures Sorted(a[lo..lo + n]) && PermutedWithin(a[..], old(a[..]), lo, hi)
    {
      n := CountRunAndMakeAscending(a, lo, hi);
      MadeAscendingSortsRun(old(a[..]), lo, hi);
      if n < minRun {
        var force := if hi - lo <= minRun then hi - lo else minRun;
        BinarySort(a, lo, lo + force, lo + n);
        ExtendedRunSorted(old(a[..]), lo, hi, force, a[..]);
        n := force;
      }
    }

    /**
     * One pass of the main loop of sort: finds the run at lo, extends it to
     * minRun elements (or to hi) by binary insertion when it is shorter,
     * pushes it and restores the stack invariant.
     */
    method AddRun(lo: int, hi: int, minRun: int, ghost lo0: int) returns (n: int)
      requires Valid() && 0 <= lo0 <= lo < hi <= a.Length
      requires Tiles(runBase, runLen, lo0, lo) && RunsSorted(a[..], runBase, runLen) && Balanced(runLen)
      modifies this, a, tmp
      ensures Valid() && n == ForcedRunLength(old(a[..]), lo, hi, minRun) && 0 < n <= hi - lo
      ensures Tiles(runBase, runLen, lo0, lo + n) && RunsSorted(a[..], runBase, runLen) && Balanced(runLen)
      ensures PermutedWithin(a[..], old(a[..]), lo0, hi)
      ensures tmp == old(tmp) || fresh(tmp)
    {
      ghost var s1 := a[..];
      n := PushNextRun(lo, hi, minRun, lo0);
      ghost var s2 := a[..];
      MergeCollapse(lo0, lo + n);
      ghost var s3 := a[..];
      PermutedOverlap(s3, s2, s1, lo0, lo, lo + n, hi);
    }

    /** The run of AddRun, found, extended and pushed but not yet collapsed. */
    method PushNextRun(lo: int, hi: int, minRun: int, ghost lo0: int) returns (n: int)
      requires Valid() && 0 <= lo0 <= lo < hi <= a.Length
      requires Tiles(runBase, runLen, lo0, lo) && RunsSorted(a[..], runBase, runLen) && Balanced(runLen)
      modifies this, a
      ensures Valid() && n == ForcedRunLength(old(a[..]), lo, hi, minRun) && 0 < n <= hi - lo
      ensures runBase == old(runBase) + [lo] && runLen == old(runLen) + [n]
      ensures Tiles(runBase, runLen, lo0, lo + n) && RunsSorted(a[..], runBase, runLen)
      ensures 1 <= stackSize && Balanced(runLen[..stackSize - 1])
      ensures PermutedWithin(a[..], old(a[..]), lo, hi)
      ensures tmp == old(tmp)
    {
      ghost var s1, rb, rl := a[..], runBase, runLen;
      n := NextRun(a, lo, hi, minRun);
      ghost var s2 := a[..];
      PushedRun(s1, s2, rb, rl, lo0, lo, n, hi);
      PushRun(lo, n);
      assert a[..] == s2;
    }

    /** Pushes the run a[runBase..runBase + runLen) onto the stack of pending runs. */
    method PushRun(runBase: int, runLen: int)
      requires Valid()
      modifies this
      ensures Valid()
      ensures this.runBase == old(this.runBase) + [runBase] && this.runLen == old(this.runLen) + [runLen]
      ensures stackSize == old(stackSize) + 1
      ensures tmp == old(tmp) && tmpBase == old(tmpBase) && tmpLen == old(tmpLen) && minGallop == old(minGallop)
    {
      this.runBase := this.runBase + [runBase];
      this.runLen := this.runLen + [runLen];
      stackSize := stackSize + 1;
    }

    /**
     * mergeCollapse: merges runs at the top of the stack until the length
     * invariant holds for the whole stack again. On entry it holds below the
     * run just pushed; the runs keep tiling [lo, hi), each stays sorted, and
     * the range keeps its elements.
     */
    method MergeCollapse(ghost lo: int, ghost hi: int)
      requires Valid() && 0 <= lo <= hi <= a.Length
      requires Tiles(runBase, runLen, lo, hi) && RunsSorted(a[..], runBase, runLen)
      requires 1 <= stackSize && Balanced(runLen[..stackSize - 1])
      modifies this, a, tmp
      ensures Valid()
      ensures Tiles(runBase, runLen, lo, hi) && RunsSorted(a[..], runBase, runLen)
      ensures 1 <= stackSize && Balanced(runLen)
      ensures PermutedWithin(a[..], old(a[..]), lo, hi)
      ensures tmp == old(tmp) || fresh(tmp)
    {
      TilesInside(runBase, runLen, lo, hi, 0);
      if 2 <= stackSize {
        BalancedPrefix(runLen[..stackSize - 1], stackSize - 2);
        assert runLen[..stackSize - 1][..stackSize - 2] == runLen[..stackSize - 2];
      }
      while stackSize > 1
        invariant Valid() && Tiles(runBase, runLen, lo, hi) && RunsSorted(a[..], runBase, runLen)
        invariant 1 <= stackSize && (2 <= stackSize ==> Balanced(runLen[..stackSize - 2]))
        invariant PermutedWithin(a[..], old(a[..]), lo, hi)
        invariant tmp == old(tmp) || fresh(tmp)
        decreases stackSize
      {
        var n := stackSize - 2;
        if (n > 0 && runLen[n - 1] <= runLen[n] + runLen[n + 1]) || (n > 1 && runLen[n - 2] <= runLen[n] + runLen[n - 1]) {
          if runLen[n - 1] < runLen[n + 1] {
            n := n - 1;
          }
        } else if n < 0 || runLen[n] > runLen[n + 1] {
          break;
        }
        MergeAtOnStack(n, lo, hi);
      }
      if stackSize == 1 {
        assert BalancedAt(runLen, 0);
      } else {
        assert Tile(runBase, runLen, stackSize - 1);
        BalancedAtTop(runLen);
      }
    }

    /**
     * mergeForceCollapse: merges runs until one is left, which then holds
     * the whole of [lo, hi) in order.
     */
    method MergeForceCollapse(ghost lo: int, ghost hi: int)
      requires Valid() && 0 <= lo <= hi <= a.Length
      requires Tiles(runBase, runLen, lo, hi) && RunsSorted(a[..], runBase, runLen)
      requires 1 <= stackSize
      modifies this, a, tmp
      ensures Valid() && stackSize == 1
      ensures Tiles(runBase, runLen, lo, hi) && RunsSorted(a[..], runBase, runLen)
      ensures Sorted(a[lo..hi])
      ensures PermutedWithin(a[..], old(a[..]), lo, hi)
      ensures tmp == old(tmp) || fresh(tmp)
    {
      TilesInside(runBase, runLen, lo, hi, 0);
      while stackSize > 1
        invariant Valid() && Tiles(runBase, runLen, lo, hi) && RunsSorted(a[..], runBase, runLen)
        invariant 1 <= stackSize
        invariant PermutedWithin(a[..], old(a[..]), lo, hi)
        invariant tmp == old(tmp) || fresh(tmp)
        decreases stackSize
      {
        var n := stackSize - 2;
        if n > 0 && runLen[n - 1] < runLen[n + 1] {
          n := n - 1;
        }
        MergeAtOnStack(n, lo, hi);
      }
      SingleRunSorted(a[..], runBase, runLen, lo, hi);
    }

    /**
     * mergeAt(i) on a stack of sorted runs tiling [lo, hi): the stack stays
     * a tiling of sorted runs and the range keeps its elements.
     */
    method MergeAtOnStack(i: int, ghost lo: int, ghost hi: int)
      requires Valid() && 0 <= lo && hi <= a.Length
      requires Tiles(runBase, runLen, lo, hi) && RunsSorted(a[..], runBase, runLen)
      requires stackSize >= 2 && 0 <= i && (i == stackSize - 2 || i == stackSize - 3)
      modifies this, a, tmp
      ensures Valid()
      ensures runLen == Collapsed(old(runLen), i) && runBase == Removed(old(runBase), i + 1)
      ensures Tiles(runBase, runLen, lo, hi) && RunsSorted(a[..], runBase, runLen)
      ensures 2 <= stackSize && Balanced(old(runLen)[..old(stackSize) - 2]) ==> Balanced(runLen[..stackSize - 2])
      ensures PermutedWithin(a[..], old(a[..]), lo, hi)
      ensures tmp == old(tmp) || fresh(tmp)
    {
      ghost var s0, rb, rl := a[..], runBase, runLen;
      MergeableRuns(s0, rb, rl, lo, hi, i);
      MergeAt(i);
      MergedRunsSorted(a[..], s0, rb, rl, lo, hi, i);
      if 3 <= |rl| {
        CollapsedBelowTop(rl, i);
      }
    }

    /**
     * Merges runs i and i + 1 of the stack, which must be the top two or the
     * two below the top, adjacent, non-empty and sorted: their entries become
     * one, and the array range of the two runs holds their merge.
     */
    method MergeAt(i: int)
      requires Valid() && stackSize >= 2 && 0 <= i && (i == stackSize - 2 || i == stackSize - 3)
      requires 0 <= runBase[i] && 0 < runLen[i] && 0 < runLen[i + 1]
      requires runBase[i] + runLen[i] == runBase[i + 1] && runBase[i + 1] + runLen[i + 1] <= a.Length
      requires Sorted(a[runBase[i]..runBase[i + 1]]) && Sorted(a[runBase[i + 1]..runBase[i + 1] + runLen[i + 1]])
      modifies this, a, tmp
      ensures Valid()
      ensures runLen == Collapsed(old(runLen), i) && runBase == Removed(old(runBase), i + 1)
      ensures stackSize == old(stackSize) - 1
      ensures MergedInPlace(a[..], old(a[..]), old(a[runBase[i]..runBase[i + 1]]),
                            old(a[runBase[i + 1]..runBase[i + 1] + runLen[i + 1]]), old(runBase[i]))
      ensures tmp == old(tmp) || fresh(tmp)
    {
      var base1 := runBase[i];
      var len1 := runLen[i];
      var base2 := runBase[i + 1];
      var len2 := runLen[i + 1];

      // Record the merged run; run i + 1 disappears, the top run moves down.
      ghost var rb, rl := runBase, runLen;
      runLen := runLen[i := len1 + len2];
      if i == stackSize - 3 {
        runBase := runBase[i + 1 := runBase[i + 2]];
        runLen := runLen[i + 1 := runLen[i + 2]];
      }
      runBase := runBase[..stackSize - 1];
      runLen := runLen[..stackSize - 1];
      stackSize := stackSize - 1;
      assert runBase == Removed(rb, i + 1);
      assert runLen == Collapsed(rl, i);

      MergeRuns(base1, len1, base2, len2);
    }

    /**
     * The array half of mergeAt: merges the adjacent sorted runs
     * a[base1..base2) and a[base2..base2 + len2) in place, first skipping
     * the elements of run 1 that already precede all of run 2 and those of
     * run 2 that already follow all of run 1, then calling mergeLo or
     * mergeHi on what is left, whichever buffers the shorter remainder.
     */
    method MergeRuns(base1: int, len1: int, base2: int, len2: int)
      requires Valid()
      requires 0 < len1 && 0 < len2 && 0 <= base1 && base1 + len1 == base2 && base2 + len2 <= a.Length
      requires Sorted(a[base1..base2]) && Sorted(a[base2..base2 + len2])
      modifies this, a, tmp
      ensures Valid()
      ensures stackSize == old(stackSize) && runBase == old(runBase) && runLen == old(runLen)
      ensures tmp == old(tmp) || fresh(tmp)
      ensures MergedInPlace(a[..], old(a[..]), old(a[base1..base2]), old(a[base2..base2 + len2]), base1)
    {
      ghost var s0 := a[..];
      ghost var X := a[base1..base2];
      ghost var Y := a[base2..base2 + len2];
      ghost var b0 := base1;

      // The elements of run 1 up to the first of run 2 are already in place.
      var k := GallopRight(a[base2], a, base1, len1, 0);
      var base1, len1 := base1 + k, len1 - k;
      if len1 == 0 {
        MergeAllBefore(X, Y);
        UnchangedInPlace(s0, X, Y, b0);
        return;
      }

      // The elements of run 2 from the last of run 1 on are already in place.
      var len2 := GallopLeft(a[base1 + len1 - 1], a, base2, len2, len2 - 1);
      if len2 == 0 {
        assert false;
      }
      assert X[k..] == s0[base1..base2] && Y[..len2] == s0[base2..base2 + len2];
      MergeTrimmed(X, Y, k, len2);
      assert Sorted(a[base1..base2]) && Sorted(a[base2..base2 + len2]) by {
        SortedSplit(X, k);
        SortedSplit(Y, len2);
      }

      if len1 <= len2 {
        MergeLo(base1, len1, base2, len2);
      } else {
        MergeHi(base1, len1, base2, len2);
      }
      TrimmedInPlace(a[..], s0, X, Y, b0, k, len2);
    }

    /**
     * Merges the adjacent sorted runs X = a[base1..base2) and
     * Y = a[base2..base2 + len2) in place, with X copied to tmp, when
     * len1 <= len2. X must start above Y and end above all of Y, as mergeAt
     * arranges.
     */
    method MergeLo(base1: int, len1: int, base2: int, len2: int)
      requires Valid()
      requires 0 < len1 <= len2 && 0 <= base1 && base1 + len1 == base2 && base2 + len2 <= a.Length
      requires Sorted(a[base1..base2]) && Sorted(a[base2..base2 + len2])
      requires a[base2] < a[base1] && a[base2 + len2 - 1] < a[base2 - 1]
      modifies this, a, tmp
      ensures Valid()
      ensures stackSize == old(stackSize) && runBase == old(runBase) && runLen == old(runLen)
      ensures tmp == old(tmp) || fresh(tmp)
      ensures MergedInPlace(a[..], old(a[..]), old(a[base1..base2]), old(a[base2..base2 + len2]), base1)
    {
      ghost var s0 := a[..];
      ghost var X := a[base1..base2];
      ghost var Y := a[base2..base2 + len2];
      var tmp := EnsureCapacity(len1);
      ArrayCopy(a, base1, tmp, tmpBase, len1);
      assert a[..] == s0;
      LoCursorsStart(s0, tmp[..], tmpBase, X, Y, base1);
      minGallop := LoMerge(s0, X, Y, base1, tmpBase, base2, base1, len1, len2, minGallop);
    }

    /**
     * The merge proper of mergeLo, once X is in tmp: the first element of Y
     * goes first, then the one-at-a-time and galloping phases alternate
     * until a run is used up or X is down to its last element, and the
     * rest is copied into place. Returns the adapted minGallop.
     */
    method LoMerge(ghost s0: seq<int>, ghost X: seq<int>, ghost Y: seq<int>, ghost base1: int,
                   c1: int, c2: int, d: int, n1: int, n2: int, mg: int)
      returns (newMinGallop: int)
      requires a != tmp && a.Length <= INT_MAX && tmp.Length <= INT_MAX && Sorted(X) && Sorted(Y) && 0 < |X| && 0 < |Y| && Y[|Y| - 1] < X[|X| - 1]
      requires LoCursors(a[..], tmp[..], tmpBase, s0, X, Y, base1, c1, c2, d, n1, n2)
      requires 0 < n1 && 0 < n2 && a[c2] < tmp[c1]
      modifies a
      ensures MergedInPlace(a[..], s0, X, Y, base1)
      ensures 1 <= newMinGallop
    {
      var cursor1, cursor2, dest, len1, len2 := c1, c2, d, n1, n2;
      cursor2, dest, len2 := LoMoveY(s0, X, Y, base1, cursor1, cursor2, dest, len1, len2);
      if len2 == 0 {
        LoFinishX(s0, X, Y, base1, cursor1, cursor2, dest, len1);
        return if mg < 1 then 1 else mg;
      }
      if len1 == 1 {
        LoFinishY(s0, X, Y, base1, cursor1, cursor2, dest, len2);
        return if mg < 1 then 1 else mg;
      }

      var minGallop := mg;
      while true
        invariant LoCursors(a[..], tmp[..], tmpBase, s0, X, Y, base1, cursor1, cursor2, dest, len1, len2)
        invariant 1 < len1 && 0 < len2
        decreases len1 + len2
      {
        var broke;
        cursor1, cursor2, dest, len1, len2, broke :=
          LoOneAtATime(s0, X, Y, base1, cursor1, cursor2, dest, len1, len2, minGallop);
        if broke {
          break;
        }
        cursor1, cursor2, dest, len1, len2, minGallop, broke :=
          LoGalloping(s0, X, Y, base1, cursor1, cursor2, dest, len1, len2, minGallop);
        if broke {
          break;
        }
        if minGallop < 0 {
          minGallop := 0;
        }
        minGallop := minGallop + 2;  // leaving gallop mode costs
      }
      newMinGallop := if minGallop < 1 then 1 else minGallop;

      if len1 == 1 {
        LoFinishY(s0, X, Y, base1, cursor1, cursor2, dest, len2);
      } else if len1 == 0 {
        assert false;
      } else {
        LoFinishX(s0, X, Y, base1, cursor1, cursor2, dest, len1);
      }
    }

    /** The end of mergeLo when Y is used up: the rest of X is copied back from tmp. */
    method LoFinishX(ghost s0: seq<int>, ghost X: seq<int>, ghost Y: seq<int>, ghost base1: int,
                     cursor1: int, cursor2: int, dest: int, len1: int)
      requires a != tmp
      requires LoCursors(a[..], tmp[..], tmpBase, s0, X, Y, base1, cursor1, cursor2, dest, len1, 0)
      modifies a
      ensures MergedInPlace(a[..], s0, X, Y, base1)
    {
      ghost var A := a[..];
      ArrayCopy(tmp, cursor1, a, dest, len1);
      LoCursorsBlockX(A, a[..], tmp[..], tmpBase, s0, X, Y, base1, cursor1, cursor2, dest, len1, 0, len1);
      LoCursorsDone(a[..], tmp[..], tmpBase, s0, X, Y, base1, cursor1 + len1, cursor2, dest + len1);
    }

    /**
     * The end of mergeLo when one element of X is left: the rest of Y, all
     * below it, moves down, and the last element of X goes at the end.
     */
    method LoFinishY(ghost s0: seq<int>, ghost X: seq<int>, ghost Y: seq<int>, ghost base1: int,
                     cursor1: int, cursor2: int, dest: int, len2: int)
      requires a != tmp && Sorted(X) && Sorted(Y) && 0 < |X| && 0 < |Y| && Y[|Y| - 1] < X[|X| - 1]
      requires LoCursors(a[..], tmp[..], tmpBase, s0, X, Y, base1, cursor1, cursor2, dest, 1, len2)
      modifies a
      ensures MergedInPlace(a[..], s0, X, Y, base1)
    {
      LoCursorsSorted(a[..], tmp[..], tmpBase, s0, X, Y, base1, cursor1, cursor2, dest, 1, len2);
      ghost var A := a[..];
      ArrayCopy(a, cursor2, a, dest, len2);
      LoCursorsBlockY(A, a[..], tmp[..], tmpBase, s0, X, Y, base1, cursor1, cursor2, dest, 1, len2, len2);
      var c1, d, _ := LoMoveX(s0, X, Y, base1, cursor1, cursor2 + len2, dest + len2, 1, 0);
      LoCursorsDone(a[..], tmp[..], tmpBase, s0, X, Y, base1, c1, cursor2 + len2, d);
    }

    /**
     * The one-at-a-time phase of mergeLo: moves the smaller of the next
     * elements of X and Y, X's on ties, until one run has won minGallop
     * times in a row or a run is down to its last elements.
     */
    method LoOneAtATime(ghost s0: seq<int>, ghost X: seq<int>, ghost Y: seq<int>, ghost base1: int,
                        c1: int, c2: int, d: int, n1: int, n2: int, minGallop: int)
      returns (cursor1: int, cursor2: int, dest: int, len1: int, len2: int, broke: bool)
      requires a != tmp
      requires LoCursors(a[..], tmp[..], tmpBase, s0, X, Y, base1, c1, c2, d, n1, n2)
      requires 1 < n1 && 0 < n2
      modifies a
      ensures LoCursors(a[..], tmp[..], tmpBase, s0, X, Y, base1, cursor1, cursor2, dest, len1, len2)
      ensures len1 + len2 < n1 + n2
      ensures broke ==> (len1 == 1 && 0 < len2) || (1 < len1 && len2 == 0)
      ensures !broke ==> 1 < len1 && 0 < len2
    {
      cursor1, cursor2, dest, len1, len2 := c1, c2, d, n1, n2;
      var count1, count2 := 0, 0;
      while true
        invariant LoCursors(a[..], tmp[..], tmpBase, s0, X, Y, base1, cursor1, cursor2, dest, len1, len2)
        invariant 1 < len1 && 0 < len2 && len1 + len2 <= n1 + n2
        invariant count1 == 0 || count2 == 0
        decreases len1 + len2
      {
        if a[cursor2] < tmp[cursor1] {
          cursor2, dest, len2 := LoMoveY(s0, X, Y, base1, cursor1, cursor2, dest, len1, len2);
          count2, count1 := count2 + 1, 0;
          if len2 == 0 {
            broke := true;
            return;
          }
        } else {
          cursor1, dest, len1 := LoMoveX(s0, X, Y, base1, cursor1, cursor2, dest, len1, len2);
          count1, count2 := count1 + 1, 0;
          if len1 == 1 {
            broke := true;
            return;
          }
        }
        // One of the counts is zero, so count1 | count2 is their sum.
        if count1 + count2 >= minGallop {
          broke := false;
          return;
        }
      }
    }

    /**
     * The galloping phase of mergeLo: moves a block of X (as found by
     * gallopRight), one element of Y, a block of Y (as found by gallopLeft)
     * and one element of X, as long as one of the blocks has at least
     * MIN_GALLOP elements, lowering minGallop on each round.
     */
    method LoGalloping(ghost s0: seq<int>, ghost X: seq<int>, ghost Y: seq<int>, ghost base1: int,
                       c1: int, c2: int, d: int, n1: int, n2: int, mg: int)
      returns (cursor1: int, cursor2: int, dest: int, len1: int, len2: int, minGallop: int, broke: bool)
      requires a != tmp && a.Length <= INT_MAX && tmp.Length <= INT_MAX && Sorted(X) && Sorted(Y) && 0 < |X| && 0 < |Y| && Y[|Y| - 1] < X[|X| - 1]
      requires LoCursors(a[..], tmp[..], tmpBase, s0, X, Y, base1, c1, c2, d, n1, n2)
      requires 1 < n1 && 0 < n2
      modifies a
      ensures LoCursors(a[..], tmp[..], tmpBase, s0, X, Y, base1, cursor1, cursor2, dest, len1, len2)
      ensures len1 + len2 < n1 + n2
      ensures broke ==> (len1 == 1 && 0 < len2) || (1 < len1 && len2 == 0)
      ensures !broke ==> 1 < len1 && 0 < len2
    {
      cursor1, cursor2, dest, len1, len2, minGallop := c1, c2, d, n1, n2, mg;
      while true
        invariant LoCursors(a[..], tmp[..], tmpBase, s0, X, Y, base1, cursor1, cursor2, dest, len1, len2)
        invariant 1 < len1 && 0 < len2 && len1 + len2 <= n1 + n2
        decreases len1 + len2
      {
        var count1;
        cursor1, dest, len1, count1 := LoGallopX(s0, X, Y, base1, cursor1, cursor2, dest, len1, len2);
        if len1 <= 1 {
          broke := true;
          return;
        }
        cursor2, dest, len2 := LoMoveY(s0, X, Y, base1, cursor1, cursor2, dest, len1, len2);
        if len2 == 0 {
          broke := true;
          return;
        }

        var count2;
        cursor2, dest, len2, count2 := LoGallopY(s0, X, Y, base1, cursor1, cursor2, dest, len1, len2);
        if len2 == 0 {
          broke := true;
          return;
        }
        cursor1, dest, len1 := LoMoveX(s0, X, Y, base1, cursor1, cursor2, dest, len1, len2);
        if len1 == 1 {
          broke := true;
          return;
        }
        minGallop := minGallop - 1;
        if !(count1 >= MIN_GALLOP || count2 >= MIN_GALLOP) {
          broke := false;
          return;
        }
      }
    }

    /**
     * The first gallop of mergeLo's galloping phase: gallopRight finds how
     * many of the remaining elements of X are at most the next element of
     * Y, and that block is copied back from tmp. Since Y ends below X, not
     * all of X goes.
     */
    method LoGallopX(ghost s0: seq<int>, ghost X: seq<int>, ghost Y: seq<int>, ghost base1: int,
                     c1: int, cursor2: int, d: int, n1: int, len2: int)
      returns (cursor1: int, dest: int, len1: int, count1: int)
      requires a != tmp && a.Length <= INT_MAX && tmp.Length <= INT_MAX && Sorted(X) && Sorted(Y) && 0 < |X| && 0 < |Y| && Y[|Y| - 1] < X[|X| - 1]
      requires LoCursors(a[..], tmp[..], tmpBase, s0, X, Y, base1, c1, cursor2, d, n1, len2)
      requires 0 < n1 && 0 < len2
      modifies a
      ensures LoCursors(a[..], tmp[..], tmpBase, s0, X, Y, base1, cursor1, cursor2, dest, len1, len2)
      ensures 0 <= count1 < n1 && len1 == n1 - count1
      ensures 0 < len1 ==> a[cursor2] < tmp[cursor1]
    {
      ghost var A, T := a[..], tmp[..];
      LoCursorsSorted(A, T, tmpBase, s0, X, Y, base1, c1, cursor2, d, n1, len2);
      count1 := GallopRight(a[cursor2], tmp, c1, n1, 0);
      ArrayCopy(tmp, c1, a, d, count1);
      dest, cursor1, len1 := d + count1, c1 + count1, n1 - count1;
      assert tmp[..] == T;
      LoCursorsGallopX(A, a[..], T, tmpBase, s0, X, Y, base1, c1, cursor2, d, n1, len2, count1);
    }

    /**
     * The second gallop of mergeLo's galloping phase: gallopLeft finds how
     * many of the remaining elements of Y are below the next element of X,
     * and that block moves down.
     */
    method LoGallopY(ghost s0: seq<int>, ghost X: seq<int>, ghost Y: seq<int>, ghost base1: int,
                     cursor1: int, c2: int, d: int, len1: int, n2: int)
      returns (cursor2: int, dest: int, len2: int, count2: int)
      requires a != tmp && a.Length <= INT_MAX && tmp.Length <= INT_MAX && Sorted(X) && Sorted(Y)
      requires LoCursors(a[..], tmp[..], tmpBase, s0, X, Y, base1, cursor1, c2, d, len1, n2)
      requires 0 < len1 && 0 < n2
      modifies a
      ensures LoCursors(a[..], tmp[..], tmpBase, s0, X, Y, base1, cursor1, cursor2, dest, len1, len2)
      ensures 0 <= count2 <= n2 && len2 == n2 - count2
      ensures 0 < len2 ==> tmp[cursor1] <= a[cursor2]
    {
      ghost var A, T := a[..], tmp[..];
      LoCursorsSorted(A, T, tmpBase, s0, X, Y, base1, cursor1, c2, d, len1, n2);
      count2 := GallopLeft(tmp[cursor1], a, c2, n2, 0);
      ArrayCopy(a, c2, a, d, count2);
      dest, cursor2, len2 := d + count2, c2 + count2, n2 - count2;
      assert tmp[..] == T;
      LoCursorsGallopY(A, a[..], T, tmpBase, s0, X, Y, base1, cursor1, c2, d, len1, n2, count2);
    }

    /**
     * Merges the adjacent sorted runs X = a[base1..base2) and
     * Y = a[base2..base2 + len2) in place from the back, with Y copied to
     * tmp, when len1 >= len2. X must start above Y and end above all of Y,
     * as mergeAt arranges.
     */
    method MergeHi(base1: int, len1: int, base2: int, len2: int)
      requires Valid()
      requires 0 < len2 <= len1 && 0 <= base1 && base1 + len1 == base2 && base2 + len2 <= a.Length
      requires Sorted(a[base1..base2]) && Sorted(a[base2..base2 + len2])
      requires a[base2] < a[base1] && a[base2 + len2 - 1] < a[base2 - 1]
      modifies this, a, tmp
      ensures Valid()
      ensures stackSize == old(stackSize) && runBase == old(runBase) && runLen == old(runLen)
      ensures tmp == old(tmp) || fresh(tmp)
      ensures MergedInPlace(a[..], old(a[..]), old(a[base1..base2]), old(a[base2..base2 + len2]), base1)
    {
      ghost var s0 := a[..];
      ghost var X := a[base1..base2];
      ghost var Y := a[base2..base2 + len2];
      var tmp := EnsureCapacity(len2);
      ArrayCopy(a, base2, tmp, tmpBase, len2);
      assert a[..] == s0;
      HiCursorsStart(s0, tmp[..], tmpBase, X, Y, base1);
      assert |X| == len1 && |Y| == len2 && tmp[tmpBase + len2 - 1] == Y[len2 - 1];
      minGallop := HiMerge(s0, X, Y, base1, base1 + len1 - 1, tmpBase + len2 - 1, base2 + len2 - 1, len1, len2, minGallop);
    }

    /**
     * The merge proper of mergeHi, once Y is in tmp: the last element of X
     * goes last, then the one-at-a-time and galloping phases alternate
     * until a run is used up or Y is down to its first element, and the
     * rest is copied into place. Returns the adapted minGallop.
     */
    method HiMerge(ghost s0: seq<int>, ghost X: seq<int>, ghost Y: seq<int>, base1: int,
                   c1: int, c2: int, d: int, n1: int, n2: int, mg: int)
      returns (newMinGallop: int)
      requires a != tmp && a.Length <= INT_MAX && tmp.Length <= INT_MAX && Sorted(X) && Sorted(Y) && 0 < |X| && 0 < |Y| && Y[0] < X[0]
      requires HiCursors(a[..], tmp[..], tmpBase, s0, X, Y, base1, c1, c2, d, n1, n2)
      requires 0 < n1 && 0 < n2 && tmp[c2] < a[c1]
      modifies a
      ensures MergedInPlace(a[..], s0, X, Y, base1)
      ensures 1 <= newMinGallop
    {
      var cursor1, cursor2, dest, len1, len2 := c1, c2, d, n1, n2;
      cursor1, dest, len1 := HiMoveX(s0, X, Y, base1, cursor1, cursor2, dest, len1, len2);
      if len1 == 0 {
        HiFinishY(s0, X, Y, base1, cursor1, cursor2, dest, len2);
        return if mg < 1 then 1 else mg;
      }
      if len2 == 1 {
        HiFinishX(s0, X, Y, base1, cursor1, cursor2, dest, len1);
        return if mg < 1 then 1 else mg;
      }

      var minGallop := mg;
      while true
        invariant HiCursors(a[..], tmp[..], tmpBase, s0, X, Y, base1, cursor1, cursor2, dest, len1, len2)
        invariant 0 < len1 && 1 < len2
        decreases len1 + len2
      {
        var broke;
        cursor1, cursor2, dest, len1, len2, broke :=
          HiOneAtATime(s0, X, Y, base1, cursor1, cursor2, dest, len1, len2, minGallop);
        if broke {
          break;
        }
        cursor1, cursor2, dest, len1, len2, minGallop, broke :=
          HiGalloping(s0, X, Y, base1, cursor1, cursor2, dest, len1, len2, minGallop);
        if broke {
          break;
        }
        if minGallop < 0 {
          minGallop := 0;
        }
        minGallop := minGallop + 2;  // leaving gallop mode costs
      }
      newMinGallop := if minGallop < 1 then 1 else minGallop;

      if len2 == 1 {
        HiFinishX(s0, X, Y, base1, cursor1, cursor2, dest, len1);
      } else if len2 == 0 {
        assert false;
      } else {
        HiFinishY(s0, X, Y, base1, cursor1, cursor2, dest, len2);
      }
    }

    /** The end of mergeHi when X is used up: the rest of Y is copied back from tmp. */
    method HiFinishY(ghost s0: seq<int>, ghost X: seq<int>, ghost Y: seq<int>, ghost base1: int,
                     cursor1: int, cursor2: int, dest: int, len2: int)
      requires a != tmp && Sorted(X) && Sorted(Y)
      requires HiCursors(a[..], tmp[..], tmpBase, s0, X, Y, base1, cursor1, cursor2, dest, 0, len2)
      modifies a
      ensures MergedInPlace(a[..], s0, X, Y, base1)
    {
      ghost var A := a[..];
      ArrayCopy(tmp, tmpBase, a, dest - (len2 - 1), len2);
      HiCursorsBlockY(A, a[..], tmp[..], tmpBase, s0, X, Y, base1, cursor1, cursor2, dest, 0, len2, len2);
      HiCursorsDone(a[..], tmp[..], tmpBase, s0, X, Y, base1, cursor1, cursor2 - len2, dest - len2);
    }

    /**
     * The end of mergeHi when one element of Y is left: the rest of X, all
     * above it, moves up, and the first element of Y goes at the front.
     */
    method HiFinishX(ghost s0: seq<int>, ghost X: seq<int>, ghost Y: seq<int>, ghost base1: int,
                     c1: int, cursor2: int, d: int, len1: int)
      requires a != tmp && Sorted(X) && Sorted(Y) && 0 < |X| && 0 < |Y| && Y[0] < X[0]
      requires HiCursors(a[..], tmp[..], tmpBase, s0, X, Y, base1, c1, cursor2, d, len1, 1)
      modifies a
      ensures MergedInPlace(a[..], s0, X, Y, base1)
    {
      HiCursorsSorted(a[..], tmp[..], tmpBase, s0, X, Y, base1, c1, cursor2, d, len1, 1);
      ghost var A := a[..];
      var dest, cursor1 := d - len1, c1 - len1;
      ArrayCopy(a, cursor1 + 1, a, dest + 1, len1);
      HiCursorsBlockX(A, a[..], tmp[..], tmpBase, s0, X, Y, base1, c1, cursor2, d, len1, 1, len1);
      var c2, d2, _ := HiMoveY(s0, X, Y, base1, cursor1, cursor2, dest, 0, 1);
      HiCursorsDone(a[..], tmp[..], tmpBase, s0, X, Y, base1, cursor1, c2, d2);
    }

    /**
     * The one-at-a-time phase of mergeHi: moves the larger of the last
     * remaining elements of X and Y, Y's on ties, until one run has won
     * minGallop times in a row or a run is down to its last elements.
     */
    method HiOneAtATime(ghost s0: seq<int>, ghost X: seq<int>, ghost Y: seq<int>, ghost base1: int,
                        c1: int, c2: int, d: int, n1: int, n2: int, minGallop: int)
      returns (cursor1: int, cursor2: int, dest: int, len1: int, len2: int, broke: bool)
      requires a != tmp
      requires HiCursors(a[..], tmp[..], tmpBase, s0, X, Y, base1, c1, c2, d, n1, n2)
      requires 0 < n1 && 1 < n2
      modifies a
      ensures HiCursors(a[..], tmp[..], tmpBase, s0, X, Y, base1, cursor1, cursor2, dest, len1, len2)
      ensures len1 + len2 < n1 + n2
      ensures broke ==> (len1 == 0 && 1 < len2) || (0 < len1 && len2 == 1)
      ensures !broke ==> 0 < len1 && 1 < len2
    {
      cursor1, cursor2, dest, len1, len2 := c1, c2, d, n1, n2;
      var count1, count2 := 0, 0;
      while true
        invariant HiCursors(a[..], tmp[..], tmpBase, s0, X, Y, base1, cursor1, cursor2, dest, len1, len2)
        invariant 0 < len1 && 1 < len2 && len1 + len2 <= n1 + n2
        invariant count1 == 0 || count2 == 0
        decreases len1 + len2
      {
        if tmp[cursor2] < a[cursor1] {
          cursor1, dest, len1 := HiMoveX(s0, X, Y, base1, cursor1, cursor2, dest, len1, len2);
          count1, count2 := count1 + 1, 0;
          if len1 == 0 {
            broke := true;
            return;
          }
        } else {
          cursor2, dest, len2 := HiMoveY(s0, X, Y, base1, cursor1, cursor2, dest, len1, len2);
          count2, count1 := count2 + 1, 0;
          if len2 == 1 {
            broke := true;
            return;
          }
        }
        // One of the counts is zero, so count1 | count2 is their sum.
        if count1 + count2 >= minGallop {
          broke := false;
          return;
        }
      }
    }

    /**
     * The galloping phase of mergeHi: moves a block of X (as found by
     * gallopRight), one element of Y, a block of Y (as found by gallopLeft)
     * and one element of X, all from the back, as long as one of the blocks
     * has at least MIN_GALLOP elements, lowering minGallop on each round.
     */
    method HiGalloping(ghost s0: seq<int>, ghost X: seq<int>, ghost Y: seq<int>, base1: int,
                       c1: int, c2: int, d: int, n1: int, n2: int, mg: int)
      returns (cursor1: int, cursor2: int, dest: int, len1: int, len2: int, minGallop: int, broke: bool)
      requires a != tmp && a.Length <= INT_MAX && tmp.Length <= INT_MAX && Sorted(X) && Sorted(Y) && 0 < |X| && 0 < |Y| && Y[0] < X[0]
      requires HiCursors(a[..], tmp[..], tmpBase, s0, X, Y, base1, c1, c2, d, n1, n2)
      requires 0 < n1 && 1 < n2
      modifies a
      ensures HiCursors(a[..], tmp[..], tmpBase, s0, X, Y, base1, cursor1, cursor2, dest, len1, len2)
      ensures len1 + len2 < n1 + n2
      ensures broke ==> (len1 == 0 && 1 < len2) || (0 < len1 && len2 == 1)
      ensures !broke ==> 0 < len1 && 1 < len2
    {
      cursor1, cursor2, dest, len1, len2, minGallop := c1, c2, d, n1, n2, mg;
      while true
        invariant HiCursors(a[..], tmp[..], tmpBase, s0, X, Y, base1, cursor1, cursor2, dest, len1, len2)
        invariant 0 < len1 && 1 < len2 && len1 + len2 <= n1 + n2
        decreases len1 + len2
      {
        var count1;
        cursor1, dest, len1, count1 := HiGallopX(s0, X, Y, base1, cursor1, cursor2, dest, len1, len2);
        if len1 == 0 {
          broke := true;
          return;
        }
        cursor2, dest, len2 := HiMoveY(s0, X, Y, base1, cursor1, cursor2, dest, len1, len2);
        if len2 == 1 {
          broke := true;
          return;
        }

        var count2;
        cursor2, dest, len2, count2 := HiGallopY(s0, X, Y, base1, cursor1, cursor2, dest, len1, len2);
        if len2 <= 1 {
          broke := true;
          return;
        }
        cursor1, dest, len1 := HiMoveX(s0, X, Y, base1, cursor1, cursor2, dest, len1, len2);
        if len1 == 0 {
          broke := true;
          return;
        }
        minGallop := minGallop - 1;
        if !(count1 >= MIN_GALLOP || count2 >= MIN_GALLOP) {
          broke := false;
          return;
        }
      }
    }

    /**
     * The first gallop of mergeHi's galloping phase: gallopRight finds how
     * many of the remaining elements of X are above the last remaining
     * element of Y, and that block moves up.
     */
    method HiGallopX(ghost s0: seq<int>, ghost X: seq<int>, ghost Y: seq<int>, base1: int,
                     c1: int, cursor2: int, d: int, n1: int, len2: int)
      returns (cursor1: int, dest: int, len1: int, count1: int)
      requires a != tmp && a.Length <= INT_MAX && tmp.Length <= INT_MAX && Sorted(X) && Sorted(Y)
      requires HiCursors(a[..], tmp[..], tmpBase, s0, X, Y, base1, c1, cursor2, d, n1, len2)
      requires 0 < n1 && 0 < len2
      modifies a
      ensures HiCursors(a[..], tmp[..], tmpBase, s0, X, Y, base1, cursor1, cursor2, dest, len1, len2)
      ensures 0 <= count1 <= n1 && len1 == n1 - count1
      ensures 0 < len1 ==> a[cursor1] <= tmp[cursor2]
    {
      ghost var A, T := a[..], tmp[..];
      HiCursorsSorted(A, T, tmpBase, s0, X, Y, base1, c1, cursor2, d, n1, len2);
      count1 := GallopRight(tmp[cursor2], a, base1, n1, n1 - 1);
      count1 := n1 - count1;
      dest, cursor1, len1 := d - count1, c1 - count1, n1 - count1;
      ArrayCopy(a, cursor1 + 1, a, dest + 1, count1);
      assert tmp[..] == T;
      HiCursorsGallopX(A, a[..], T, tmpBase, s0, X, Y, base1, c1, cursor2, d, n1, len2, count1);
    }

    /**
     * The second gallop of mergeHi's galloping phase: gallopLeft finds how
     * many of the remaining elements of Y are at least the last remaining
     * element of X, and that block is copied back from tmp. Since Y starts
     * below X, not all of Y goes.
     */
    method HiGallopY(ghost s0: seq<int>, ghost X: seq<int>, ghost Y: seq<int>, ghost base1: int,
                     cursor1: int, c2: int, d: int, len1: int, n2: int)
      returns (cursor2: int, dest: int, len2: int, count2: int)
      requires a != tmp && a.Length <= INT_MAX && tmp.Length <= INT_MAX && Sorted(X) && Sorted(Y) && 0 < |X| && 0 < |Y| && Y[0] < X[0]
      requires HiCursors(a[..], tmp[..], tmpBase, s0, X, Y, base1, cursor1, c2, d, len1, n2)
      requires 0 < len1 && 0 < n2
      modifies a
      ensures HiCursors(a[..], tmp[..], tmpBase, s0, X, Y, base1, cursor1, cursor2, dest, len1, len2)
      ensures 0 <= count2 < n2 && len2 == n2 - count2
      ensures 0 < len2 ==> tmp[cursor2] < a[cursor1]
    {
      ghost var A, T := a[..], tmp[..];
      HiCursorsSorted(A, T, tmpBase, s0, X, Y, base1, cursor1, c2, d, len1, n2);
      count2 := GallopLeft(a[cursor1], tmp, tmpBase, n2, n2 - 1);
      count2 := n2 - count2;
      dest, cursor2, len2 := d - count2, c2 - count2, n2 - count2;
      ArrayCopy(tmp, cursor2 + 1, a, dest + 1, count2);
      assert tmp[..] == T;
      HiCursorsGallopY(A, a[..], T, tmpBase, s0, X, Y, base1, cursor1, c2, d, len1, n2, count2);
    }

    /** mergeLo's a[dest++] = a[cursor2++]: the next element of Y moves down. */
    method LoMoveY(ghost s0: seq<int>, ghost X: seq<int>, ghost Y: seq<int>, ghost base1: int,
                   cursor1: int, c2: int, d: int, len1: int, n2: int)
      returns (cursor2: int, dest: int, len2: int)
      requires a != tmp
      requires LoCursors(a[..], tmp[..], tmpBase, s0, X, Y, base1, cursor1, c2, d, len1, n2)
      requires 0 < n2 && (0 < len1 ==> a[c2] < tmp[cursor1])
      modifies a
      ensures LoCursors(a[..], tmp[..], tmpBase, s0, X, Y, base1, cursor1, cursor2, dest, len1, len2)
      ensures cursor2 == c2 + 1 && dest == d + 1 && len2 == n2 - 1
    {
      ghost var A, T := a[..], tmp[..];
      a[d] := a[c2];
      assert tmp[..] == T;
      LoCursorsStepY(A, a[..], tmp[..], tmpBase, s0, X, Y, base1, cursor1, c2, d, len1, n2);
      cursor2, dest, len2 := c2 + 1, d + 1, n2 - 1;
    }

    /** mergeLo's a[dest++] = tmp[cursor1++]: the next element of X comes back from tmp. */
    method LoMoveX(ghost s0: seq<int>, ghost X: seq<int>, ghost Y: seq<int>, ghost base1: int,
                   c1: int, cursor2: int, d: int, n1: int, len2: int)
      returns (cursor1: int, dest: int, len1: int)
      requires a != tmp
      requires LoCursors(a[..], tmp[..], tmpBase, s0, X, Y, base1, c1, cursor2, d, n1, len2)
      requires 0 < n1 && (0 < len2 ==> tmp[c1] <= a[cursor2])
      modifies a
      ensures LoCursors(a[..], tmp[..], tmpBase, s0, X, Y, base1, cursor1, cursor2, dest, len1, len2)
      ensures cursor1 == c1 + 1 && dest == d + 1 && len1 == n1 - 1
    {
      ghost var A, T := a[..], tmp[..];
      a[d] := tmp[c1];
      assert tmp[..] == T;
      LoCursorsStepX(A, a[..], tmp[..], tmpBase, s0, X, Y, base1, c1, cursor2, d, n1, len2);
      cursor1, dest, len1 := c1 + 1, d + 1, n1 - 1;
    }

    /** mergeHi's a[dest--] = a[cursor1--]: the last remaining element of X moves up. */
    method HiMoveX(ghost s0: seq<int>, ghost X: seq<int>, ghost Y: seq<int>, ghost base1: int,
                   c1: int, cursor2: int, d: int, n1: int, len2: int)
      returns (cursor1: int, dest: int, len1: int)
      requires a != tmp
      requires HiCursors(a[..], tmp[..], tmpBase, s0, X, Y, base1, c1, cursor2, d, n1, len2)
      requires 0 < n1 && (0 < len2 ==> tmp[cursor2] < a[c1])
      modifies a
      ensures HiCursors(a[..], tmp[..], tmpBase, s0, X, Y, base1, cursor1, cursor2, dest, len1, len2)
      ensures cursor1 == c1 - 1 && dest == d - 1 && len1 == n1 - 1
    {
      ghost var A, T := a[..], tmp[..];
      a[d] := a[c1];
      assert tmp[..] == T;
      HiCursorsStepX(A, a[..], tmp[..], tmpBase, s0, X, Y, base1, c1, cursor2, d, n1, len2);
      cursor1, dest, len1 := c1 - 1, d - 1, n1 - 1;
    }

    /** mergeHi's a[dest--] = tmp[cursor2--]: the last remaining element of Y comes back from tmp. */
    method HiMoveY(ghost s0: seq<int>, ghost X: seq<int>, ghost Y: seq<int>, ghost base1: int,
                   cursor1: int, c2: int, d: int, len1: int, n2: int)
      returns (cursor2: int, dest: int, len2: int)
      requires a != tmp
      requires HiCursors(a[..], tmp[..], tmpBase, s0, X, Y, base1, cursor1, c2, d, len1, n2)
      requires 0 < n2 && (0 < len1 ==> a[cursor1] <= tmp[c2])
      modifies a
      ensures HiCursors(a[..], tmp[..], tmpBase, s0, X, Y, base1, cursor1, cursor2, dest, len1, len2)
      ensures cursor2 == c2 - 1 && dest == d - 1 && len2 == n2 - 1
    {
      ghost var A, T := a[..], tmp[..];
      a[d] := tmp[c2];
      assert tmp[..] == T;
      HiCursorsStepY(A, a[..], tmp[..], tmpBase, s0, X, Y, base1, cursor1, c2, d, len1, n2);
      cursor2, dest, len2 := c2 - 1, d - 1, n2 - 1;
    }
  }
}
