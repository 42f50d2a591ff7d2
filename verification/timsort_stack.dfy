/**
 * The stack of pending runs of TimSort, as the two sequences runBase and
 * runLen with one entry per run, bottom first: the runs tile a stretch of
 * the array, each of them is sorted, and after mergeCollapse their lengths
 * shrink towards the top faster than the Fibonacci numbers do.
 */
module TimSortStack {
  import opened SortSpec
  import opened MergeSpec
  import opened MergeState

  /** The runs are non-empty and tile [lo, hi) from the bottom of the stack up. */
  ghost predicate Tiles(runBase: seq<int>, runLen: seq<int>, lo: int, hi: int) {
    && |runBase| == |runLen|
    && (forall i :: 0 <= i < |runBase| ==> Tile(runBase, runLen, i))
    && (|runBase| == 0 ==> lo == hi)
    && (|runBase| > 0 ==> runBase[0] == lo && runBase[|runBase| - 1] + runLen[|runLen| - 1] == hi)
  }

  /** Run i of the stack is non-empty, and the run above it starts where it ends. */
  ghost predicate Tile(runBase: seq<int>, runLen: seq<int>, i: int) {
    && (0 <= i < |runLen| ==> 0 < runLen[i])
    && (0 <= i && i + 1 < |runBase| && i < |runLen| ==> runBase[i + 1] == runBase[i] + runLen[i])
  }

  /** Every run on the stack is in non-decreasing order in s. */
  ghost predicate RunsSorted(s: seq<int>, runBase: seq<int>, runLen: seq<int>) {
    forall i :: 0 <= i < |runBase| ==> RunSorted(s, runBase, runLen, i)
  }

  /** Run i of the stack, where it lies inside s, is in non-decreasing order there. */
  ghost predicate RunSorted(s: seq<int>, runBase: seq<int>, runLen: seq<int>, i: int) {
    (0 <= i < |runBase| && i < |runLen| && 0 <= runBase[i] <= runBase[i] + runLen[i] <= |s|)
      ==> Sorted(s[runBase[i]..runBase[i] + runLen[i]])
  }

  /**
   * The two-level length invariant that mergeCollapse restores: each run is
   * longer than the one above it, and longer than the two above it together.
   */
  ghost predicate Balanced(runLen: seq<int>) {
    forall i :: 0 <= i < |runLen| ==> BalancedAt(runLen, i)
  }

  /** The length invariant between run i and the runs just below it. */
  ghost predicate BalancedAt(runLen: seq<int>, i: int)
    requires 0 <= i < |runLen|
  {
    && (2 <= i ==> runLen[i - 2] > runLen[i - 1] + runLen[i])
    && (1 <= i ==> runLen[i - 1] > runLen[i])
  }

  /** runLen once runs i and i + 1 are merged: their entries become one. */
  function Collapsed(runLen: seq<int>, i: int): (r: seq<int>)
    requires 0 <= i < |runLen| - 1
    ensures |r| == |runLen| - 1
    ensures forall k :: 0 <= k < i ==> r[k] == runLen[k]
    ensures r[i] == runLen[i] + runLen[i + 1]
    ensures forall k :: i < k < |r| ==> r[k] == runLen[k + 1]
  {
    runLen[..i] + [runLen[i] + runLen[i + 1]] + runLen[i + 2..]
  }

  /** runBase once runs i - 1 and i are merged: the entry of run i goes. */
  function Removed(runBase: seq<int>, i: int): (r: seq<int>)
    requires 0 <= i < |runBase|
    ensures |r| == |runBase| - 1
    ensures forall k :: 0 <= k < i ==> r[k] == runBase[k]
    ensures forall k :: i <= k < |r| ==> r[k] == runBase[k + 1]
  {
    runBase[..i] + runBase[i + 1..]
  }

  /** On a tiling stack every run lies inside [lo, hi) and below the runs above it. */
  lemma {:induction false} TilesOrdered(runBase: seq<int>, runLen: seq<int>, lo: int, hi: int, k: int, m: int)
    requires Tiles(runBase, runLen, lo, hi)
    requires 0 <= k < m < |runBase|
    ensures runBase[k] + runLen[k] <= runBase[m]
    decreases m - k
  {
    assert Tile(runBase, runLen, k);
    if k + 1 < m {
      assert Tile(runBase, runLen, k + 1);
      TilesOrdered(runBase, runLen, lo, hi, k + 1, m);
    }
  }

  /** Every run of a tiling stack lies inside the tiled range. */
  lemma TilesInside(runBase: seq<int>, runLen: seq<int>, lo: int, hi: int, k: int)
    requires Tiles(runBase, runLen, lo, hi)
    requires 0 <= k < |runBase|
    ensures lo <= runBase[k] && runBase[k] + runLen[k] <= hi
  {
    var m := |runBase| - 1;
    assert Tile(runBase, runLen, 0) && Tile(runBase, runLen, m);
    if 0 < k {
      TilesOrdered(runBase, runLen, lo, hi, 0, k);
    }
    if k < m {
      TilesOrdered(runBase, runLen, lo, hi, k, m);
    }
  }

  /** pushRun of the run [mid, hi) onto a stack tiling [lo, mid). */
  lemma PushTiles(runBase: seq<int>, runLen: seq<int>, lo: int, mid: int, hi: int)
    requires Tiles(runBase, runLen, lo, mid) && mid < hi
    ensures Tiles(runBase + [mid], runLen + [hi - mid], lo, hi)
  {
    var b, l := runBase + [mid], runLen + [hi - mid];
    forall i | 0 <= i < |b| ensures Tile(b, l, i) {
      if i < |runBase| {
        assert Tile(runBase, runLen, i);
      }
    }
  }

  /**
   * Merging runs i and i + 1 keeps the tiling; the merged run starts where
   * run i did and is as long as both.
   */
  lemma CollapsedTiles(runBase: seq<int>, runLen: seq<int>, lo: int, hi: int, i: int)
    requires Tiles(runBase, runLen, lo, hi)
    requires 0 <= i < |runBase| - 1
    ensures Tiles(Removed(runBase, i + 1), Collapsed(runLen, i), lo, hi)
    ensures Removed(runBase, i + 1)[i] == runBase[i]
    ensures Collapsed(runLen, i)[i] == runLen[i] + runLen[i + 1]
  {
    var b, l := Removed(runBase, i + 1), Collapsed(runLen, i);
    assert Tile(runBase, runLen, i) && Tile(runBase, runLen, i + 1);
    forall k | 0 <= k < |b| ensures Tile(b, l, k) {
      if k < i {
        assert Tile(runBase, runLen, k);
      } else if k > i {
        assert Tile(runBase, runLen, k + 1);
      }
    }
  }

  /** A pushed run sorted in s joins a stack whose runs are sorted in s. */
  lemma PushRunsSorted(s: seq<int>, runBase: seq<int>, runLen: seq<int>, mid: int, hi: int)
    requires RunsSorted(s, runBase, runLen) && |runBase| == |runLen|
    requires 0 <= mid <= hi <= |s| && Sorted(s[mid..hi])
    ensures RunsSorted(s, runBase + [mid], runLen + [hi - mid])
  {
    var b, l := runBase + [mid], runLen + [hi - mid];
    forall i | 0 <= i < |b| ensures RunSorted(s, b, l, i) {
      if i < |runBase| {
        assert RunSorted(s, runBase, runLen, i);
        assert b[i] == runBase[i] && l[i] == runLen[i];
      }
    }
  }

  /**
   * Pushing the next run [lo, lo + len) onto a stack of sorted runs tiling
   * [lo0, lo): s2 is s1 once that run was made ascending and sorted, which
   * touched nothing below lo, so the new stack tiles [lo0, lo + len) with
   * sorted runs, and [lo0, hi) still holds the elements it held in s0.
   */
  lemma PushedRun(s1: seq<int>, s2: seq<int>, runBase: seq<int>, runLen: seq<int>,
                  lo0: int, lo: int, len: int, hi: int)
    requires Tiles(runBase, runLen, lo0, lo) && RunsSorted(s1, runBase, runLen)
    requires 0 <= lo0 <= lo && 0 < len && lo + len <= hi
    requires PermutedWithin(s2, s1, lo, hi) && Sorted(s2[lo..lo + len])
    ensures Tiles(runBase + [lo], runLen + [len], lo0, lo + len)
    ensures RunsSorted(s2, runBase + [lo], runLen + [len])
    ensures (runLen + [len])[..|runLen|] == runLen
  {
    PermutedSlices(s2, s1, lo, hi);
    RunsSortedFrame(s1, s2, runBase, runLen, lo0, lo);
    PushTiles(runBase, runLen, lo0, lo, lo + len);
    PushRunsSorted(s2, runBase, runLen, lo, lo + len);
  }

  /**
   * Changing s only at or above mid keeps sorted the runs of a stack that
   * tiles [lo, mid).
   */
  lemma RunsSortedFrame(s: seq<int>, s': seq<int>, runBase: seq<int>, runLen: seq<int>, lo: int, mid: int)
    requires Tiles(runBase, runLen, lo, mid) && RunsSorted(s, runBase, runLen)
    requires 0 <= lo <= mid <= |s| == |s'| && s'[..mid] == s[..mid]
    ensures RunsSorted(s', runBase, runLen)
  {
    forall i | 0 <= i < |runBase| ensures RunSorted(s', runBase, runLen, i) {
      TilesInside(runBase, runLen, lo, mid, i);
      assert Tile(runBase, runLen, i);
      var b, e := runBase[i], runBase[i] + runLen[i];
      assert RunSorted(s, runBase, runLen, i);
      SliceBelow(s', s, b, e, mid);
    }
  }

  /**
   * After mergeAt(i) rewrote only the positions of runs i and i + 1, in order,
   * every run of the new stack is sorted.
   */
  lemma CollapsedRunsSorted(s: seq<int>, s': seq<int>, runBase: seq<int>, runLen: seq<int>, lo: int, hi: int, i: int)
    requires Tiles(runBase, runLen, lo, hi) && RunsSorted(s, runBase, runLen)
    requires 0 <= i < |runBase| - 1
    requires 0 <= runBase[i] <= runBase[i] + runLen[i] <= runBase[i] + runLen[i] + runLen[i + 1] <= |s| == |s'|
    requires var b, e := runBase[i], runBase[i] + runLen[i] + runLen[i + 1];
      s'[..b] == s[..b] && s'[e..] == s[e..] && Sorted(s'[b..e])
    ensures RunsSorted(s', Removed(runBase, i + 1), Collapsed(runLen, i))
  {
    var b, l := Removed(runBase, i + 1), Collapsed(runLen, i);
    var b1, e := runBase[i], runBase[i] + runLen[i] + runLen[i + 1];
    assert Tile(runBase, runLen, i) && Tile(runBase, runLen, i + 1);
    forall k | 0 <= k < |b| ensures RunSorted(s', b, l, k) {
      var x, y := b[k], b[k] + l[k];
      if !(0 <= x <= y <= |s'|) {
      } else if k < i {
        assert x == runBase[k] && y == runBase[k] + runLen[k];
        TilesOrdered(runBase, runLen, lo, hi, k, i);
        SliceBelow(s', s, x, y, b1);
        assert RunSorted(s, runBase, runLen, k);
      } else if k == i {
        assert x == b1 && y == e;
      } else {
        assert x == runBase[k + 1] && y == runBase[k + 1] + runLen[k + 1];
        TilesOrdered(runBase, runLen, lo, hi, i + 1, k + 1);
        SliceAbove(s', s, x, y, e);
        assert RunSorted(s, runBase, runLen, k + 1);
      }
    }
  }

  /** With a single run left, the tiled range is sorted. */
  lemma SingleRunSorted(s: seq<int>, runBase: seq<int>, runLen: seq<int>, lo: int, hi: int)
    requires Tiles(runBase, runLen, lo, hi) && |runBase| == 1 && RunsSorted(s, runBase, runLen)
    requires 0 <= lo <= hi <= |s|
    ensures Sorted(s[lo..hi])
  {
    assert runBase[0] == lo && runBase[0] + runLen[0] == hi;
    assert RunSorted(s, runBase, runLen, 0);
  }

  /** The invariant holds for every bottom part of a stack it holds for. */
  lemma BalancedPrefix(runLen: seq<int>, k: int)
    requires Balanced(runLen) && 0 <= k <= |runLen|
    ensures Balanced(runLen[..k])
  {
    var r := runLen[..k];
    forall i | 0 <= i < k ensures BalancedAt(r, i) {
      assert BalancedAt(runLen, i);
    }
  }

  /** Merging one of the top runs leaves the entries below it as they were. */
  lemma CollapsedBelowTop(runLen: seq<int>, i: int)
    requires 3 <= |runLen| && (i == |runLen| - 2 || i == |runLen| - 3)
    ensures Collapsed(runLen, i)[..i] == runLen[..i]
    ensures Balanced(runLen[..|runLen| - 2]) ==> Balanced(Collapsed(runLen, i)[..|runLen| - 3])
  {
    var r := Collapsed(runLen, i);
    assert r[..|runLen| - 3] == runLen[..|runLen| - 2][..|runLen| - 3];
    if Balanced(runLen[..|runLen| - 2]) {
      BalancedPrefix(runLen[..|runLen| - 2], |runLen| - 3);
    }
  }

  /**
   * mergeCollapse stops when neither of its merge conditions holds and the
   * top run is shorter than the one below it; with the invariant already
   * holding below the top two runs, it then holds for the whole stack.
   */
  lemma BalancedAtTop(runLen: seq<int>)
    requires 2 <= |runLen| && 0 < runLen[|runLen| - 1]
    requires Balanced(runLen[..|runLen| - 2])
    requires var n := |runLen| - 2;
      && (n > 0 ==> runLen[n - 1] > runLen[n] + runLen[n + 1])
      && (n > 1 ==> runLen[n - 2] > runLen[n] + runLen[n - 1])
      && runLen[n] > runLen[n + 1]
    ensures Balanced(runLen)
  {
    var n := |runLen| - 2;
    var low := runLen[..n];
    forall i | 0 <= i < |runLen| ensures BalancedAt(runLen, i) {
      if i < n {
        assert BalancedAt(low, i);
      }
    }
  }
  /**
   * What mergeAt(i) needs of runs i and i + 1 of a tiling stack of sorted
   * runs: they are adjacent, inside the tiled range and sorted, and merging
   * their entries keeps the tiling.
   */
  lemma MergeableRuns(s: seq<int>, runBase: seq<int>, runLen: seq<int>, lo: int, hi: int, i: int)
    requires Tiles(runBase, runLen, lo, hi) && RunsSorted(s, runBase, runLen)
    requires 0 <= lo && hi <= |s| && 0 <= i < |runBase| - 1
    ensures 0 <= runBase[i] && runBase[i] + runLen[i] == runBase[i + 1] && runBase[i + 1] + runLen[i + 1] <= |s|
    ensures 0 < runLen[i] && 0 < runLen[i + 1]
    ensures Sorted(s[runBase[i]..runBase[i + 1]]) && Sorted(s[runBase[i + 1]..runBase[i + 1] + runLen[i + 1]])
    ensures Tiles(Removed(runBase, i + 1), Collapsed(runLen, i), lo, hi)
  {
    TilesInside(runBase, runLen, lo, hi, i);
    TilesInside(runBase, runLen, lo, hi, i + 1);
    assert Tile(runBase, runLen, i) && Tile(runBase, runLen, i + 1);
    assert RunSorted(s, runBase, runLen, i) && RunSorted(s, runBase, runLen, i + 1);
    CollapsedTiles(runBase, runLen, lo, hi, i);
  }

  /**
   * Once mergeAt(i) has merged runs i and i + 1 in place, every run of the
   * collapsed stack is sorted and the tiled range keeps its elements.
   */
  lemma MergedRunsSorted(A: seq<int>, s0: seq<int>, runBase: seq<int>, runLen: seq<int>, lo: int, hi: int, i: int)
    requires Tiles(runBase, runLen, lo, hi) && RunsSorted(s0, runBase, runLen)
    requires 0 <= lo && hi <= |s0| && 0 <= i < |runBase| - 1
    requires 0 <= runBase[i] <= runBase[i + 1] <= runBase[i + 1] + runLen[i + 1] <= |s0|
    requires MergedInPlace(A, s0, s0[runBase[i]..runBase[i + 1]], s0[runBase[i + 1]..runBase[i + 1] + runLen[i + 1]], runBase[i])
    ensures RunsSorted(A, Removed(runBase, i + 1), Collapsed(runLen, i))
    ensures PermutedWithin(A, s0, lo, hi)
  {
    var b1, b2, e := runBase[i], runBase[i + 1], runBase[i + 1] + runLen[i + 1];
    var X, Y := s0[b1..b2], s0[b2..e];
    assert Tile(runBase, runLen, i) && Tile(runBase, runLen, i + 1);
    TilesInside(runBase, runLen, lo, hi, i);
    TilesInside(runBase, runLen, lo, hi, i + 1);
    assert RunSorted(s0, runBase, runLen, i) && RunSorted(s0, runBase, runLen, i + 1);
    MergedInPlaceFacts(A, s0, X, Y, b1);
    SortedSlice(A, b1, e);
    CollapsedRunsSorted(s0, A, runBase, runLen, lo, hi, i);
    PermutedWiden(A, s0, b1, e, lo, hi);
  }
}
