/**
 * Runs: what countRunAndMakeAscending finds at the start of a range, as
 * functions on sequences, and the facts TimSort relies on about them.
 */
module RunSpec {
  import opened SortSpec

  /** Each element is strictly below every element before it. */
  ghost predicate StrictlyDescending(s: seq<int>) {
    forall i, j :: 0 <= i < j < |s| ==> s[j] < s[i]
  }

  /** The run starting at lo descends: its second element is below its first. */
  predicate StartsDescending(s: seq<int>, lo: int, hi: int)
    requires 0 <= lo < hi <= |s|
  {
    lo + 1 < hi && s[lo + 1] < s[lo]
  }

  /** End of the non-decreasing stretch of s[..hi) that already covers [j - 1, j). */
  function AscEnd(s: seq<int>, j: int, hi: int): (e: int)
    requires 1 <= j <= hi <= |s|
    ensures j <= e <= hi
    decreases hi - j
  {
    if j < hi && s[j] >= s[j - 1] then AscEnd(s, j + 1, hi) else j
  }

  /** End of the strictly descending stretch of s[..hi) that already covers [j - 1, j). */
  function DescEnd(s: seq<int>, j: int, hi: int): (e: int)
    requires 1 <= j <= hi <= |s|
    ensures j <= e <= hi
    decreases hi - j
  {
    if j < hi && s[j] < s[j - 1] then DescEnd(s, j + 1, hi) else j
  }

  /** End of the run that starts at lo in s[lo..hi). */
  function RunEnd(s: seq<int>, lo: int, hi: int): (e: int)
    requires 0 <= lo < hi <= |s|
    ensures lo < e <= hi
  {
    if lo + 1 == hi then hi
    else if s[lo + 1] < s[lo] then DescEnd(s, lo + 2, hi)
    else AscEnd(s, lo + 2, hi)
  }

  /** s once the run at lo has been made ascending: reversed if it descends. */
  function MadeAscending(s: seq<int>, lo: int, hi: int): (r: seq<int>)
    requires 0 <= lo < hi <= |s|
    ensures |r| == |s|
  {
    if StartsDescending(s, lo, hi) then ReversedRange(s, lo, RunEnd(s, lo, hi)) else s
  }

  lemma {:induction false} AscEndIsMaximal(s: seq<int>, lo: int, j: int, hi: int)
    requires 0 <= lo < j <= hi <= |s|
    requires forall x, y :: lo <= x < y < j ==> s[x] <= s[y]
    ensures var e := AscEnd(s, j, hi); Sorted(s[lo..e]) && (e < hi ==> s[e] < s[e - 1])
    decreases hi - j
  {
    if j < hi && s[j] >= s[j - 1] {
      AscEndIsMaximal(s, lo, j + 1, hi);
    } else {
      forall x, y | 0 <= x < y < j - lo ensures s[lo..j][x] <= s[lo..j][y] {
        assert s[lo + x] <= s[lo + y];
      }
    }
  }

  lemma {:induction false} DescEndIsMaximal(s: seq<int>, lo: int, j: int, hi: int)
    requires 0 <= lo < j <= hi <= |s|
    requires forall x, y :: lo <= x < y < j ==> s[y] < s[x]
    ensures var e := DescEnd(s, j, hi); StrictlyDescending(s[lo..e]) && (e < hi ==> s[e - 1] <= s[e])
    decreases hi - j
  {
    if j < hi && s[j] < s[j - 1] {
      DescEndIsMaximal(s, lo, j + 1, hi);
    } else {
      forall x, y | 0 <= x < y < j - lo ensures s[lo..j][y] < s[lo..j][x] {
        assert s[lo + y] < s[lo + x];
      }
    }
  }

  /**
   * The run at lo is the longest strictly descending stretch when its first
   * two elements descend, and the longest non-decreasing one otherwise.
   */
  lemma RunEndIsMaximal(s: seq<int>, lo: int, hi: int)
    requires 0 <= lo < hi <= |s|
    ensures var e := RunEnd(s, lo, hi);
      if StartsDescending(s, lo, hi) then
        && StrictlyDescending(s[lo..e])
        && (e < hi ==> s[e - 1] <= s[e])
      else
        && Sorted(s[lo..e])
        && (e < hi ==> s[e] < s[e - 1])
  {
    if lo + 1 == hi {
    } else if s[lo + 1] < s[lo] {
      DescEndIsMaximal(s, lo, lo + 2, hi);
    } else {
      AscEndIsMaximal(s, lo, lo + 2, hi);
    }
  }

  /**
   * Making the run ascending sorts it, keeps the elements of [lo, hi) and
   * moves nothing outside the run.
   */
  lemma MadeAscendingSortsRun(s: seq<int>, lo: int, hi: int)
    requires 0 <= lo < hi <= |s|
    ensures var r, e := MadeAscending(s, lo, hi), RunEnd(s, lo, hi);
      && Sorted(r[lo..e])
      && multiset(r[lo..hi]) == multiset(s[lo..hi])
      && r[..lo] == s[..lo] && r[e..] == s[e..]
      && PermutedWithin(r, s, lo, hi)
  {
    var e := RunEnd(s, lo, hi);
    RunEndIsMaximal(s, lo, hi);
    if StartsDescending(s, lo, hi) {
      var r := ReversedRange(s, lo, e);
      ReverseOfDescendingIsSorted(s[lo..e]);
      ReversedRangePermutes(s, lo, e);
      assert r[lo..e] == Reverse(s[lo..e]);
      PermuteInside(s, r, lo, e, lo, hi);
      SlicesPermuted(r, s, lo, hi);
    }
  }
}

/**
 * Binary insertion sort as functions on sequences: where binarySort puts
 * each pivot, and the array after inserting a range of pivots one by one.
 */
module InsertionSpec {
  import opened SortSpec

  /** How many of s[lo..i) are at most x. */
  function CountLe(s: seq<int>, lo: int, i: int, x: int): (c: int)
    requires 0 <= lo <= i <= |s|
    ensures 0 <= c <= i - lo
    decreases i - lo
  {
    if i == lo then 0 else CountLe(s, lo, i - 1, x) + (if s[i - 1] <= x then 1 else 0)
  }

  /** s with s[i] moved to position left and s[left..i) shifted one place up. */
  function Inserted(s: seq<int>, left: int, i: int): (t: seq<int>)
    requires 0 <= left <= i < |s|
    ensures |t| == |s|
  {
    s[..left] + [s[i]] + s[left..i] + s[i + 1..]
  }

  /**
   * The position binarySort gives the pivot s[i] in s[lo..i): after every
   * element that is at most the pivot.
   */
  function InsertionPoint(s: seq<int>, lo: int, i: int): (p: int)
    requires 0 <= lo <= i < |s|
    ensures lo <= p <= i
  {
    lo + CountLe(s, lo, i, s[i])
  }

  /**
   * s after binarySort's loop has inserted the pivots s[i..hi), one by one and
   * in order, into the sorted prefix that starts at lo.
   */
  function InsertionPass(s: seq<int>, lo: int, i: int, hi: int): (t: seq<int>)
    requires 0 <= lo < i && hi <= |s|
    ensures |t| == |s|
    decreases hi - i
  {
    if hi <= i then s
    else InsertionPass(Inserted(s, InsertionPoint(s, lo, i), i), lo, i + 1, hi)
  }

  /** What binarySort leaves in s when s[lo..start) is already sorted. */
  function BinarySorted(s: seq<int>, lo: int, hi: int, start: int): (t: seq<int>)
    requires 0 <= lo <= start <= hi <= |s|
    ensures |t| == |s|
  {
    InsertionPass(s, lo, if start == lo then start + 1 else start, hi)
  }

  /** The count of elements at most x is the boundary between those and the larger ones. */
  lemma {:induction false} CountLeUnique(s: seq<int>, lo: int, m: int, i: int, x: int)
    requires 0 <= lo <= m <= i <= |s|
    requires forall k :: lo <= k < m ==> s[k] <= x
    requires forall k :: m <= k < i ==> x < s[k]
    ensures CountLe(s, lo, i, x) == m - lo
    decreases i - lo
  {
    if i > m {
      CountLeUnique(s, lo, m, i - 1, x);
    } else if i > lo {
      CountLeUnique(s, lo, m - 1, i - 1, x);
    }
  }

  /** In a sorted range, the count splits it into elements at most x and larger ones. */
  lemma {:induction false} CountLeSplits(s: seq<int>, lo: int, i: int, x: int)
    requires 0 <= lo <= i <= |s|
    requires forall p, q :: lo <= p < q < i ==> s[p] <= s[q]
    ensures var m := lo + CountLe(s, lo, i, x);
      && (forall k :: lo <= k < m ==> s[k] <= x)
      && (forall k :: m <= k < i ==> x < s[k])
    decreases i - lo
  {
    if i > lo {
      CountLeSplits(s, lo, i - 1, x);
    }
  }

  /** A sequence that agrees pointwise with an insertion is that insertion. */
  lemma InsertedByIndex(t: seq<int>, s: seq<int>, left: int, i: int)
    requires 0 <= left <= i < |s| == |t|
    requires t[left] == s[i]
    requires forall k :: left < k <= i ==> t[k] == s[k - 1]
    requires forall k :: 0 <= k < |s| && !(left <= k <= i) ==> t[k] == s[k]
    ensures t == Inserted(s, left, i)
  {
    var r := Inserted(s, left, i);
    forall k | 0 <= k < |s| ensures t[k] == r[k] {
      if k < left {
        assert r[k] == s[..left][k];
      } else if k == left {
      } else if k <= i {
        assert r[k] == s[left..i][k - left - 1];
      } else {
        assert r[k] == s[i + 1..][k - i - 1];
      }
    }
  }

  /** Inserting s[i] at its place keeps s[lo..i + 1) sorted. */
  lemma InsertSorted(s: seq<int>, lo: int, left: int, i: int)
    requires 0 <= lo <= left <= i < |s|
    requires forall p, q :: lo <= p < q < i ==> s[p] <= s[q]
    requires forall k :: lo <= k < left ==> s[k] <= s[i]
    requires forall k :: left <= k < i ==> s[i] < s[k]
    ensures forall p, q :: lo <= p < q < i + 1 ==> Inserted(s, left, i)[p] <= Inserted(s, left, i)[q]
  {
    var t := Inserted(s, left, i);
    assert forall k :: lo <= k < left ==> t[k] == s[k] by {
      forall k | lo <= k < left ensures t[k] == s[k] {
        assert t[k] == s[..left][k];
      }
    }
    assert forall k :: left < k <= i ==> t[k] == s[k - 1] by {
      forall k | left < k <= i ensures t[k] == s[k - 1] {
        assert t[k] == s[left..i][k - left - 1];
      }
    }
  }

  /** Inserting s[i] at position left only permutes [lo, i + 1). */
  lemma InsertPermutes(s: seq<int>, lo: int, left: int, i: int)
    requires 0 <= lo <= left <= i < |s|
    ensures multiset(Inserted(s, left, i)[lo..i + 1]) == multiset(s[lo..i + 1])
    ensures Inserted(s, left, i)[..lo] == s[..lo] && Inserted(s, left, i)[i + 1..] == s[i + 1..]
  {
    var t := Inserted(s, left, i);
    assert t[left..i + 1] == [s[i]] + s[left..i];
    assert s[left..i + 1] == s[left..i] + [s[i]];
    assert t[..left] == s[..left];
    assert t[i + 1..] == s[i + 1..];
    PermuteInside(s, t, left, i + 1, lo, i + 1);
  }

  /** Inserting the pivots s[i..hi) into a sorted s[lo..i) leaves s[lo..hi) sorted. */
  lemma {:induction false} InsertionPassSorts(s: seq<int>, lo: int, i: int, hi: int)
    requires 0 <= lo < i <= hi <= |s|
    requires forall p, q :: lo <= p < q < i ==> s[p] <= s[q]
    ensures forall p, q :: lo <= p < q < hi ==> InsertionPass(s, lo, i, hi)[p] <= InsertionPass(s, lo, i, hi)[q]
    decreases hi - i
  {
    if i < hi {
      var left := InsertionPoint(s, lo, i);
      CountLeSplits(s, lo, i, s[i]);
      InsertSorted(s, lo, left, i);
      InsertionPassSorts(Inserted(s, left, i), lo, i + 1, hi);
    }
  }

  /**
   * Inserting the pivots s[i..hi) keeps the elements of s[lo..hi) and leaves
   * the rest of the sequence alone.
   */
  lemma {:induction false} InsertionPassPermutes(s: seq<int>, lo: int, i: int, hi: int)
    requires 0 <= lo < i <= hi <= |s|
    ensures multiset(InsertionPass(s, lo, i, hi)[lo..hi]) == multiset(s[lo..hi])
    ensures InsertionPass(s, lo, i, hi)[..lo] == s[..lo]
    ensures InsertionPass(s, lo, i, hi)[hi..] == s[hi..]
    decreases hi - i
  {
    if i < hi {
      var left := InsertionPoint(s, lo, i);
      var t := Inserted(s, left, i);
      InsertPermutes(s, lo, left, i);
      PermuteInside(s, t, lo, i + 1, lo, hi);
      InsertionPassPermutes(t, lo, i + 1, hi);
    }
  }

  /**
   * binarySort sorts a[lo..hi) when a[lo..start) is sorted, keeps its
   * elements, and changes nothing outside it.
   */
  lemma BinarySortedSorts(s: seq<int>, lo: int, hi: int, start: int)
    requires 0 <= lo <= start <= hi <= |s|
    requires Sorted(s[lo..start])
    ensures var t := BinarySorted(s, lo, hi, start);
      && Sorted(t[lo..hi])
      && multiset(t[lo..hi]) == multiset(s[lo..hi])
      && t[..lo] == s[..lo] && t[hi..] == s[hi..]
  {
    var from := if start == lo then start + 1 else start;
    if from <= hi {
      SortedSlice(s, lo, start);
      InsertionPassSorts(s, lo, from, hi);
      InsertionPassPermutes(s, lo, from, hi);
      var t := InsertionPass(s, lo, from, hi);
      forall p, q | 0 <= p < q < hi - lo ensures t[lo..hi][p] <= t[lo..hi][q] {
        assert t[lo + p] <= t[lo + q];
      }
    }
  }
}

/**
 * The static helpers of TimSortStrategy that find and prepare runs:
 * countRunAndMakeAscending, reverseRange and binarySort, plus the block copy
 * (System.arraycopy) the merges use.
 */
module TimSortRuns {
  import opened SortSpec
  import opened RunSpec
  import opened InsertionSpec

  /**
   * System.arraycopy over int arrays: the block is read first, as if through a
   * temporary array, so overlapping ranges of one array are handled.
   */
  method ArrayCopy(src: array<int>, srcPos: int, dest: array<int>, destPos: int, length: int)
    requires 0 <= length
    requires 0 <= srcPos && srcPos + length <= src.Length
    requires 0 <= destPos && destPos + length <= dest.Length
    modifies dest
    ensures forall k :: destPos <= k < destPos + length ==> dest[k] == old(src[srcPos + k - destPos])
    ensures forall k :: 0 <= k < dest.Length && !(destPos <= k < destPos + length) ==> dest[k] == old(dest[k])
  {
    var block := src[srcPos..srcPos + length];
    var i := 0;
    while i < length
      invariant 0 <= i <= length
      invariant forall k :: destPos <= k < destPos + i ==> dest[k] == block[k - destPos]
      invariant forall k :: 0 <= k < dest.Length && !(destPos <= k < destPos + i) ==> dest[k] == old(dest[k])
    {
      dest[destPos + i] := block[i];
      i := i + 1;
    }
  }

  /** Reverses a[lo..hi) in place. */
  method ReverseRange(a: array<int>, lo: int, hi: int)
    requires 0 <= lo <= hi <= a.Length
    modifies a
    ensures a[..] == ReversedRange(old(a[..]), lo, hi)
  {
    var i, j := lo, hi - 1;
    while i < j
      invariant lo <= i <= j + 1 <= hi && i + j == lo + hi - 1
      invariant forall k :: lo <= k < i || j < k < hi ==> a[k] == old(a[lo + hi - 1 - k])
      invariant forall k :: 0 <= k < a.Length && !(lo <= k < i || j < k < hi) ==> a[k] == old(a[k])
    {
      var t := a[i];
      a[i] := a[j];
      a[j] := t;
      i, j := i + 1, j - 1;
    }
    ReversedRangeByIndex(a[..], old(a[..]), lo, hi);
  }

  /**
   * Finds the run at a[lo..hi): the longest non-decreasing prefix, or the
   * longest strictly descending prefix, which is then reversed in place.
   */
  method CountRunAndMakeAscending(a: array<int>, lo: int, hi: int) returns (runLen: int)
    requires 0 <= lo < hi <= a.Length
    modifies a
    ensures runLen == RunEnd(old(a[..]), lo, hi) - lo
    ensures a[..] == MadeAscending(old(a[..]), lo, hi)
  {
    ghost var s := a[..];
    var runHi := lo + 1;
    if runHi == hi {
      return 1;
    }
    var descending := a[runHi] < a[lo];
    runHi := runHi + 1;
    if descending {
      while runHi < hi && a[runHi] < a[runHi - 1]
        invariant lo + 2 <= runHi <= hi
        invariant DescEnd(s, runHi, hi) == DescEnd(s, lo + 2, hi)
      {
        runHi := runHi + 1;
      }
      ReverseRange(a, lo, runHi);
    } else {
      while runHi < hi && a[runHi] >= a[runHi - 1]
        invariant lo + 2 <= runHi <= hi
        invariant AscEnd(s, runHi, hi) == AscEnd(s, lo + 2, hi)
      {
        runHi := runHi + 1;
      }
    }
    return runHi - lo;
  }

  /**
   * The switch in binarySort: moves a[left..left + n) one place up, with the
   * cases n == 2 and n == 1 written out and the rest left to arraycopy.
   */
  method ShiftUp(a: array<int>, left: int, n: int)
    requires 0 <= left && 0 <= n && left + n < a.Length
    modifies a
    ensures forall k :: left < k <= left + n ==> a[k] == old(a[k - 1])
    ensures forall k :: 0 <= k < a.Length && !(left < k <= left + n) ==> a[k] == old(a[k])
  {
    if n == 2 {
      a[left + 2] := a[left + 1];
      a[left + 1] := a[left];
    } else if n == 1 {
      a[left + 1] := a[left];
    } else {
      ArrayCopy(a, left, a, left + 1, n);
    }
  }

  /**
   * The binary search of binarySort: the place of the pivot a[i] in the
   * sorted a[lo..i), after every element equal to it.
   */
  method SearchInsertionPoint(a: array<int>, lo: int, i: int) returns (left: int)
    requires 0 <= lo <= i < a.Length
    requires Sorted(a[lo..i])
    ensures left == InsertionPoint(a[..], lo, i)
  {
    SortedSlice(a[..], lo, i);
    var pivot := a[i];
    left := lo;
    var right := i;
    while left < right
      invariant lo <= left <= right <= i
      invariant forall k :: lo <= k < left ==> a[k] <= pivot
      invariant forall k :: right <= k < i ==> pivot < a[k]
    {
      var mid := (left + right) / 2;
      if pivot < a[mid] {
        right := mid;
      } else {
        left := mid + 1;
      }
    }
    CountLeUnique(a[..], lo, left, i, pivot);
  }

  /**
   * One step of binarySort: the search for the place of the pivot a[i], the
   * shift that makes room and the store of the pivot.
   */
  method BinaryInsert(a: array<int>, lo: int, i: int)
    requires 0 <= lo <= i < a.Length
    requires Sorted(a[lo..i])
    modifies a
    ensures a[..] == Inserted(old(a[..]), InsertionPoint(old(a[..]), lo, i), i)
    ensures Sorted(a[lo..i + 1])
  {
    ghost var s := a[..];
    var pivot := a[i];
    var left := SearchInsertionPoint(a, lo, i);
    ShiftUp(a, left, i - left);
    a[left] := pivot;
    InsertedByIndex(a[..], s, left, i);
    SortedSlice(s, lo, i);
    CountLeSplits(s, lo, i, pivot);
    InsertSorted(s, lo, left, i);
    SortedSlice(a[..], lo, i + 1);
  }

  /**
   * Binary insertion sort of a[lo..hi), knowing that a[lo..start) is already
   * sorted. Each pivot goes after every element equal to it.
   */
  method BinarySort(a: array<int>, lo: int, hi: int, start: int)
    requires 0 <= lo <= start <= hi <= a.Length
    requires Sorted(a[lo..start])
    modifies a
    ensures a[..] == BinarySorted(old(a[..]), lo, hi, start)
  {
    ghost var s0 := a[..];
    ghost var cur := s0;
    var i := if start == lo then start + 1 else start;
    while i < hi
      invariant lo < i && a[..] == cur
      invariant i <= hi ==> Sorted(cur[lo..i])
      invariant InsertionPass(cur, lo, i, hi) == BinarySorted(s0, lo, hi, start)
    {
      BinaryInsert(a, lo, i);
      cur := a[..];
      i := i + 1;
    }
  }
}
