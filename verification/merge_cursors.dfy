/**
 * The states of mergeLo and mergeHi in their own variables (the cursors
 * into the two runs, the write position dest and the remaining lengths),
 * with one lemma per move that takes the state before the move to the state
 * after it. The moves themselves are those of MergeState, restated on the
 * cursors so that the methods only ever see whole states.
 */
module MergeCursors {
  import opened SortSpec
  import opened MergeSpec
  import opened MergeState

  /**
   * The state of mergeLo: X, copied to T[tb..tb + |X|), and Y, still in
   * place after it, are merged into A from base1 on; len1 elements of X
   * remain from cursor1 in T, len2 of Y from cursor2 in A, and dest is where
   * the next element goes.
   */
  ghost predicate LoCursors(A: seq<int>, T: seq<int>, tb: int, s0: seq<int>, X: seq<int>, Y: seq<int>,
                            base1: int, cursor1: int, cursor2: int, dest: int, len1: int, len2: int)
  {
    && 0 <= tb && tb + |X| <= |T|
    && (forall q :: tb <= q < tb + |X| ==> T[q] == X[q - tb])
    && 0 <= len1 <= |X| && 0 <= len2 <= |Y|
    && cursor1 == tb + |X| - len1
    && cursor2 == base1 + |X| + |Y| - len2
    && dest == base1 + |X| - len1 + |Y| - len2
    && LoInv(A, s0, X, Y, base1, |X| - len1, |Y| - len2)
  }

  /** mergeLo's state once X is copied to T and nothing has moved. */
  lemma LoCursorsStart(s0: seq<int>, T: seq<int>, tb: int, X: seq<int>, Y: seq<int>, base1: int)
    requires 0 <= base1 && base1 + |X| + |Y| <= |s0|
    requires s0[base1 + |X|..base1 + |X| + |Y|] == Y
    requires 0 <= tb && tb + |X| <= |T| && forall q :: tb <= q < tb + |X| ==> T[q] == X[q - tb]
    ensures LoCursors(s0, T, tb, s0, X, Y, base1, tb, base1 + |X|, base1, |X|, |Y|)
  {
    LoStart(s0, X, Y, base1);
  }

  /** mergeLo moves A[cursor2], the next element of Y, below the next one of X. */
  lemma LoCursorsStepY(A: seq<int>, A': seq<int>, T: seq<int>, tb: int, s0: seq<int>, X: seq<int>, Y: seq<int>,
                       base1: int, c1: int, c2: int, d: int, l1: int, l2: int)
    requires LoCursors(A, T, tb, s0, X, Y, base1, c1, c2, d, l1, l2)
    requires 0 < l2 && (0 < l1 ==> A[c2] < T[c1])
    requires 0 <= d < |A| && 0 <= c2 < |A| && A' == A[d := A[c2]]
    ensures LoCursors(A', T, tb, s0, X, Y, base1, c1, c2 + 1, d + 1, l1, l2 - 1)
  {
    var i, j := |X| - l1, |Y| - l2;
    assert c2 == base1 + |X| + j && d == base1 + i + j;
    LoStepY(A, s0, X, Y, base1, i, j);
    assert A' == A[base1 + i + j := Y[j]];
  }

  /** mergeLo moves T[cursor1], the next element of X, which is at most the next one of Y. */
  lemma LoCursorsStepX(A: seq<int>, A': seq<int>, T: seq<int>, tb: int, s0: seq<int>, X: seq<int>, Y: seq<int>,
                       base1: int, c1: int, c2: int, d: int, l1: int, l2: int)
    requires LoCursors(A, T, tb, s0, X, Y, base1, c1, c2, d, l1, l2)
    requires 0 < l1 && (0 < l2 ==> T[c1] <= A[c2])
    requires 0 <= d < |A| && 0 <= c1 < |T| && A' == A[d := T[c1]]
    ensures LoCursors(A', T, tb, s0, X, Y, base1, c1 + 1, c2, d + 1, l1 - 1, l2)
  {
    var i, j := |X| - l1, |Y| - l2;
    assert d == base1 + i + j && T[c1] == X[i];
    LoStepX(A, s0, X, Y, base1, i, j, T[c1]);
  }

  /**
   * mergeLo copies the next k elements of X from T to dest, none of them
   * above the next element of Y.
   */
  lemma LoCursorsBlockX(A: seq<int>, A': seq<int>, T: seq<int>, tb: int, s0: seq<int>, X: seq<int>, Y: seq<int>,
                        base1: int, c1: int, c2: int, d: int, l1: int, l2: int, k: int)
    requires LoCursors(A, T, tb, s0, X, Y, base1, c1, c2, d, l1, l2)
    requires 0 <= k <= l1
    requires 0 < l2 ==> forall q :: c1 <= q < c1 + k ==> T[q] <= A[c2]
    requires |A'| == |A|
    requires forall p :: d <= p < d + k ==> A'[p] == T[c1 + p - d]
    requires forall p :: 0 <= p < |A| && !(d <= p < d + k) ==> A'[p] == A[p]
    ensures LoCursors(A', T, tb, s0, X, Y, base1, c1 + k, c2, d + k, l1 - k, l2)
  {
    var i, j := |X| - l1, |Y| - l2;
    if j < |Y| {
      forall t | i <= t < i + k ensures X[t] <= Y[j] {
        assert T[tb + t] == X[t];
      }
    }
    LoBlockX(A, A', T, tb, s0, X, Y, base1, i, j, k);
  }

  /**
   * mergeLo moves the next k elements of Y down to dest, each below the next
   * element of X.
   */
  lemma LoCursorsBlockY(A: seq<int>, A': seq<int>, T: seq<int>, tb: int, s0: seq<int>, X: seq<int>, Y: seq<int>,
                        base1: int, c1: int, c2: int, d: int, l1: int, l2: int, k: int)
    requires LoCursors(A, T, tb, s0, X, Y, base1, c1, c2, d, l1, l2)
    requires 0 <= k <= l2
    requires 0 < l1 ==> forall q :: c2 <= q < c2 + k ==> A[q] < T[c1]
    requires |A'| == |A|
    requires forall p :: d <= p < d + k ==> A'[p] == A[c2 + p - d]
    requires forall p :: 0 <= p < |A| && !(d <= p < d + k) ==> A'[p] == A[p]
    ensures LoCursors(A', T, tb, s0, X, Y, base1, c1, c2 + k, d + k, l1, l2 - k)
  {
    var i, j := |X| - l1, |Y| - l2;
    if i < |X| {
      forall t | j <= t < j + k ensures Y[t] < X[i] {
        assert A[base1 + |X| + t] == Y[t];
      }
    }
    LoBlockY(A, A', s0, X, Y, base1, i, j, k);
  }

  /**
   * mergeLo's first gallop: the first k remaining elements of X are at most
   * the next element of Y and the others above it, and those k are copied
   * from T to dest. When Y ends below X, not all of X goes.
   */
  lemma LoCursorsGallopX(A: seq<int>, A': seq<int>, T: seq<int>, tb: int, s0: seq<int>, X: seq<int>, Y: seq<int>,
                         base1: int, c1: int, c2: int, d: int, l1: int, l2: int, k: int)
    requires LoCursors(A, T, tb, s0, X, Y, base1, c1, c2, d, l1, l2)
    requires Sorted(X) && Sorted(Y) && 0 < |X| && 0 < |Y| && Y[|Y| - 1] < X[|X| - 1]
    requires 0 < l1 && 0 < l2 && 0 <= k <= l1
    requires forall q :: c1 <= q < c1 + k ==> T[q] <= A[c2]
    requires forall q :: c1 + k <= q < c1 + l1 ==> A[c2] < T[q]
    requires |A'| == |A|
    requires forall p :: d <= p < d + k ==> A'[p] == T[c1 + p - d]
    requires forall p :: 0 <= p < |A| && !(d <= p < d + k) ==> A'[p] == A[p]
    ensures k < l1 && A'[c2] < T[c1 + k]
    ensures LoCursors(A', T, tb, s0, X, Y, base1, c1 + k, c2, d + k, l1 - k, l2)
  {
    LoCursorsSorted(A, T, tb, s0, X, Y, base1, c1, c2, d, l1, l2);
    LoCursorsBlockX(A, A', T, tb, s0, X, Y, base1, c1, c2, d, l1, l2, k);
  }

  /**
   * mergeLo's second gallop: the first k remaining elements of Y are below
   * the next element of X and the others not, and those k move down to dest.
   */
  lemma LoCursorsGallopY(A: seq<int>, A': seq<int>, T: seq<int>, tb: int, s0: seq<int>, X: seq<int>, Y: seq<int>,
                         base1: int, c1: int, c2: int, d: int, l1: int, l2: int, k: int)
    requires LoCursors(A, T, tb, s0, X, Y, base1, c1, c2, d, l1, l2)
    requires 0 < l1 && 0 < l2 && 0 <= k <= l2
    requires forall q :: c2 <= q < c2 + k ==> A[q] < T[c1]
    requires forall q :: c2 + k <= q < c2 + l2 ==> T[c1] <= A[q]
    requires |A'| == |A|
    requires forall p :: d <= p < d + k ==> A'[p] == A[c2 + p - d]
    requires forall p :: 0 <= p < |A| && !(d <= p < d + k) ==> A'[p] == A[p]
    ensures k < l2 ==> T[c1] <= A'[c2 + k]
    ensures LoCursors(A', T, tb, s0, X, Y, base1, c1, c2 + k, d + k, l1, l2 - k)
  {
    LoCursorsBlockY(A, A', T, tb, s0, X, Y, base1, c1, c2, d, l1, l2, k);
  }

  /** Once mergeLo has nothing left of either run, the merge is in place. */
  lemma LoCursorsDone(A: seq<int>, T: seq<int>, tb: int, s0: seq<int>, X: seq<int>, Y: seq<int>,
                      base1: int, c1: int, c2: int, d: int)
    requires LoCursors(A, T, tb, s0, X, Y, base1, c1, c2, d, 0, 0)
    ensures MergedInPlace(A, s0, X, Y, base1)
  {
    LoDone(A, s0, X, Y, base1);
  }

  /**
   * What the gallops of mergeLo search is sorted: the rest of X in T and
   * the rest of Y in A. When Y ends below X, the next element of Y is below
   * the last of X.
   */
  lemma LoCursorsSorted(A: seq<int>, T: seq<int>, tb: int, s0: seq<int>, X: seq<int>, Y: seq<int>,
                        base1: int, c1: int, c2: int, d: int, l1: int, l2: int)
    requires LoCursors(A, T, tb, s0, X, Y, base1, c1, c2, d, l1, l2)
    requires Sorted(X) && Sorted(Y)
    ensures 0 <= c1 && c1 + l1 <= |T| && 0 <= c2 && c2 + l2 <= |A|
    ensures Sorted(T[c1..c1 + l1]) && Sorted(A[c2..c2 + l2])
    ensures 0 < l1 && 0 < l2 && Y[|Y| - 1] < X[|X| - 1] ==> A[c2] < T[c1 + l1 - 1]
    ensures l1 == 1 && 0 < |Y| && Y[|Y| - 1] < X[|X| - 1] ==> forall q :: c2 <= q < c2 + l2 ==> A[q] < T[c1]
  {
    CopySorted(T, tb, X, c1, c1 + l1);
    CopySorted(A, base1 + |X|, Y, c2, c2 + l2);
    if 0 < l1 && 0 < l2 {
      assert T[c1 + l1 - 1] == X[|X| - 1];
      assert A[c2] == Y[|Y| - l2] <= Y[|Y| - 1];
    }
    if l1 == 1 && 0 < |Y| && Y[|Y| - 1] < X[|X| - 1] {
      forall q | c2 <= q < c2 + l2 ensures A[q] < T[c1] {
        assert A[q] == Y[q - base1 - |X|] <= Y[|Y| - 1];
      }
    }
  }

  /**
   * The state of mergeHi: X, in place at base1, and Y, copied to
   * T[tb..tb + |Y|), are merged into A from the back; the first len1
   * elements of X remain, the last at cursor1 in A, the first len2 of Y, the
   * last at cursor2 in T, and dest is where the next element goes.
   */
  ghost predicate HiCursors(A: seq<int>, T: seq<int>, tb: int, s0: seq<int>, X: seq<int>, Y: seq<int>,
                            base1: int, cursor1: int, cursor2: int, dest: int, len1: int, len2: int)
  {
    && 0 <= tb && tb + |Y| <= |T|
    && (forall q :: tb <= q < tb + |Y| ==> T[q] == Y[q - tb])
    && 0 <= len1 <= |X| && 0 <= len2 <= |Y|
    && cursor1 == base1 + len1 - 1
    && cursor2 == tb + len2 - 1
    && dest == base1 + len1 + len2 - 1
    && HiInv(A, s0, X, Y, base1, len1, len2)
  }

  /** mergeHi's state once Y is copied to T and nothing has moved. */
  lemma HiCursorsStart(s0: seq<int>, T: seq<int>, tb: int, X: seq<int>, Y: seq<int>, base1: int)
    requires 0 <= base1 && base1 + |X| + |Y| <= |s0|
    requires s0[base1..base1 + |X|] == X
    requires 0 <= tb && tb + |Y| <= |T| && forall q :: tb <= q < tb + |Y| ==> T[q] == Y[q - tb]
    ensures HiCursors(s0, T, tb, s0, X, Y, base1, base1 + |X| - 1, tb + |Y| - 1, base1 + |X| + |Y| - 1, |X|, |Y|)
  {
    HiStart(s0, X, Y, base1);
  }

  /** mergeHi moves A[cursor1], the last remaining element of X, above the last one of Y. */
  lemma HiCursorsStepX(A: seq<int>, A': seq<int>, T: seq<int>, tb: int, s0: seq<int>, X: seq<int>, Y: seq<int>,
                       base1: int, c1: int, c2: int, d: int, l1: int, l2: int)
    requires HiCursors(A, T, tb, s0, X, Y, base1, c1, c2, d, l1, l2)
    requires 0 < l1 && (0 < l2 ==> T[c2] < A[c1])
    requires 0 <= d < |A| && 0 <= c1 < |A| && A' == A[d := A[c1]]
    ensures HiCursors(A', T, tb, s0, X, Y, base1, c1 - 1, c2, d - 1, l1 - 1, l2)
  {
    assert c1 == base1 + l1 - 1 && d == base1 + l1 + l2 - 1;
    HiStepX(A, s0, X, Y, base1, l1, l2);
    assert A' == A[base1 + l1 + l2 - 1 := X[l1 - 1]];
  }

  /** mergeHi moves T[cursor2], the last remaining element of Y, which is at least the last one of X. */
  lemma HiCursorsStepY(A: seq<int>, A': seq<int>, T: seq<int>, tb: int, s0: seq<int>, X: seq<int>, Y: seq<int>,
                       base1: int, c1: int, c2: int, d: int, l1: int, l2: int)
    requires HiCursors(A, T, tb, s0, X, Y, base1, c1, c2, d, l1, l2)
    requires 0 < l2 && (0 < l1 ==> A[c1] <= T[c2])
    requires 0 <= d < |A| && 0 <= c2 < |T| && A' == A[d := T[c2]]
    ensures HiCursors(A', T, tb, s0, X, Y, base1, c1, c2 - 1, d - 1, l1, l2 - 1)
  {
    assert d == base1 + l1 + l2 - 1 && T[c2] == Y[l2 - 1];
    HiStepY(A, s0, X, Y, base1, l1, l2, T[c2]);
  }

  /**
   * mergeHi moves the last k remaining elements of X up to end at dest, each
   * above the last remaining element of Y.
   */
  lemma HiCursorsBlockX(A: seq<int>, A': seq<int>, T: seq<int>, tb: int, s0: seq<int>, X: seq<int>, Y: seq<int>,
                        base1: int, c1: int, c2: int, d: int, l1: int, l2: int, k: int)
    requires HiCursors(A, T, tb, s0, X, Y, base1, c1, c2, d, l1, l2)
    requires 0 <= k <= l1
    requires 0 < l2 ==> forall q :: c1 - k < q <= c1 ==> T[c2] < A[q]
    requires |A'| == |A|
    requires forall p :: d - k < p <= d ==> A'[p] == A[p - l2]
    requires forall p :: 0 <= p < |A| && !(d - k < p <= d) ==> A'[p] == A[p]
    ensures HiCursors(A', T, tb, s0, X, Y, base1, c1 - k, c2, d - k, l1 - k, l2)
  {
    if 0 < l2 {
      forall t | l1 - k <= t < l1 ensures Y[l2 - 1] < X[t] {
        assert A[base1 + t] == X[t];
      }
    }
    HiBlockX(A, A', s0, X, Y, base1, l1, l2, k);
  }

  /**
   * mergeHi copies the last k remaining elements of Y from T to end at dest,
   * none of them below the last remaining element of X.
   */
  lemma HiCursorsBlockY(A: seq<int>, A': seq<int>, T: seq<int>, tb: int, s0: seq<int>, X: seq<int>, Y: seq<int>,
                        base1: int, c1: int, c2: int, d: int, l1: int, l2: int, k: int)
    requires HiCursors(A, T, tb, s0, X, Y, base1, c1, c2, d, l1, l2)
    requires 0 <= k <= l2
    requires 0 < l1 ==> forall q :: c2 - k < q <= c2 ==> A[c1] <= T[q]
    requires |A'| == |A|
    requires forall p :: d - k < p <= d ==> A'[p] == T[c2 + p - d]
    requires forall p :: 0 <= p < |A| && !(d - k < p <= d) ==> A'[p] == A[p]
    ensures HiCursors(A', T, tb, s0, X, Y, base1, c1, c2 - k, d - k, l1, l2 - k)
  {
    if 0 < l1 {
      forall t | l2 - k <= t < l2 ensures X[l1 - 1] <= Y[t] {
        assert T[tb + t] == Y[t];
      }
    }
    HiBlockY(A, A', T, tb, s0, X, Y, base1, l1, l2, k);
  }

  /**
   * mergeHi's first gallop: the last k remaining elements of X are above
   * the last remaining element of Y and the others not, and those k move up
   * to end at dest.
   */
  lemma HiCursorsGallopX(A: seq<int>, A': seq<int>, T: seq<int>, tb: int, s0: seq<int>, X: seq<int>, Y: seq<int>,
                         base1: int, c1: int, c2: int, d: int, l1: int, l2: int, k: int)
    requires HiCursors(A, T, tb, s0, X, Y, base1, c1, c2, d, l1, l2)
    requires 0 < l1 && 0 < l2 && 0 <= k <= l1
    requires forall q :: base1 <= q < base1 + l1 - k ==> A[q] <= T[c2]
    requires forall q :: base1 + l1 - k <= q < base1 + l1 ==> T[c2] < A[q]
    requires |A'| == |A|
    requires forall p :: d - k < p <= d ==> A'[p] == A[p - l2]
    requires forall p :: 0 <= p < |A| && !(d - k < p <= d) ==> A'[p] == A[p]
    ensures k < l1 ==> A'[c1 - k] <= T[c2]
    ensures HiCursors(A', T, tb, s0, X, Y, base1, c1 - k, c2, d - k, l1 - k, l2)
  {
    HiCursorsBlockX(A, A', T, tb, s0, X, Y, base1, c1, c2, d, l1, l2, k);
  }

  /**
   * mergeHi's second gallop: the last k remaining elements of Y are at
   * least the last remaining element of X and the others below it, and
   * those k are copied from T to end at dest. When Y starts below X, not all
   * of Y goes.
   */
  lemma HiCursorsGallopY(A: seq<int>, A': seq<int>, T: seq<int>, tb: int, s0: seq<int>, X: seq<int>, Y: seq<int>,
                         base1: int, c1: int, c2: int, d: int, l1: int, l2: int, k: int)
    requires HiCursors(A, T, tb, s0, X, Y, base1, c1, c2, d, l1, l2)
    requires Sorted(X) && Sorted(Y) && 0 < |X| && 0 < |Y| && Y[0] < X[0]
    requires 0 < l1 && 0 < l2 && 0 <= k <= l2
    requires forall q :: tb <= q < tb + l2 - k ==> T[q] < A[c1]
    requires forall q :: tb + l2 - k <= q < tb + l2 ==> A[c1] <= T[q]
    requires |A'| == |A|
    requires forall p :: d - k < p <= d ==> A'[p] == T[c2 + p - d]
    requires forall p :: 0 <= p < |A| && !(d - k < p <= d) ==> A'[p] == A[p]
    ensures k < l2 && T[c2 - k] < A'[c1]
    ensures HiCursors(A', T, tb, s0, X, Y, base1, c1, c2 - k, d - k, l1, l2 - k)
  {
    HiCursorsSorted(A, T, tb, s0, X, Y, base1, c1, c2, d, l1, l2);
    HiCursorsBlockY(A, A', T, tb, s0, X, Y, base1, c1, c2, d, l1, l2, k);
  }

  /** Once mergeHi has nothing left of either run, the merge is in place. */
  lemma HiCursorsDone(A: seq<int>, T: seq<int>, tb: int, s0: seq<int>, X: seq<int>, Y: seq<int>,
                      base1: int, c1: int, c2: int, d: int)
    requires HiCursors(A, T, tb, s0, X, Y, base1, c1, c2, d, 0, 0)
    requires Sorted(X) && Sorted(Y)
    ensures MergedInPlace(A, s0, X, Y, base1)
  {
    HiDone(A, s0, X, Y, base1);
  }

  /**
   * What the gallops of mergeHi search is sorted: the rest of X in A and
   * the rest of Y in T. When Y starts below X, the first element of Y is
   * below the last remaining one of X.
   */
  lemma HiCursorsSorted(A: seq<int>, T: seq<int>, tb: int, s0: seq<int>, X: seq<int>, Y: seq<int>,
                        base1: int, c1: int, c2: int, d: int, l1: int, l2: int)
    requires HiCursors(A, T, tb, s0, X, Y, base1, c1, c2, d, l1, l2)
    requires Sorted(X) && Sorted(Y)
    ensures 0 <= base1 && base1 + l1 <= |A| && tb + l2 <= |T|
    ensures Sorted(A[base1..base1 + l1]) && Sorted(T[tb..tb + l2])
    ensures 0 < l1 && 0 < l2 && Y[0] < X[0] ==> T[tb] < A[c1]
    ensures l2 == 1 && 0 < |X| && Y[0] < X[0] ==> forall q :: c1 - l1 < q <= c1 ==> T[c2] < A[q]
  {
    CopySorted(A, base1, X, base1, base1 + l1);
    CopySorted(T, tb, Y, tb, tb + l2);
    if 0 < l1 && 0 < l2 {
      assert T[tb] == Y[0];
      assert A[c1] == X[l1 - 1] >= X[0];
    }
    if l2 == 1 && 0 < |X| && Y[0] < X[0] {
      forall q | c1 - l1 < q <= c1 ensures T[c2] < A[q] {
        assert A[q] == X[q - base1] >= X[0];
      }
    }
  }
}
