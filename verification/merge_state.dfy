/**
 * The state of an in-place merge of the adjacent runs X = a[base1..base2)
 * and Y = a[base2..base2 + |Y|), as mergeLo and mergeHi keep it, stated on
 * the array's contents A, with one lemma per kind of move they make.
 *
 * mergeLo (LoInv) has consumed the first i elements of X, which it reads
 * from its copy in tmp, and the first j elements of Y, which it reads in
 * place; what it has written so far, at a[base1..base1 + i + j), is the
 * front of the merge, and what is left of the merge is MergeFrom(X, Y, i, j).
 * mergeHi (HiInv) works from the back: i elements of X and j of Y remain,
 * X's still in place, and what it has written, at
 * a[base1 + i + j..base2 + |Y|), is the back of the merge, whose front is
 * MergeBack(X, Y, i, j).
 */
module MergeState {
  import opened SortSpec
  import opened MergeSpec

  ghost predicate LoInv(A: seq<int>, s0: seq<int>, X: seq<int>, Y: seq<int>, base1: int, i: int, j: int) {
    && |A| == |s0| && 0 <= base1 && base1 + |X| + |Y| <= |A|
    && 0 <= i <= |X| && 0 <= j <= |Y|
    && Merge(X, Y)[i + j..] == MergeFrom(X, Y, i, j)
    && (forall p :: 0 <= p < |A| && !(base1 <= p < base1 + |X| + |Y|) ==> A[p] == s0[p])
    && (forall p :: base1 <= p < base1 + i + j ==> A[p] == Merge(X, Y)[p - base1])
    && (forall p :: base1 + |X| + j <= p < base1 + |X| + |Y| ==> A[p] == Y[p - base1 - |X|])
  }

  ghost predicate HiInv(A: seq<int>, s0: seq<int>, X: seq<int>, Y: seq<int>, base1: int, i: int, j: int) {
    && |A| == |s0| && 0 <= base1 && base1 + |X| + |Y| <= |A|
    && 0 <= i <= |X| && 0 <= j <= |Y|
    && MergeBack(X, Y, |X|, |Y|)[..i + j] == MergeBack(X, Y, i, j)
    && (forall p :: 0 <= p < |A| && !(base1 <= p < base1 + |X| + |Y|) ==> A[p] == s0[p])
    && (forall p :: base1 <= p < base1 + i ==> A[p] == X[p - base1])
    && (forall p :: base1 + i + j <= p < base1 + |X| + |Y| ==> A[p] == MergeBack(X, Y, |X|, |Y|)[p - base1])
  }

  /** An index into three concatenated sequences lands in one of them. */
  lemma Index3(a: seq<int>, b: seq<int>, c: seq<int>, p: int)
    requires 0 <= p < |a| + |b| + |c|
    ensures (a + b + c)[p] == if p < |a| then a[p] else if p < |a| + |b| then b[p - |a|] else c[p - |a| - |b|]
  {
  }

  /** A with the two runs X and Y merged in place, the rest as in s0. */
  ghost predicate MergedInPlace(A: seq<int>, s0: seq<int>, X: seq<int>, Y: seq<int>, base1: int)
    requires 0 <= base1 && base1 + |X| + |Y| <= |s0|
  {
    A == s0[..base1] + Merge(X, Y) + s0[base1 + |X| + |Y|..]
  }

  /** Before mergeLo moves anything. */
  lemma LoStart(s0: seq<int>, X: seq<int>, Y: seq<int>, base1: int)
    requires 0 <= base1 && base1 + |X| + |Y| <= |s0|
    requires s0[base1 + |X|..base1 + |X| + |Y|] == Y
    ensures LoInv(s0, s0, X, Y, base1, 0, 0)
  {
    forall p | base1 + |X| <= p < base1 + |X| + |Y| ensures s0[p] == Y[p - base1 - |X|] {
      assert s0[p] == s0[base1 + |X|..base1 + |X| + |Y|][p - base1 - |X|];
    }
  }

  /** mergeLo moves the next element of Y, which is below the next one of X. */
  lemma LoStepY(A: seq<int>, s0: seq<int>, X: seq<int>, Y: seq<int>, base1: int, i: int, j: int)
    requires LoInv(A, s0, X, Y, base1, i, j)
    requires j < |Y| && (i < |X| ==> Y[j] < X[i])
    ensures A[base1 + |X| + j] == Y[j]
    ensures LoInv(A[base1 + i + j := Y[j]], s0, X, Y, base1, i, j + 1)
  {
    var M := Merge(X, Y);
    assert MergeFrom(X, Y, i, j) == [Y[j]] + MergeFrom(X, Y, i, j + 1);
    assert M[i + j] == M[i + j..][0];
    assert M[i + j + 1..] == M[i + j..][1..];
  }

  /** mergeLo moves the next element x of X, which is at most the next one of Y. */
  lemma LoStepX(A: seq<int>, s0: seq<int>, X: seq<int>, Y: seq<int>, base1: int, i: int, j: int, x: int)
    requires LoInv(A, s0, X, Y, base1, i, j)
    requires i < |X| && x == X[i] && (j < |Y| ==> X[i] <= Y[j])
    ensures LoInv(A[base1 + i + j := x], s0, X, Y, base1, i + 1, j)
  {
    var M := Merge(X, Y);
    assert MergeFrom(X, Y, i, j) == [X[i]] + MergeFrom(X, Y, i + 1, j);
    assert M[i + j] == M[i + j..][0];
    assert M[i + j + 1..] == M[i + j..][1..];
  }

  /**
   * mergeLo copies the next k elements of X from its copy T[tb..tb + |X|),
   * none of them above the next element of Y.
   */
  lemma LoBlockX(A: seq<int>, A': seq<int>, T: seq<int>, tb: int, s0: seq<int>, X: seq<int>, Y: seq<int>,
                 base1: int, i: int, j: int, k: int)
    requires LoInv(A, s0, X, Y, base1, i, j)
    requires 0 <= tb && tb + |X| <= |T| && forall q :: tb <= q < tb + |X| ==> T[q] == X[q - tb]
    requires 0 <= k && i + k <= |X|
    requires j < |Y| ==> forall t :: i <= t < i + k ==> X[t] <= Y[j]
    requires |A'| == |A|
    requires forall p :: base1 + i + j <= p < base1 + i + j + k ==> A'[p] == T[tb + i + p - (base1 + i + j)]
    requires forall p :: 0 <= p < |A| && !(base1 + i + j <= p < base1 + i + j + k) ==> A'[p] == A[p]
    ensures LoInv(A', s0, X, Y, base1, i + k, j)
  {
    var M := Merge(X, Y);
    MergeFromTakeX(X, Y, i, j, k);
    assert M[i + j + k..] == M[i + j..][k..];
    forall p | base1 + i + j <= p < base1 + i + j + k ensures A'[p] == M[p - base1] {
      assert M[p - base1] == M[i + j..][p - base1 - i - j];
      assert X[i..i + k][p - base1 - i - j] == X[p - base1 - j];
    }
  }

  /**
   * mergeLo moves the next k elements of Y down to its write position, each
   * below the next element of X.
   */
  lemma LoBlockY(A: seq<int>, A': seq<int>, s0: seq<int>, X: seq<int>, Y: seq<int>,
                 base1: int, i: int, j: int, k: int)
    requires LoInv(A, s0, X, Y, base1, i, j)
    requires 0 <= k && j + k <= |Y|
    requires i < |X| ==> forall t :: j <= t < j + k ==> Y[t] < X[i]
    requires |A'| == |A|
    requires forall p :: base1 + i + j <= p < base1 + i + j + k ==> A'[p] == A[base1 + |X| + j + p - (base1 + i + j)]
    requires forall p :: 0 <= p < |A| && !(base1 + i + j <= p < base1 + i + j + k) ==> A'[p] == A[p]
    ensures LoInv(A', s0, X, Y, base1, i, j + k)
  {
    var M := Merge(X, Y);
    MergeFromTakeY(X, Y, i, j, k);
    assert M[i + j + k..] == M[i + j..][k..];
    forall p | base1 + i + j <= p < base1 + i + j + k ensures A'[p] == M[p - base1] {
      assert M[p - base1] == M[i + j..][p - base1 - i - j];
      assert Y[j..j + k][p - base1 - i - j] == Y[p - base1 - i];
    }
  }

  /** Once mergeLo has consumed both runs, the merge is in place. */
  lemma LoDone(A: seq<int>, s0: seq<int>, X: seq<int>, Y: seq<int>, base1: int)
    requires LoInv(A, s0, X, Y, base1, |X|, |Y|)
    ensures MergedInPlace(A, s0, X, Y, base1)
  {
    var e := base1 + |X| + |Y|;
    var R := s0[..base1] + Merge(X, Y) + s0[e..];
    forall p | 0 <= p < |A| ensures A[p] == R[p] {
      if p < base1 {
        assert R[p] == s0[..base1][p];
      } else if p < e {
        assert R[p] == Merge(X, Y)[p - base1];
      } else {
        assert R[p] == s0[e..][p - e];
      }
    }
  }

  /** Before mergeHi moves anything. */
  lemma HiStart(s0: seq<int>, X: seq<int>, Y: seq<int>, base1: int)
    requires 0 <= base1 && base1 + |X| + |Y| <= |s0|
    requires s0[base1..base1 + |X|] == X
    ensures HiInv(s0, s0, X, Y, base1, |X|, |Y|)
  {
    forall p | base1 <= p < base1 + |X| ensures s0[p] == X[p - base1] {
      assert s0[p] == s0[base1..base1 + |X|][p - base1];
    }
  }

  /** mergeHi moves the last remaining element of X, which is above the last one of Y. */
  lemma HiStepX(A: seq<int>, s0: seq<int>, X: seq<int>, Y: seq<int>, base1: int, i: int, j: int)
    requires HiInv(A, s0, X, Y, base1, i, j)
    requires 0 < i && (0 < j ==> Y[j - 1] < X[i - 1])
    ensures A[base1 + i - 1] == X[i - 1]
    ensures HiInv(A[base1 + i + j - 1 := X[i - 1]], s0, X, Y, base1, i - 1, j)
  {
    var M := MergeBack(X, Y, |X|, |Y|);
    assert MergeBack(X, Y, i, j) == MergeBack(X, Y, i - 1, j) + [X[i - 1]];
    assert M[i + j - 1] == M[..i + j][i + j - 1];
    assert M[..i + j - 1] == M[..i + j][..i + j - 1];
  }

  /** mergeHi moves the last remaining element y of Y, which is at least the last one of X. */
  lemma HiStepY(A: seq<int>, s0: seq<int>, X: seq<int>, Y: seq<int>, base1: int, i: int, j: int, y: int)
    requires HiInv(A, s0, X, Y, base1, i, j)
    requires 0 < j && y == Y[j - 1] && (0 < i ==> X[i - 1] <= Y[j - 1])
    ensures HiInv(A[base1 + i + j - 1 := y], s0, X, Y, base1, i, j - 1)
  {
    var M := MergeBack(X, Y, |X|, |Y|);
    assert MergeBack(X, Y, i, j) == MergeBack(X, Y, i, j - 1) + [Y[j - 1]];
    assert M[i + j - 1] == M[..i + j][i + j - 1];
    assert M[..i + j - 1] == M[..i + j][..i + j - 1];
  }

  /**
   * mergeHi moves the last k remaining elements of X up to its write
   * position, each above the last remaining element of Y.
   */
  lemma HiBlockX(A: seq<int>, A': seq<int>, s0: seq<int>, X: seq<int>, Y: seq<int>,
                 base1: int, i: int, j: int, k: int)
    requires HiInv(A, s0, X, Y, base1, i, j)
    requires 0 <= k <= i
    requires j > 0 ==> forall t :: i - k <= t < i ==> Y[j - 1] < X[t]
    requires |A'| == |A|
    requires forall p :: base1 + i + j - k <= p < base1 + i + j ==> A'[p] == A[p - j]
    requires forall p :: 0 <= p < |A| && !(base1 + i + j - k <= p < base1 + i + j) ==> A'[p] == A[p]
    ensures HiInv(A', s0, X, Y, base1, i - k, j)
  {
    var M := MergeBack(X, Y, |X|, |Y|);
    MergeBackTakeX(X, Y, i, j, k);
    assert M[..i + j - k] == M[..i + j][..i + j - k];
    forall p | base1 + i + j - k <= p < base1 + i + j ensures A'[p] == M[p - base1] {
      assert M[p - base1] == M[..i + j][p - base1];
      assert X[i - k..i][p - base1 - (i + j - k)] == X[p - base1 - j];
    }
  }

  /**
   * mergeHi copies the last k remaining elements of Y from its copy
   * T[tb..tb + |Y|), none of them below the last remaining element of X.
   */
  lemma HiBlockY(A: seq<int>, A': seq<int>, T: seq<int>, tb: int, s0: seq<int>, X: seq<int>, Y: seq<int>,
                 base1: int, i: int, j: int, k: int)
    requires HiInv(A, s0, X, Y, base1, i, j)
    requires 0 <= tb && tb + |Y| <= |T| && forall q :: tb <= q < tb + |Y| ==> T[q] == Y[q - tb]
    requires 0 <= k <= j
    requires i > 0 ==> forall t :: j - k <= t < j ==> X[i - 1] <= Y[t]
    requires |A'| == |A|
    requires forall p :: base1 + i + j - k <= p < base1 + i + j ==> A'[p] == T[tb + j - k + p - (base1 + i + j - k)]
    requires forall p :: 0 <= p < |A| && !(base1 + i + j - k <= p < base1 + i + j) ==> A'[p] == A[p]
    ensures HiInv(A', s0, X, Y, base1, i, j - k)
  {
    var M := MergeBack(X, Y, |X|, |Y|);
    MergeBackTakeY(X, Y, i, j, k);
    assert M[..i + j - k] == M[..i + j][..i + j - k];
    forall p | base1 + i + j - k <= p < base1 + i + j ensures A'[p] == M[p - base1] {
      assert M[p - base1] == M[..i + j][p - base1];
      assert Y[j - k..j][p - base1 - (i + j - k)] == Y[p - base1 - i];
    }
  }

  /** Once mergeHi has consumed both runs, the merge of the sorted runs is in place. */
  lemma HiDone(A: seq<int>, s0: seq<int>, X: seq<int>, Y: seq<int>, base1: int)
    requires HiInv(A, s0, X, Y, base1, 0, 0)
    requires Sorted(X) && Sorted(Y)
    ensures MergedInPlace(A, s0, X, Y, base1)
  {
    var e := base1 + |X| + |Y|;
    MergeBackIsMerge(X, Y, |X|, |Y|);
    assert X[..|X|] == X && Y[..|Y|] == Y;
    var R := s0[..base1] + Merge(X, Y) + s0[e..];
    forall p | 0 <= p < |A| ensures A[p] == R[p] {
      if p < base1 {
        assert R[p] == s0[..base1][p];
      } else if p < e {
        assert R[p] == Merge(X, Y)[p - base1];
      } else {
        assert R[p] == s0[e..][p - e];
      }
    }
  }

  /** A range read pointwise from a sorted sequence is sorted. */
  lemma CopySorted(T: seq<int>, tb: int, X: seq<int>, lo: int, hi: int)
    requires 0 <= tb <= lo <= hi <= |T| && hi <= tb + |X| && Sorted(X)
    requires forall q :: lo <= q < hi ==> T[q] == X[q - tb]
    ensures Sorted(T[lo..hi])
  {
    forall p, q | lo <= p < q < hi ensures T[p] <= T[q] {
      assert T[p] == X[p - tb] && T[q] == X[q - tb];
    }
    SortedSlice(T, lo, hi);
  }

  /** When the merge of X and Y is X followed by Y, leaving them is merging them. */
  lemma UnchangedInPlace(s0: seq<int>, X: seq<int>, Y: seq<int>, base1: int)
    requires 0 <= base1 && base1 + |X| + |Y| <= |s0|
    requires s0[base1..base1 + |X|] == X && s0[base1 + |X|..base1 + |X| + |Y|] == Y
    requires Merge(X, Y) == X + Y
    ensures MergedInPlace(s0, s0, X, Y, base1)
  {
    var e := base1 + |X| + |Y|;
    assert s0[base1..e] == s0[base1..base1 + |X|] + s0[base1 + |X|..e];
    assert s0 == s0[..base1] + s0[base1..e] + s0[e..];
  }

  /**
   * mergeAt merges only what lies between the prefix of X it skips and the
   * suffix of Y it skips; when those stay put, the whole of X and Y is merged.
   */
  lemma TrimmedInPlace(A: seq<int>, s0: seq<int>, X: seq<int>, Y: seq<int>, base1: int, k: int, m: int)
    requires 0 <= base1 && base1 + |X| + |Y| <= |s0|
    requires s0[base1..base1 + |X|] == X && s0[base1 + |X|..base1 + |X| + |Y|] == Y
    requires 0 <= k <= |X| && 0 <= m <= |Y|
    requires Merge(X, Y) == X[..k] + Merge(X[k..], Y[..m]) + Y[m..]
    requires MergedInPlace(A, s0, X[k..], Y[..m], base1 + k)
    ensures MergedInPlace(A, s0, X, Y, base1)
  {
    var e := base1 + |X| + |Y|;
    var e' := base1 + |X| + m;
    var M', MX := Merge(X[k..], Y[..m]), Merge(X, Y);
    var R := s0[..base1] + MX + s0[e..];
    assert A == s0[..base1 + k] + M' + s0[e'..];
    forall p | 0 <= p < |A| ensures A[p] == R[p] {
      Index3(s0[..base1], MX, s0[e..], p);
      Index3(s0[..base1 + k], M', s0[e'..], p);
      if base1 <= p < e {
        Index3(X[..k], M', Y[m..], p - base1);
      }
      if base1 <= p < base1 + |X| {
        assert X[p - base1] == s0[p];
      } else if base1 + |X| <= p < e {
        assert Y[p - base1 - |X|] == s0[p];
      }
    }
  }

  /**
   * A merge in place of two sorted runs leaves the rest alone, puts the
   * range of the runs in order, and keeps its elements.
   */
  lemma MergedInPlaceFacts(A: seq<int>, s0: seq<int>, X: seq<int>, Y: seq<int>, base1: int)
    requires 0 <= base1 && base1 + |X| + |Y| <= |s0|
    requires s0[base1..base1 + |X|] == X && s0[base1 + |X|..base1 + |X| + |Y|] == Y
    requires Sorted(X) && Sorted(Y)
    requires MergedInPlace(A, s0, X, Y, base1)
    ensures forall p :: 0 <= p < |s0| && !(base1 <= p < base1 + |X| + |Y|) ==> A[p] == s0[p]
    ensures forall p, q :: base1 <= p < q < base1 + |X| + |Y| ==> A[p] <= A[q]
    ensures PermutedWithin(A, s0, base1, base1 + |X| + |Y|)
  {
    var e := base1 + |X| + |Y|;
    MergeSorted(X, Y);
    MergePermutes(X, Y);
    assert A[base1..e] == Merge(X, Y);
    assert s0[base1..e] == X + Y;
    assert A[..base1] == s0[..base1];
    assert A[e..] == s0[e..];
    forall p | 0 <= p < |s0| && !(base1 <= p < e) ensures A[p] == s0[p] {
      if p < base1 {
        assert A[p] == A[..base1][p];
      } else {
        assert A[p] == A[e..][p - e];
      }
    }
    SlicesPermuted(A, s0, base1, e);
    SortedSlice(A, base1, e);
  }
}
