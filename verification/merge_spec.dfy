/**
 * The merge of two sorted runs as functions on sequences. mergeLo builds the
 * merge from the front (MergeFrom) and mergeHi from the back (MergeBack); for
 * sorted runs the two agree (MergeBackIsMerge).
 */
module MergeSpec {
  import opened SortSpec

  /**
   * The stable merge of x[p..] and y[q..], built from the front: the head of y
   * goes first only when it is strictly below the head of x, so on a tie the
   * element of the first run, x, comes first.
   */
  function MergeFrom(x: seq<int>, y: seq<int>, p: int, q: int): (r: seq<int>)
    requires 0 <= p <= |x| && 0 <= q <= |y|
    ensures |r| == |x| - p + |y| - q
    decreases |x| - p + |y| - q
  {
    if p == |x| && q == |y| then []
    else if q < |y| && (p == |x| || y[q] < x[p]) then [y[q]] + MergeFrom(x, y, p, q + 1)
    else [x[p]] + MergeFrom(x, y, p + 1, q)
  }

  /** The stable merge of the runs x and y. */
  function Merge(x: seq<int>, y: seq<int>): (r: seq<int>)
    ensures |r| == |x| + |y|
  {
    MergeFrom(x, y, 0, 0)
  }

  /**
   * The merge of x[..i] and y[..j], built from the back: the last element of x
   * goes last only when it is strictly above the last element of y, so on a
   * tie the element of y goes last.
   */
  function MergeBack(x: seq<int>, y: seq<int>, i: int, j: int): (r: seq<int>)
    requires 0 <= i <= |x| && 0 <= j <= |y|
    ensures |r| == i + j
    decreases i + j
  {
    if i == 0 && j == 0 then []
    else if i > 0 && (j == 0 || y[j - 1] < x[i - 1]) then MergeBack(x, y, i - 1, j) + [x[i - 1]]
    else MergeBack(x, y, i, j - 1) + [y[j - 1]]
  }

  /** The merge from the front holds exactly the elements of both remainders. */
  lemma {:induction false} MergeFromPermutes(x: seq<int>, y: seq<int>, p: int, q: int)
    requires 0 <= p <= |x| && 0 <= q <= |y|
    ensures multiset(MergeFrom(x, y, p, q)) == multiset(x[p..]) + multiset(y[q..])
    decreases |x| - p + |y| - q
  {
    if p == |x| && q == |y| {
      assert x[p..] == [] && y[q..] == [];
    } else if q < |y| && (p == |x| || y[q] < x[p]) {
      MergeFromPermutes(x, y, p, q + 1);
      SuffixCons(y, q);
    } else {
      MergeFromPermutes(x, y, p + 1, q);
      SuffixCons(x, p);
    }
  }

  /** The merge holds exactly the elements of both runs. */
  lemma MergePermutes(x: seq<int>, y: seq<int>)
    ensures multiset(Merge(x, y)) == multiset(x) + multiset(y)
  {
    MergeFromPermutes(x, y, 0, 0);
    assert x[0..] == x && y[0..] == y;
  }

  /**
   * Merging from the front two sorted remainders gives a sorted sequence whose
   * elements are all at least any common lower bound b of the two heads.
   */
  lemma {:induction false} MergeFromSorted(x: seq<int>, y: seq<int>, p: int, q: int, b: int)
    requires 0 <= p <= |x| && 0 <= q <= |y|
    requires Sorted(x) && Sorted(y)
    requires p < |x| ==> b <= x[p]
    requires q < |y| ==> b <= y[q]
    ensures Sorted(MergeFrom(x, y, p, q))
    ensures forall k :: 0 <= k < |MergeFrom(x, y, p, q)| ==> b <= MergeFrom(x, y, p, q)[k]
    decreases |x| - p + |y| - q
  {
    var r := MergeFrom(x, y, p, q);
    if p == |x| && q == |y| {
    } else if q < |y| && (p == |x| || y[q] < x[p]) {
      MergeFromSorted(x, y, p, q + 1, y[q]);
      assert r == [y[q]] + MergeFrom(x, y, p, q + 1);
    } else {
      MergeFromSorted(x, y, p + 1, q, x[p]);
      assert r == [x[p]] + MergeFrom(x, y, p + 1, q);
    }
  }

  /** Merging two sorted runs gives a sorted run. */
  lemma MergeSorted(x: seq<int>, y: seq<int>)
    requires Sorted(x) && Sorted(y)
    ensures Sorted(Merge(x, y))
  {
    if |x| > 0 {
      MergeFromSorted(x, y, 0, 0, if |y| > 0 && y[0] < x[0] then y[0] else x[0]);
    } else if |y| > 0 {
      MergeFromSorted(x, y, 0, 0, y[0]);
    }
  }

  /** The next k elements of x go next when none of them exceeds the head of y's remainder. */
  lemma {:induction false} MergeFromTakeX(x: seq<int>, y: seq<int>, p: int, q: int, k: int)
    requires 0 <= p && 0 <= k && p + k <= |x| && 0 <= q <= |y|
    requires q < |y| ==> forall t :: p <= t < p + k ==> x[t] <= y[q]
    ensures MergeFrom(x, y, p, q) == x[p..p + k] + MergeFrom(x, y, p + k, q)
    decreases k
  {
    if k > 0 {
      assert q < |y| ==> x[p] <= y[q];
      var rest := MergeFrom(x, y, p + k, q);
      calc {
        MergeFrom(x, y, p, q);
        [x[p]] + MergeFrom(x, y, p + 1, q);
        { MergeFromTakeX(x, y, p + 1, q, k - 1); }
        [x[p]] + (x[p + 1..p + k] + rest);
        { ConsAssoc(x[p], x[p + 1..p + k], rest); }
        ([x[p]] + x[p + 1..p + k]) + rest;
        { SliceCons(x, p, p + k); }
        x[p..p + k] + rest;
      }
    } else {
      assert x[p..p] == [];
    }
  }

  /** The next k elements of y go next when each is below the head of x's remainder. */
  lemma {:induction false} MergeFromTakeY(x: seq<int>, y: seq<int>, p: int, q: int, k: int)
    requires 0 <= q && 0 <= k && q + k <= |y| && 0 <= p <= |x|
    requires p < |x| ==> forall t :: q <= t < q + k ==> y[t] < x[p]
    ensures MergeFrom(x, y, p, q) == y[q..q + k] + MergeFrom(x, y, p, q + k)
    decreases k
  {
    if k > 0 {
      assert p < |x| ==> y[q] < x[p];
      var rest := MergeFrom(x, y, p, q + k);
      calc {
        MergeFrom(x, y, p, q);
        [y[q]] + MergeFrom(x, y, p, q + 1);
        { MergeFromTakeY(x, y, p, q + 1, k - 1); }
        [y[q]] + (y[q + 1..q + k] + rest);
        { ConsAssoc(y[q], y[q + 1..q + k], rest); }
        ([y[q]] + y[q + 1..q + k]) + rest;
        { SliceCons(y, q, q + k); }
        y[q..q + k] + rest;
      }
    } else {
      assert y[q..q] == [];
    }
  }

  /** A merge from the front is the merge of the two remainders. */
  lemma MergeFromShift(x: seq<int>, y: seq<int>, p: int, q: int)
    requires 0 <= p <= |x| && 0 <= q <= |y|
    ensures MergeFrom(x, y, p, q) == Merge(x[p..], y[q..])
  {
    MergeFromAligned(x, y, p, q, x[p..], y[q..], 0, 0);
  }

  /** Two merges from the front agree when their remainders do. */
  lemma {:induction false} MergeFromAligned(x: seq<int>, y: seq<int>, p: int, q: int,
                                            x': seq<int>, y': seq<int>, p': int, q': int)
    requires 0 <= p <= |x| && 0 <= q <= |y| && 0 <= p' <= |x'| && 0 <= q' <= |y'|
    requires x[p..] == x'[p'..] && y[q..] == y'[q'..]
    ensures MergeFrom(x, y, p, q) == MergeFrom(x', y', p', q')
    decreases |x| - p + |y| - q
  {
    assert |x| - p == |x'| - p' && |y| - q == |y'| - q';
    if p < |x| {
      assert x[p] == x[p..][0] == x'[p'];
    }
    if q < |y| {
      assert y[q] == y[q..][0] == y'[q'];
    }
    if p == |x| && q == |y| {
    } else if q < |y| && (p == |x| || y[q] < x[p]) {
      assert y[q + 1..] == y[q..][1..] == y'[q' + 1..];
      MergeFromAligned(x, y, p, q + 1, x', y', p', q' + 1);
    } else {
      assert x[p + 1..] == x[p..][1..] == x'[p' + 1..];
      MergeFromAligned(x, y, p + 1, q, x', y', p' + 1, q');
    }
  }

  /** The k elements of x before position i go last when each exceeds y[j - 1]. */
  lemma {:induction false} MergeBackTakeX(x: seq<int>, y: seq<int>, i: int, j: int, k: int)
    requires 0 <= k <= i <= |x| && 0 <= j <= |y|
    requires j > 0 ==> forall t :: i - k <= t < i ==> y[j - 1] < x[t]
    ensures MergeBack(x, y, i, j) == MergeBack(x, y, i - k, j) + x[i - k..i]
    decreases k
  {
    if k > 0 {
      assert j > 0 ==> y[j - 1] < x[i - 1];
      assert MergeBack(x, y, i, j) == MergeBack(x, y, i - 1, j) + [x[i - 1]];
      MergeBackTakeX(x, y, i - 1, j, k - 1);
      SliceSnoc(x, i - k, i);
      SnocAssoc(MergeBack(x, y, i - k, j), x[i - k..i - 1], x[i - 1]);
    } else {
      assert x[i..i] == [];
    }
  }

  /** The k elements of y before position j go last when none is below x[i - 1]. */
  lemma {:induction false} MergeBackTakeY(x: seq<int>, y: seq<int>, i: int, j: int, k: int)
    requires 0 <= k <= j <= |y| && 0 <= i <= |x|
    requires i > 0 ==> forall t :: j - k <= t < j ==> x[i - 1] <= y[t]
    ensures MergeBack(x, y, i, j) == MergeBack(x, y, i, j - k) + y[j - k..j]
    decreases k
  {
    if k > 0 {
      assert i > 0 ==> x[i - 1] <= y[j - 1];
      assert MergeBack(x, y, i, j) == MergeBack(x, y, i, j - 1) + [y[j - 1]];
      MergeBackTakeY(x, y, i, j - 1, k - 1);
      SliceSnoc(y, j - k, j);
      SnocAssoc(MergeBack(x, y, i, j - k), y[j - k..j - 1], y[j - 1]);
    } else {
      assert y[j..j] == [];
    }
  }

  /** A merge from the back only looks at x[..i] and y[..j]. */
  lemma {:induction false} MergeBackPrefix(x: seq<int>, y: seq<int>, i: int, j: int, x': seq<int>, y': seq<int>)
    requires 0 <= i <= |x| && 0 <= j <= |y| && i <= |x'| && j <= |y'|
    requires x[..i] == x'[..i] && y[..j] == y'[..j]
    ensures MergeBack(x, y, i, j) == MergeBack(x', y', i, j)
    decreases i + j
  {
    if i > 0 {
      assert x[i - 1] == x[..i][i - 1] == x'[i - 1];
    }
    if j > 0 {
      assert y[j - 1] == y[..j][j - 1] == y'[j - 1];
    }
    if i == 0 && j == 0 {
    } else if i > 0 && (j == 0 || y[j - 1] < x[i - 1]) {
      assert x[..i - 1] == x[..i][..i - 1] == x'[..i - 1];
      MergeBackPrefix(x, y, i - 1, j, x', y');
    } else {
      assert y[..j - 1] == y[..j][..j - 1] == y'[..j - 1];
      MergeBackPrefix(x, y, i, j - 1, x', y');
    }
  }

  /**
   * The merge from the front ends with the last element of x when that
   * exceeds the rest of a sorted y.
   */
  lemma {:induction false} MergeFromEndsWithX(x: seq<int>, y: seq<int>, p: int, q: int)
    requires 0 <= p < |x| && 0 <= q <= |y| && Sorted(y)
    requires q < |y| ==> y[|y| - 1] < x[|x| - 1]
    ensures MergeFrom(x, y, p, q) == MergeFrom(x[..|x| - 1], y, p, q) + [x[|x| - 1]]
    decreases |x| - p + |y| - q
  {
    var x' := x[..|x| - 1];
    if p < |x'| {
      assert x'[p] == x[p];
    }
    if q < |y| && y[q] < x[p] {
      assert MergeFrom(x, y, p, q) == [y[q]] + MergeFrom(x, y, p, q + 1);
      assert MergeFrom(x', y, p, q) == [y[q]] + MergeFrom(x', y, p, q + 1);
      MergeFromEndsWithX(x, y, p, q + 1);
      ConsAssoc(y[q], MergeFrom(x', y, p, q + 1), [x[|x| - 1]]);
    } else if p + 1 == |x| {
      assert q == |y|;
    } else {
      assert MergeFrom(x, y, p, q) == [x[p]] + MergeFrom(x, y, p + 1, q);
      assert MergeFrom(x', y, p, q) == [x[p]] + MergeFrom(x', y, p + 1, q);
      MergeFromEndsWithX(x, y, p + 1, q);
      ConsAssoc(x[p], MergeFrom(x', y, p + 1, q), [x[|x| - 1]]);
    }
  }

  /**
   * The merge from the front ends with the last element of y when that is at
   * least the end of a sorted x.
   */
  lemma {:induction false} MergeFromEndsWithY(x: seq<int>, y: seq<int>, p: int, q: int)
    requires 0 <= p <= |x| && 0 <= q < |y| && Sorted(x)
    requires p < |x| ==> x[|x| - 1] <= y[|y| - 1]
    ensures MergeFrom(x, y, p, q) == MergeFrom(x, y[..|y| - 1], p, q) + [y[|y| - 1]]
    decreases |x| - p + |y| - q
  {
    var y' := y[..|y| - 1];
    if q < |y'| {
      assert y'[q] == y[q];
    }
    if p < |x| && x[p] <= y[q] {
      assert MergeFrom(x, y, p, q) == [x[p]] + MergeFrom(x, y, p + 1, q);
      assert MergeFrom(x, y', p, q) == [x[p]] + MergeFrom(x, y', p + 1, q);
      MergeFromEndsWithY(x, y, p + 1, q);
      ConsAssoc(x[p], MergeFrom(x, y', p + 1, q), [y[|y| - 1]]);
    } else if q + 1 == |y| {
      assert p == |x|;
    } else {
      assert MergeFrom(x, y, p, q) == [y[q]] + MergeFrom(x, y, p, q + 1);
      assert MergeFrom(x, y', p, q) == [y[q]] + MergeFrom(x, y', p, q + 1);
      MergeFromEndsWithY(x, y, p, q + 1);
      ConsAssoc(y[q], MergeFrom(x, y', p, q + 1), [y[|y| - 1]]);
    }
  }

  /** For sorted runs, building the merge from the back gives the merge. */
  lemma {:induction false} MergeBackIsMerge(x: seq<int>, y: seq<int>, i: int, j: int)
    requires 0 <= i <= |x| && 0 <= j <= |y|
    requires Sorted(x) && Sorted(y)
    ensures MergeBack(x, y, i, j) == Merge(x[..i], y[..j])
    decreases i + j
  {
    var xi, yj := x[..i], y[..j];
    if i == 0 && j == 0 {
    } else if i > 0 && (j == 0 || y[j - 1] < x[i - 1]) {
      MergeBackIsMerge(x, y, i - 1, j);
      assert xi[..i - 1] == x[..i - 1];
      MergeFromEndsWithX(xi, yj, 0, 0);
    } else {
      MergeBackIsMerge(x, y, i, j - 1);
      assert yj[..j - 1] == y[..j - 1];
      MergeFromEndsWithY(xi, yj, 0, 0);
    }
  }

  /** When no element of x is above the first element of y, the merge is x followed by y. */
  lemma MergeAllBefore(x: seq<int>, y: seq<int>)
    requires |y| > 0 ==> forall t :: 0 <= t < |x| ==> x[t] <= y[0]
    ensures Merge(x, y) == x + y
  {
    MergeFromTakeX(x, y, 0, 0, |x|);
    MergeFromTakeY(x, y, |x|, 0, |y|);
    assert x[0..|x|] == x && y[0..|y|] == y;
  }

  /**
   * The merge of sorted runs leaves in place the prefix of x that is at most
   * the first element of y and the suffix of y that is at least the last
   * element of x: mergeAt only merges what lies between.
   */
  lemma MergeTrimmed(x: seq<int>, y: seq<int>, k: int, m: int)
    requires Sorted(x) && Sorted(y)
    requires 0 <= k <= |x| && 0 <= m <= |y|
    requires |y| > 0 ==> forall t :: 0 <= t < k ==> x[t] <= y[0]
    requires k < |x| ==> forall t :: m <= t < |y| ==> x[|x| - 1] <= y[t]
    ensures Merge(x, y) == x[..k] + Merge(x[k..], y[..m]) + y[m..]
  {
    var x' := x[k..];
    MergeFromTakeX(x, y, 0, 0, k);
    assert x[0..k] == x[..k];
    MergeFromShift(x, y, k, 0);
    assert y[0..] == y;
    assert Sorted(x');
    MergeBackIsMerge(x', y, |x'|, |y|);
    assert x'[..|x'|] == x' && y[..|y|] == y;
    MergeBackTakeY(x', y, |x'|, |y|, |y| - m);
    MergeBackIsMerge(x', y, |x'|, m);
    AppendAssoc(x[..k], Merge(x', y[..m]), y[m..]);
  }
}
