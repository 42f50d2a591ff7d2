/**
 * Shared vocabulary for the sorting strategies: ordered sequences, the
 * "every element of one part is at most every element of another" relation,
 * the effect of a block copy (System.arraycopy) and sequence reversal.
 */
module SortSpec {

  /** s is in non-decreasing order. */
  ghost predicate Sorted(s: seq<int>) {
    forall i, j :: 0 <= i < j < |s| ==> s[i] <= s[j]
  }

  /** Every element of s is at most every element of t. */
  ghost predicate Le(s: seq<int>, t: seq<int>) {
    forall i, j :: 0 <= i < |s| && 0 <= j < |t| ==> s[i] <= t[j]
  }

  /** A suffix of s is its first element followed by the rest. */
  lemma SuffixCons(s: seq<int>, m: int)
    requires 0 <= m < |s|
    ensures s[m..] == [s[m]] + s[m + 1..]
  {
  }

  /** A non-empty slice of s is its first element followed by the rest. */
  lemma SliceCons(s: seq<int>, lo: int, hi: int)
    requires 0 <= lo < hi <= |s|
    ensures s[lo..hi] == [s[lo]] + s[lo + 1..hi]
  {
  }

  /** Prepending an element associates with concatenation. */
  lemma ConsAssoc(e: int, s: seq<int>, t: seq<int>)
    ensures [e] + (s + t) == ([e] + s) + t
  {
  }

  /** A non-empty slice of s is the rest followed by its last element. */
  lemma SliceSnoc(s: seq<int>, lo: int, hi: int)
    requires 0 <= lo < hi <= |s|
    ensures s[lo..hi] == s[lo..hi - 1] + [s[hi - 1]]
  {
  }

  /** Appending an element associates with concatenation. */
  lemma SnocAssoc(s: seq<int>, t: seq<int>, e: int)
    ensures (s + t) + [e] == s + (t + [e])
  {
  }

  /** Moving an element across a concatenation. */
  lemma SnocCons(s: seq<int>, e: int, t: seq<int>)
    ensures (s + [e]) + t == s + ([e] + t)
  {
  }

  /** Concatenation is associative. */
  lemma AppendAssoc(r: seq<int>, s: seq<int>, t: seq<int>)
    ensures (r + s) + t == r + (s + t)
  {
  }

  /** s read back to front. */
  function Reverse(s: seq<int>): (r: seq<int>)
    ensures |r| == |s|
  {
    if |s| == 0 then [] else [s[|s| - 1]] + Reverse(s[..|s| - 1])
  }

  lemma {:induction false} ReverseAt(s: seq<int>, k: int)
    requires 0 <= k < |s|
    ensures Reverse(s)[k] == s[|s| - 1 - k]
  {
    if k > 0 {
      ReverseAt(s[..|s| - 1], k - 1);
    }
  }

  /** A sequence whose k-th element is the k-th from the end of s is Reverse(s). */
  lemma ReverseByIndex(r: seq<int>, s: seq<int>)
    requires |r| == |s|
    requires forall k :: 0 <= k < |s| ==> r[k] == s[|s| - 1 - k]
    ensures r == Reverse(s)
  {
    forall k | 0 <= k < |s| ensures r[k] == Reverse(s)[k] {
      ReverseAt(s, k);
    }
  }

  /** s with the slice [lo, hi) read back to front. */
  function ReversedRange(s: seq<int>, lo: int, hi: int): (r: seq<int>)
    requires 0 <= lo <= hi <= |s|
    ensures |r| == |s|
  {
    s[..lo] + Reverse(s[lo..hi]) + s[hi..]
  }

  /** A sequence that agrees pointwise with the reversal of [lo, hi) is that reversal. */
  lemma ReversedRangeByIndex(t: seq<int>, s: seq<int>, lo: int, hi: int)
    requires 0 <= lo <= hi <= |s| == |t|
    requires forall k :: lo <= k < hi ==> t[k] == s[lo + hi - 1 - k]
    requires forall k :: 0 <= k < |s| && !(lo <= k < hi) ==> t[k] == s[k]
    ensures t == ReversedRange(s, lo, hi)
  {
    var r := ReversedRange(s, lo, hi);
    forall k | 0 <= k < |s| ensures t[k] == r[k] {
      if k < lo {
        assert r[k] == s[..lo][k];
      } else if k < hi {
        ReverseAt(s[lo..hi], k - lo);
      } else {
        assert r[k] == s[hi..][k - hi];
      }
    }
  }

  /** Reversing the same range twice gives back the original sequence. */
  lemma ReversedRangeTwice(s: seq<int>, lo: int, hi: int)
    requires 0 <= lo <= hi <= |s|
    ensures ReversedRange(ReversedRange(s, lo, hi), lo, hi) == s
  {
    var r := ReversedRange(s, lo, hi);
    var r2 := ReversedRange(r, lo, hi);
    forall k | 0 <= k < |s| ensures r2[k] == s[k] {
      if lo <= k < hi {
        var m := lo + hi - 1 - k;
        ReverseAt(r[lo..hi], k - lo);
        assert r2[k] == r[m];
        ReverseAt(s[lo..hi], m - lo);
        assert r[m] == s[lo..hi][k - lo];
      }
    }
  }

  /** Reversing a range keeps its elements and the rest of the sequence. */
  lemma ReversedRangePermutes(s: seq<int>, lo: int, hi: int)
    requires 0 <= lo <= hi <= |s|
    ensures multiset(ReversedRange(s, lo, hi)[lo..hi]) == multiset(s[lo..hi])
    ensures ReversedRange(s, lo, hi)[..lo] == s[..lo]
    ensures ReversedRange(s, lo, hi)[hi..] == s[hi..]
  {
    var r := ReversedRange(s, lo, hi);
    assert r[lo..hi] == Reverse(s[lo..hi]);
    ReverseMultiset(s[lo..hi]);
  }

  lemma {:induction false} ReverseMultiset(s: seq<int>)
    ensures multiset(Reverse(s)) == multiset(s)
  {
    if |s| > 0 {
      ReverseMultiset(s[..|s| - 1]);
      assert s == s[..|s| - 1] + [s[|s| - 1]];
    }
  }

  /** Reversing a strictly descending sequence gives an ascending one. */
  lemma ReverseOfDescendingIsSorted(s: seq<int>)
    requires forall i, j :: 0 <= i < j < |s| ==> s[j] < s[i]
    ensures Sorted(Reverse(s))
  {
    var r := Reverse(s);
    forall i, j | 0 <= i < j < |r| ensures r[i] <= r[j] {
      ReverseAt(s, i);
      ReverseAt(s, j);
    }
  }

  /** Two sorted pieces whose boundary is in order form a sorted whole. */
  lemma SortedConcat(s: seq<int>, t: seq<int>)
    requires Sorted(s) && Sorted(t)
    requires |s| > 0 && |t| > 0 ==> s[|s| - 1] <= t[0]
    ensures Sorted(s + t)
  {
    var u := s + t;
    forall i, j | 0 <= i < j < |u| ensures u[i] <= u[j] {
      if i < |s| && j >= |s| {
        assert u[i] <= s[|s| - 1];
        assert t[0] <= u[j];
      }
    }
  }

  /** The whole of a sorted sequence splits into ordered pieces. */
  lemma SortedSplit(s: seq<int>, k: int)
    requires Sorted(s) && 0 <= k <= |s|
    ensures Sorted(s[..k]) && Sorted(s[k..]) && Le(s[..k], s[k..])
  {
  }

  /** A slice is sorted exactly when every ordered pair of its positions is. */
  lemma SortedSlice(s: seq<int>, lo: int, hi: int)
    requires 0 <= lo <= hi <= |s|
    ensures Sorted(s[lo..hi]) <==> forall p, q :: lo <= p < q < hi ==> s[p] <= s[q]
  {
    if Sorted(s[lo..hi]) {
      forall p, q | lo <= p < q < hi ensures s[p] <= s[q] {
        assert s[lo..hi][p - lo] <= s[lo..hi][q - lo];
      }
    }
  }

  /** Le only depends on the multisets of its two sides. */
  lemma LeByMultiset(s: seq<int>, t: seq<int>, s2: seq<int>, t2: seq<int>)
    requires Le(s, t)
    requires multiset(s2) <= multiset(s) && multiset(t2) <= multiset(t)
    ensures Le(s2, t2)
  {
    forall i, j | 0 <= i < |s2| && 0 <= j < |t2| ensures s2[i] <= t2[j] {
      assert s2[i] in multiset(s);
      assert t2[j] in multiset(t);
      var i' :| 0 <= i' < |s| && s[i'] == s2[i];
      var j' :| 0 <= j' < |t| && t[j'] == t2[j];
    }
  }

  /** Three ordered sorted pieces form a sorted whole. */
  lemma SortedConcat3(p: seq<int>, m: seq<int>, q: seq<int>)
    requires Sorted(p) && Sorted(m) && Sorted(q)
    requires Le(p, m) && Le(p, q) && Le(m, q)
    ensures Sorted(p + m + q)
  {
    var u := p + m + q;
    forall i, j | 0 <= i < j < |u| ensures u[i] <= u[j] {
      if i < |p| && |p| <= j < |p| + |m| {
        assert u[j] == m[j - |p|];
      } else if i < |p| && j >= |p| + |m| {
        assert u[j] == q[j - |p| - |m|];
      } else if |p| <= i < |p| + |m| && j >= |p| + |m| {
        assert u[i] == m[i - |p|];
        assert u[j] == q[j - |p| - |m|];
      }
    }
  }

  /**
   * Rewriting the positions [x, y) of s with a permutation of their contents
   * permutes every range [lo, hi) that contains [x, y).
   */
  lemma PermuteInside(s: seq<int>, s2: seq<int>, x: int, y: int, lo: int, hi: int)
    requires 0 <= lo <= x <= y <= hi <= |s| == |s2|
    requires s2[..x] == s[..x] && s2[y..] == s[y..]
    requires multiset(s2[x..y]) == multiset(s[x..y])
    ensures multiset(s2[lo..hi]) == multiset(s[lo..hi])
    ensures s2[..lo] == s[..lo] && s2[hi..] == s[hi..]
  {
    assert s[lo..hi] == s[lo..x] + s[x..y] + s[y..hi];
    assert s2[lo..hi] == s2[lo..x] + s2[x..y] + s2[y..hi];
    assert s2[lo..x] == s[lo..x] by {
      assert s2[lo..x] == s2[..x][lo..];
      assert s[lo..x] == s[..x][lo..];
    }
    assert s2[y..hi] == s[y..hi] by {
      assert s2[y..hi] == s2[y..][..hi - y];
      assert s[y..hi] == s[y..][..hi - y];
    }
    assert s2[..lo] == s2[..x][..lo];
    assert s[..lo] == s[..x][..lo];
    assert s2[hi..] == s2[y..][hi - y..];
    assert s[hi..] == s[y..][hi - y..];
  }

  /**
   * t is s with the elements of [lo, hi) rearranged among themselves and
   * everything outside that range where it was.
   */
  ghost predicate PermutedWithin(t: seq<int>, s: seq<int>, lo: int, hi: int) {
    && |t| == |s| && 0 <= lo <= hi <= |s|
    && (forall k :: 0 <= k < |s| && !(lo <= k < hi) ==> t[k] == s[k])
    && multiset(t) == multiset(s)
  }

  /** PermutedWithin in terms of the three slices of t and s. */
  lemma PermutedSlices(t: seq<int>, s: seq<int>, lo: int, hi: int)
    requires PermutedWithin(t, s, lo, hi)
    ensures t[..lo] == s[..lo] && t[hi..] == s[hi..]
    ensures multiset(t[lo..hi]) == multiset(s[lo..hi])
  {
    assert t[..lo] == s[..lo];
    assert t[hi..] == s[hi..] by {
      forall k | 0 <= k < |t| - hi ensures t[hi..][k] == s[hi..][k] {
        assert t[hi + k] == s[hi + k];
      }
    }
    var p, q := multiset(t[..lo]), multiset(t[hi..]);
    assert t == t[..lo] + t[lo..hi] + t[hi..];
    assert s == s[..lo] + s[lo..hi] + s[hi..];
    assert multiset(t) == p + multiset(t[lo..hi]) + q;
    assert multiset(s) == p + multiset(s[lo..hi]) + q;
    assert multiset(t[lo..hi]) == multiset(t) - p - q;
  }

  /** The slices of t and s as PermutedWithin wants them give PermutedWithin. */
  lemma SlicesPermuted(t: seq<int>, s: seq<int>, lo: int, hi: int)
    requires |t| == |s| && 0 <= lo <= hi <= |s|
    requires t[..lo] == s[..lo] && t[hi..] == s[hi..]
    requires multiset(t[lo..hi]) == multiset(s[lo..hi])
    ensures PermutedWithin(t, s, lo, hi)
  {
    forall k | 0 <= k < |s| && !(lo <= k < hi) ensures t[k] == s[k] {
      if k < lo {
        assert t[k] == t[..lo][k] && s[k] == s[..lo][k];
      } else {
        assert t[k] == t[hi..][k - hi] && s[k] == s[hi..][k - hi];
      }
    }
    assert t == t[..lo] + t[lo..hi] + t[hi..];
    assert s == s[..lo] + s[lo..hi] + s[hi..];
  }

  /** A slice below m of two sequences that agree below m is the same in both. */
  lemma SliceBelow(t: seq<int>, s: seq<int>, x: int, y: int, m: int)
    requires 0 <= x <= y <= m <= |s| == |t| && t[..m] == s[..m]
    ensures t[x..y] == s[x..y]
  {
    forall k | 0 <= k < y - x
      ensures t[x..y][k] == s[x..y][k]
    {
      assert t[x + k] == t[..m][x + k] && s[x + k] == s[..m][x + k];
    }
  }

  /** A slice above m of two sequences that agree above m is the same in both. */
  lemma SliceAbove(t: seq<int>, s: seq<int>, x: int, y: int, m: int)
    requires 0 <= m <= x <= y <= |s| == |t| && t[m..] == s[m..]
    ensures t[x..y] == s[x..y]
  {
    forall k | 0 <= k < y - x
      ensures t[x..y][k] == s[x..y][k]
    {
      assert t[x + k] == t[m..][x + k - m] && s[x + k] == s[m..][x + k - m];
    }
  }

  /** Rearranging [x, y) is rearranging any range that contains it. */
  lemma PermutedWiden(t: seq<int>, s: seq<int>, x: int, y: int, lo: int, hi: int)
    requires PermutedWithin(t, s, x, y) && 0 <= lo <= x && y <= hi <= |s|
    ensures PermutedWithin(t, s, lo, hi)
  {
  }

  /** Rearranging [x, y) after rearranging a range containing it is rearranging that range. */
  lemma PermutedInside(u: seq<int>, t: seq<int>, s: seq<int>, x: int, y: int, lo: int, hi: int)
    requires PermutedWithin(u, t, x, y) && PermutedWithin(t, s, lo, hi) && lo <= x && y <= hi
    ensures PermutedWithin(u, s, lo, hi)
  {
    PermutedWiden(u, t, x, y, lo, hi);
  }

  /**
   * Rearranging [x, hi) and then an overlapping [lo, y) rearranges the
   * union [lo, hi).
   */
  lemma PermutedOverlap(u: seq<int>, t: seq<int>, s: seq<int>, lo: int, x: int, y: int, hi: int)
    requires PermutedWithin(t, s, x, hi) && PermutedWithin(u, t, lo, y) && lo <= x && y <= hi
    ensures PermutedWithin(u, s, lo, hi)
  {
    PermutedWiden(t, s, x, hi, lo, hi);
    PermutedWiden(u, t, lo, y, lo, hi);
    PermutedTrans(u, t, s, lo, hi);
  }

  /** Rearranging a range twice is rearranging it once. */
  lemma PermutedTrans(u: seq<int>, t: seq<int>, s: seq<int>, lo: int, hi: int)
    requires PermutedWithin(u, t, lo, hi) && PermutedWithin(t, s, lo, hi)
    ensures PermutedWithin(u, s, lo, hi)
  {
  }
}
