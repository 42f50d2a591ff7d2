/**
 * CustomSort.sortEvenOdd: the elements of one parity are taken out of the
 * array in position order, sorted by a strategy, and written back into the
 * positions they came from, in order. Elements of the other parity stay put.
 *
 * The specification is Picked (the elements of the requested parity, in
 * position order) and Scatter (the array with those positions refilled from a
 * sequence, in order); the lemmas say what Scatter keeps and what it moves.
 */
module CustomSort {
  import opened SortSpec
  import TimSortGallop
  import TimSort
  import LibrarySort

  /** The strategies a caller can hand to sortEvenOdd. */
  datatype Strategy = TimSortStrategy | LibrarySortStrategy

  /**
   * What strategy.sort demands of the length of its array: TimSort's index
   * arithmetic is done in 32 bits, and LibrarySort reads array[0].
   */
  predicate CanSort(strategy: Strategy, n: int) {
    match strategy
    case TimSortStrategy => n <= TimSortGallop.INT_MAX
    case LibrarySortStrategy => 1 <= n
  }

  /** strategy.sort(a): either strategy leaves a sorted, with the same elements. */
  method SortWith(strategy: Strategy, a: array<int>)
    requires CanSort(strategy, a.Length)
    modifies a
    ensures Sorted(a[..]) && multiset(a[..]) == old(multiset(a[..]))
  {
    match strategy
    case TimSortStrategy =>
      TimSort.TimSortStrategy.Sort(a);
    case LibrarySortStrategy =>
      LibrarySort.Sort(a);
  }

  /**
   * The parity test of the source. Java's % keeps the sign of x and Dafny's
   * does not, but both are zero exactly when x is even.
   */
  predicate Matches(x: int, sortEven: bool) {
    (sortEven && x % 2 == 0) || (!sortEven && x % 2 != 0)
  }

  /** The elements of s of the requested parity, in position order. */
  ghost function Picked(s: seq<int>, sortEven: bool): (r: seq<int>)
    ensures |r| <= |s|
    ensures forall k :: 0 <= k < |r| ==> Matches(r[k], sortEven)
    decreases |s|
  {
    if |s| == 0 then []
    else Picked(s[..|s| - 1], sortEven) + (if Matches(s[|s| - 1], sortEven) then [s[|s| - 1]] else [])
  }

  /**
   * s with its positions of the requested parity refilled, in order, from
   * sub, which has one element per such position.
   */
  ghost function Scatter(s: seq<int>, sortEven: bool, sub: seq<int>): (r: seq<int>)
    requires |sub| == |Picked(s, sortEven)|
    ensures |r| == |s|
    decreases |s|
  {
    if |s| == 0 then []
    else if Matches(s[|s| - 1], sortEven) then
      Scatter(s[..|s| - 1], sortEven, sub[..|sub| - 1]) + [sub[|sub| - 1]]
    else
      Scatter(s[..|s| - 1], sortEven, sub) + [s[|s| - 1]]
  }

  /** A prefix of s has no more elements of the parity than s. */
  lemma {:induction false} PickedPrefix(s: seq<int>, sortEven: bool, j: int)
    requires 0 <= j <= |s|
    ensures |Picked(s[..j], sortEven)| <= |Picked(s, sortEven)|
    decreases |s|
  {
    if j < |s| {
      var t := s[..|s| - 1];
      assert t[..j] == s[..j];
      PickedPrefix(t, sortEven, j);
    } else {
      assert s[..j] == s;
    }
  }

  /** A rearrangement of elements of the parity has only elements of the parity. */
  lemma AllMatch(sub: seq<int>, t: seq<int>, sortEven: bool)
    requires multiset(sub) == multiset(t)
    requires forall k :: 0 <= k < |t| ==> Matches(t[k], sortEven)
    ensures forall k :: 0 <= k < |sub| ==> Matches(sub[k], sortEven)
  {
    forall k | 0 <= k < |sub|
      ensures Matches(sub[k], sortEven)
    {
      assert sub[k] in multiset(t);
      var m :| 0 <= m < |t| && t[m] == sub[k];
    }
  }

  /** Positions whose value is not of the parity keep their value. */
  lemma {:induction false} ScatterKeeps(s: seq<int>, sortEven: bool, sub: seq<int>)
    requires |sub| == |Picked(s, sortEven)|
    ensures forall i :: 0 <= i < |s| && !Matches(s[i], sortEven) ==> Scatter(s, sortEven, sub)[i] == s[i]
    decreases |s|
  {
    if |s| > 0 {
      var t, x := s[..|s| - 1], s[|s| - 1];
      if Matches(x, sortEven) {
        ScatterKeeps(t, sortEven, sub[..|sub| - 1]);
      } else {
        ScatterKeeps(t, sortEven, sub);
      }
    }
  }

  /**
   * Refilled from elements of the parity, a position holds a value of the
   * parity exactly when it did before: the same positions are used.
   */
  lemma {:induction false} ScatterParity(s: seq<int>, sortEven: bool, sub: seq<int>)
    requires |sub| == |Picked(s, sortEven)|
    requires forall k :: 0 <= k < |sub| ==> Matches(sub[k], sortEven)
    ensures forall i :: 0 <= i < |s| ==> (Matches(Scatter(s, sortEven, sub)[i], sortEven) <==> Matches(s[i], sortEven))
    decreases |s|
  {
    if |s| > 0 {
      var t, x := s[..|s| - 1], s[|s| - 1];
      if Matches(x, sortEven) {
        ScatterParity(t, sortEven, sub[..|sub| - 1]);
      } else {
        ScatterParity(t, sortEven, sub);
      }
    }
  }

  /** Picked of s with one more element x at the end. */
  lemma PickedSnoc(t: seq<int>, x: int, sortEven: bool)
    ensures Picked(t + [x], sortEven) == Picked(t, sortEven) + (if Matches(x, sortEven) then [x] else [])
  {
    assert (t + [x])[..|t|] == t;
  }

  /**
   * Refilled from elements of the parity, the elements of the parity read in
   * position order are sub itself.
   */
  lemma {:induction false} ScatterPicked(s: seq<int>, sortEven: bool, sub: seq<int>)
    requires |sub| == |Picked(s, sortEven)|
    requires forall k :: 0 <= k < |sub| ==> Matches(sub[k], sortEven)
    ensures Picked(Scatter(s, sortEven, sub), sortEven) == sub
    decreases |s|
  {
    if |s| > 0 {
      var t, x := s[..|s| - 1], s[|s| - 1];
      if Matches(x, sortEven) {
        var u := sub[..|sub| - 1];
        ScatterPicked(t, sortEven, u);
        assert Matches(sub[|sub| - 1], sortEven);
        PickedGrow(Scatter(s, sortEven, sub), Scatter(t, sortEven, u), sub, sortEven);
      } else {
        ScatterPicked(t, sortEven, sub);
        PickedSame(Scatter(s, sortEven, sub), Scatter(t, sortEven, sub), x, sub, sortEven);
      }
    }
  }

  /** One more element of the parity at the end of R extends Picked(R) by it. */
  lemma PickedGrow(r: seq<int>, R: seq<int>, sub: seq<int>, sortEven: bool)
    requires 0 < |sub| && r == R + [sub[|sub| - 1]] && Matches(sub[|sub| - 1], sortEven)
    requires Picked(R, sortEven) == sub[..|sub| - 1]
    ensures Picked(r, sortEven) == sub
  {
    PickedSnoc(R, sub[|sub| - 1], sortEven);
    assert sub == sub[..|sub| - 1] + [sub[|sub| - 1]];
  }

  /** One more element not of the parity at the end of R leaves Picked(R) alone. */
  lemma PickedSame(r: seq<int>, R: seq<int>, x: int, sub: seq<int>, sortEven: bool)
    requires r == R + [x] && !Matches(x, sortEven) && Picked(R, sortEven) == sub
    ensures Picked(r, sortEven) == sub
  {
    PickedSnoc(R, x, sortEven);
    assert sub + [] == sub;
  }

  /**
   * Refilling trades the elements of the parity for those of sub and nothing
   * else: as multisets, Scatter(s) plus Picked(s) is s plus sub.
   */
  lemma {:induction false} ScatterBag(s: seq<int>, sortEven: bool, sub: seq<int>)
    requires |sub| == |Picked(s, sortEven)|
    ensures multiset(Scatter(s, sortEven, sub)) + multiset(Picked(s, sortEven)) == multiset(s) + multiset(sub)
    decreases |s|
  {
    if |s| > 0 {
      var t, x := s[..|s| - 1], s[|s| - 1];
      if Matches(x, sortEven) {
        var u := sub[..|sub| - 1];
        ScatterBag(t, sortEven, u);
        BagSwap(Scatter(s, sortEven, sub), Picked(s, sortEven), s, sub, Scatter(t, sortEven, u), Picked(t, sortEven));
      } else {
        ScatterBag(t, sortEven, sub);
        BagKeep(Scatter(s, sortEven, sub), Picked(s, sortEven), s, sub, Scatter(t, sortEven, sub), Picked(t, sortEven));
      }
    }
  }

  /**
   * The last element of sub joins one side and the last element of s the
   * other: a balance of multisets carries over from the prefixes.
   */
  lemma BagSwap(S2: seq<int>, P2: seq<int>, s: seq<int>, sub: seq<int>, R: seq<int>, P: seq<int>)
    requires 0 < |s| && 0 < |sub|
    requires S2 == R + [sub[|sub| - 1]] && P2 == P + [s[|s| - 1]]
    requires multiset(R) + multiset(P) == multiset(s[..|s| - 1]) + multiset(sub[..|sub| - 1])
    ensures multiset(S2) + multiset(P2) == multiset(s) + multiset(sub)
  {
    var t, x, u, y := s[..|s| - 1], s[|s| - 1], sub[..|sub| - 1], sub[|sub| - 1];
    assert s == t + [x] && sub == u + [y];
    assert multiset(S2) == multiset(R) + multiset{y} && multiset(P2) == multiset(P) + multiset{x};
    assert multiset(s) == multiset(t) + multiset{x} && multiset(sub) == multiset(u) + multiset{y};
    forall o
      ensures (multiset(S2) + multiset(P2))[o] == (multiset(s) + multiset(sub))[o]
    {
      assert (multiset(R) + multiset(P))[o] == (multiset(t) + multiset(u))[o];
    }
  }

  /** The last element of s joins both sides: a balance carries over from the prefix. */
  lemma BagKeep(S2: seq<int>, P2: seq<int>, s: seq<int>, sub: seq<int>, R: seq<int>, P: seq<int>)
    requires 0 < |s|
    requires S2 == R + [s[|s| - 1]] && P2 == P + []
    requires multiset(R) + multiset(P) == multiset(s[..|s| - 1]) + multiset(sub)
    ensures multiset(S2) + multiset(P2) == multiset(s) + multiset(sub)
  {
    var t, x := s[..|s| - 1], s[|s| - 1];
    assert s == t + [x] && P2 == P;
    assert multiset(S2) == multiset(R) + multiset{x} && multiset(s) == multiset(t) + multiset{x};
    forall o
      ensures (multiset(S2) + multiset(P2))[o] == (multiset(s) + multiset(sub))[o]
    {
      assert (multiset(R) + multiset(P))[o] == (multiset(t) + multiset(sub))[o];
    }
  }

  /**
   * Refilled from a rearrangement sub of its elements of the parity, s keeps
   * every other position, uses the same positions for the parity, reads sub
   * there in position order, and keeps its elements as a whole.
   */
  lemma Refilled(s: seq<int>, sortEven: bool, sub: seq<int>)
    requires |sub| == |Picked(s, sortEven)| && multiset(sub) == multiset(Picked(s, sortEven))
    ensures forall i :: 0 <= i < |s| && !Matches(s[i], sortEven) ==> Scatter(s, sortEven, sub)[i] == s[i]
    ensures forall i :: 0 <= i < |s| ==> (Matches(Scatter(s, sortEven, sub)[i], sortEven) <==> Matches(s[i], sortEven))
    ensures Picked(Scatter(s, sortEven, sub), sortEven) == sub
    ensures multiset(Scatter(s, sortEven, sub)) == multiset(s)
  {
    AllMatch(sub, Picked(s, sortEven), sortEven);
    ScatterKeeps(s, sortEven, sub);
    ScatterParity(s, sortEven, sub);
    ScatterPicked(s, sortEven, sub);
    ScatterBag(s, sortEven, sub);
    BagCancel(multiset(Scatter(s, sortEven, sub)), multiset(Picked(s, sortEven)), multiset(s));
  }

  /** A balance with the same multiset on both sides drops it. */
  lemma BagCancel(A: multiset<int>, B: multiset<int>, C: multiset<int>)
    requires A + B == C + B
    ensures A == C
  {
    forall o
      ensures A[o] == C[o]
    {
      assert (A + B)[o] == (C + B)[o];
    }
  }

  /**
   * One step of the write-back: position i, with j elements of the parity
   * before it, appends sub[j] when it is of the parity and s[i] otherwise.
   */
  lemma ScatterStep(s: seq<int>, sortEven: bool, sub: seq<int>, i: int, j: int)
    requires 0 <= i < |s| && j == |Picked(s[..i], sortEven)| && |Picked(s[..i + 1], sortEven)| <= |sub|
    ensures Matches(s[i], sortEven) ==> j < |sub| && |Picked(s[..i + 1], sortEven)| == j + 1
    ensures Matches(s[i], sortEven) ==>
      Scatter(s[..i + 1], sortEven, sub[..j + 1]) == Scatter(s[..i], sortEven, sub[..j]) + [sub[j]]
    ensures !Matches(s[i], sortEven) ==> |Picked(s[..i + 1], sortEven)| == j
    ensures !Matches(s[i], sortEven) ==>
      Scatter(s[..i + 1], sortEven, sub[..j]) == Scatter(s[..i], sortEven, sub[..j]) + [s[i]]
  {
    var p := s[..i + 1];
    assert p[..i] == s[..i];
    if Matches(s[i], sortEven) {
      assert sub[..j + 1][..j] == sub[..j];
    }
  }

  /**
   * The extraction loop and toArray: a fresh array of the elements of the
   * parity, in position order.
   */
  method Extract(dataArray: array<int>, sortEven: bool) returns (subArray: array<int>)
    ensures fresh(subArray) && subArray[..] == Picked(dataArray[..], sortEven)
  {
    var subList: seq<int> := [];
    for i := 0 to dataArray.Length
      invariant subList == Picked(dataArray[..i], sortEven)
    {
      var num := dataArray[i];
      assert dataArray[..i + 1][..i] == dataArray[..i];
      if Matches(num, sortEven) {
        subList := subList + [num];
      }
    }
    assert dataArray[..dataArray.Length] == dataArray[..];
    subArray := new int[|subList|](k requires 0 <= k < |subList| => subList[k]);
  }

  /**
   * The write-back loop: every position whose value is of the parity, in
   * order, takes the next element of subArray. Each test reads the position
   * before it is written, so the original parity decides.
   */
  method WriteBack(dataArray: array<int>, subArray: array<int>, sortEven: bool)
    requires dataArray != subArray && subArray.Length == |Picked(dataArray[..], sortEven)|
    modifies dataArray
    ensures dataArray[..] == Scatter(old(dataArray[..]), sortEven, subArray[..])
  {
    ghost var s := dataArray[..];
    ghost var sub := subArray[..];
    var subIndex := 0;
    for i := 0 to dataArray.Length
      invariant subIndex <= |sub| && subIndex == |Picked(s[..i], sortEven)|
      invariant dataArray[..i] == Scatter(s[..i], sortEven, sub[..subIndex])
      invariant forall k :: i <= k < dataArray.Length ==> dataArray[k] == s[k]
    {
      PickedPrefix(s, sortEven, i + 1);
      ScatterStep(s, sortEven, sub, i, subIndex);
      ghost var done := dataArray[..i];
      if Matches(dataArray[i], sortEven) {
        dataArray[i] := subArray[subIndex];
        subIndex := subIndex + 1;
      }
      assert dataArray[..i + 1] == done + [dataArray[i]];
    }
    assert s[..dataArray.Length] == s;
    assert dataArray[..dataArray.Length] == dataArray[..];
    assert sub[..subIndex] == sub;
  }

  /**
   * What sortEvenOdd promises of the array t it leaves behind from s:
   * positions not of the parity keep their value, the same positions hold
   * values of the parity, those values read in position order are sorted and
   * a rearrangement of the original ones, and the array as a whole keeps its
   * elements.
   */
  ghost predicate ParitySorted(s: seq<int>, t: seq<int>, sortEven: bool) {
    && |t| == |s|
    && (forall i :: 0 <= i < |s| && !Matches(s[i], sortEven) ==> t[i] == s[i])
    && (forall i :: 0 <= i < |s| ==> (Matches(t[i], sortEven) <==> Matches(s[i], sortEven)))
    && Sorted(Picked(t, sortEven))
    && multiset(Picked(t, sortEven)) == multiset(Picked(s, sortEven))
    && multiset(t) == multiset(s)
  }

  /** Refilling from a sorted rearrangement of the parity values gives ParitySorted. */
  lemma RefilledSorted(s: seq<int>, sortEven: bool, sub: seq<int>)
    requires |sub| == |Picked(s, sortEven)| && multiset(sub) == multiset(Picked(s, sortEven))
    requires Sorted(sub)
    ensures ParitySorted(s, Scatter(s, sortEven, sub), sortEven)
  {
    Refilled(s, sortEven, sub);
  }

  /**
   * sortEvenOdd. strategy.sort is called even when nothing is of the parity,
   * so the strategy's demand is on the number of such elements.
   */
  method SortEvenOdd(dataArray: array<int>, strategy: Strategy, sortEven: bool)
    requires CanSort(strategy, |Picked(dataArray[..], sortEven)|)
    modifies dataArray
    ensures ParitySorted(old(dataArray[..]), dataArray[..], sortEven)
  {
    ghost var s := dataArray[..];
    var subArray := Extract(dataArray, sortEven);
    SortWith(strategy, subArray);
    ghost var sub := subArray[..];
    WriteBack(dataArray, subArray, sortEven);
    RefilledSorted(s, sortEven, sub);
  }
}
