/**
 * The state of library sort read as one sequence. The library L holds
 * sorted elements; gap slot i (filled when N[i] holds, with value G[i])
 * sits just before library element i, and slot |L| after the last one.
 * The shelf is that interleaving read left to right.
 */
module LibrarySortSpec {
  import opened SortSpec

  /** What slot i contributes to the shelf: its gap value when filled, then library element i. */
  ghost function Slot(L: seq<int>, G: seq<int>, N: seq<bool>, i: int): seq<int>
    requires 0 <= i < |G| && i < |N|
  {
    (if N[i] then [G[i]] else []) + (if i < |L| then [L[i]] else [])
  }

  /** The shelf read through the first k slots. */
  ghost function Shelf(L: seq<int>, G: seq<int>, N: seq<bool>, k: int): seq<int>
    requires 0 <= k <= |G| && k <= |N|
    decreases k
  {
    if k == 0 then [] else Shelf(L, G, N, k - 1) + Slot(L, G, N, k - 1)
  }

  /** No gap slot is filled. */
  ghost predicate NoGaps(N: seq<bool>) {
    forall i :: 0 <= i < |N| ==> !N[i]
  }

  /**
   * Every filled gap i is a slot of the library (i <= |L|) whose value lies
   * between the library elements on either side of it.
   */
  ghost predicate GapsFit(L: seq<int>, G: seq<int>, N: seq<bool>) {
    forall i :: 0 <= i < |N| && N[i] ==>
      && i <= |L| && i < |G|
      && (0 < i ==> L[i - 1] <= G[i])
      && (i < |L| ==> G[i] <= L[i])
  }

  /** v may go into gap p of L without breaking the order. */
  ghost predicate Fits(L: seq<int>, p: int, v: int) {
    && 0 <= p <= |L|
    && (0 < p ==> L[p - 1] <= v)
    && (p < |L| ==> v <= L[p])
  }

  /** Every element of s is at most v. */
  ghost predicate AtMost(s: seq<int>, v: int) {
    forall x :: 0 <= x < |s| ==> s[x] <= v
  }

  /**
   * A sorted library with fitting gaps reads as a sorted shelf, and through
   * slot k (k <= |L|) nothing on it exceeds library element k - 1.
   */
  lemma {:induction false} ShelfSorted(L: seq<int>, G: seq<int>, N: seq<bool>, k: int)
    requires Sorted(L) && GapsFit(L, G, N)
    requires 0 <= k <= |G| && k <= |N|
    ensures Sorted(Shelf(L, G, N, k))
    ensures 0 < k <= |L| ==> AtMost(Shelf(L, G, N, k), L[k - 1])
    decreases k
  {
    if k > 0 {
      var i := k - 1;
      var S, T := Shelf(L, G, N, i), Slot(L, G, N, i);
      ShelfSorted(L, G, N, i);
      assert Sorted(T) by {
        if N[i] && i < |L| {
          assert T == [G[i], L[i]];
        }
      }
      if 0 < i && |T| > 0 {
        assert i <= |L|;
        assert S[|S| - 1] <= L[i - 1];
        if N[i] {
          assert T[0] == G[i];
        } else {
          assert T[0] == L[i];
        }
      }
      SortedConcat(S, T);
      if i < |L| {
        forall x | 0 <= x < |S + T| ensures (S + T)[x] <= L[i] {
          if x < |S| {
            assert S[x] <= L[i - 1];
          } else if N[i] && x == |S| {
            assert (S + T)[x] == G[i];
          } else {
            assert (S + T)[x] == L[i];
          }
        }
      }
    }
  }

  /** Reading further along the shelf only extends what was read. */
  lemma {:induction false} ShelfPrefix(L: seq<int>, G: seq<int>, N: seq<bool>, i: int, j: int)
    requires 0 <= i <= j <= |G| && j <= |N|
    ensures Shelf(L, G, N, i) <= Shelf(L, G, N, j)
    decreases j
  {
    if i < j {
      ShelfPrefix(L, G, N, i, j - 1);
    }
  }

  /** With no gap filled, the shelf is the library itself. */
  lemma {:induction false} ShelfNoGaps(L: seq<int>, G: seq<int>, N: seq<bool>, k: int)
    requires NoGaps(N) && 0 <= k <= |G| && k <= |N|
    ensures Shelf(L, G, N, k) == L[..if k < |L| then k else |L|]
    decreases k
  {
    if k > 0 {
      ShelfNoGaps(L, G, N, k - 1);
      if k <= |L| {
        assert L[..k] == L[..k - 1] + [L[k - 1]];
      }
    }
  }

  /**
   * G2 and N2 are G and N with the empty gap p filled with v and nothing
   * else changed.
   */
  ghost predicate Placed(G2: seq<int>, N2: seq<bool>, G: seq<int>, N: seq<bool>, p: int, v: int) {
    && |G2| == |G| == |N| == |N2| && 0 <= p < |N|
    && !N[p] && N2[p] && G2[p] == v
    && forall j :: 0 <= j < |N| && j != p ==> N2[j] == N[j] && G2[j] == G[j]
  }

  /** Filling gap p leaves the shelf before slot p as it was. */
  lemma {:induction false} ShelfBeforePlace(L: seq<int>, G2: seq<int>, N2: seq<bool>, G: seq<int>, N: seq<bool>, p: int, v: int, k: int)
    requires Placed(G2, N2, G, N, p, v) && 0 <= k <= p
    ensures Shelf(L, G2, N2, k) == Shelf(L, G, N, k)
    decreases k
  {
    if k > 0 {
      ShelfBeforePlace(L, G2, N2, G, N, p, v, k - 1);
      assert Slot(L, G2, N2, k - 1) == Slot(L, G, N, k - 1);
    }
  }

  /** The shelf through slot k is the shelf through slot k - 1 followed by slot k - 1. */
  lemma ShelfUnfold(L: seq<int>, G: seq<int>, N: seq<bool>, k: int)
    requires 0 < k <= |G| && k <= |N|
    ensures Shelf(L, G, N, k) == Shelf(L, G, N, k - 1) + Slot(L, G, N, k - 1)
  {
  }

  /** A whole with one extra element at the head of its back part holds one extra element. */
  lemma BagBack(W2: seq<int>, W: seq<int>, S: seq<int>, T: seq<int>, v: int)
    requires W2 == S + ([v] + T) && W == S + T
    ensures multiset(W2) == multiset(W) + multiset{v}
  {
  }

  /** A whole with one extra element in its front part holds one extra element. */
  lemma BagFront(W2: seq<int>, W: seq<int>, S2: seq<int>, S: seq<int>, T: seq<int>, v: int)
    requires W2 == S2 + T && W == S + T && multiset(S2) == multiset(S) + multiset{v}
    ensures multiset(W2) == multiset(W) + multiset{v}
  {
  }

  /**
   * Filling the empty gap p with v adds exactly v to the shelf, once the
   * reading has passed slot p.
   */
  lemma {:induction false} ShelfPlace(L: seq<int>, G2: seq<int>, N2: seq<bool>, G: seq<int>, N: seq<bool>, p: int, v: int, k: int)
    requires Placed(G2, N2, G, N, p, v) && p < k <= |N|
    ensures multiset(Shelf(L, G2, N2, k)) == multiset(Shelf(L, G, N, k)) + multiset{v}
    decreases k
  {
    var i := k - 1;
    ShelfUnfold(L, G2, N2, k);
    ShelfUnfold(L, G, N, k);
    var T2, T := Slot(L, G2, N2, i), Slot(L, G, N, i);
    if i == p {
      ShelfBeforePlace(L, G2, N2, G, N, p, v, i);
      assert T2 == [v] + T;
      BagBack(Shelf(L, G2, N2, k), Shelf(L, G, N, k), Shelf(L, G, N, i), T, v);
    } else {
      ShelfPlace(L, G2, N2, G, N, p, v, i);
      assert T2 == T;
      BagFront(Shelf(L, G2, N2, k), Shelf(L, G, N, k), Shelf(L, G2, N2, i), Shelf(L, G, N, i), T, v);
    }
  }

  /**
   * One extra library element e past the end, with no gap filled beyond slot
   * |L|, appears on the shelf exactly once, after everything else.
   */
  lemma {:induction false} ShelfStale(L: seq<int>, e: int, G: seq<int>, N: seq<bool>, k: int)
    requires |G| == |N| && 0 <= k <= |N|
    requires forall j :: |L| < j < |N| ==> !N[j]
    ensures |L| < k ==> Shelf(L + [e], G, N, k) == Shelf(L, G, N, k) + [e]
    ensures k <= |L| ==> Shelf(L + [e], G, N, k) == Shelf(L, G, N, k)
    decreases k
  {
    if k > 0 {
      var i := k - 1;
      ShelfStale(L, e, G, N, i);
      ShelfUnfold(L + [e], G, N, k);
      ShelfUnfold(L, G, N, k);
      var A, S := Shelf(L, G, N, i), Slot(L, G, N, i);
      if i < |L| {
        assert Slot(L + [e], G, N, i) == S;
      } else if i == |L| {
        assert Slot(L + [e], G, N, i) == S + [e];
        assert A + (S + [e]) == (A + S) + [e];
      } else {
        assert S == [] && Slot(L + [e], G, N, i) == [];
        assert (A + [e]) + [] == A + [e] == (A + []) + [e];
      }
    }
  }

  /**
   * The multiset of s, collected from the back. It is multiset(s) (BagOf);
   * the loop invariant below counts elements with it, so that reasoning about
   * the arrays of the loop stays clear of the membership axioms of multiset().
   */
  ghost function Bag(s: seq<int>): multiset<int>
    decreases |s|
  {
    if |s| == 0 then multiset{} else Bag(s[..|s| - 1]) + multiset{s[|s| - 1]}
  }

  lemma {:induction false} BagOf(s: seq<int>)
    ensures Bag(s) == multiset(s)
    decreases |s|
  {
    if |s| > 0 {
      BagOf(s[..|s| - 1]);
      assert s == s[..|s| - 1] + [s[|s| - 1]];
    }
  }

  /**
   * The invariant of the insertion loop once the first idx input elements
   * a0[..idx] are placed: the library lib[..libSize] is sorted, every filled
   * gap fits between its neighbours, and library and gaps together hold
   * exactly a0[..idx].
   */
  ghost predicate Inv(a0: seq<int>, lib: seq<int>, libSize: int, G: seq<int>, N: seq<bool>, idx: int) {
    && Shaped(a0, lib, libSize, G, N, idx)
    && Bag(Shelf(lib[..libSize], G, N, |N|)) == Bag(a0[..idx])
  }

  /** The part of Inv about sizes and order. */
  ghost predicate Shaped(a0: seq<int>, lib: seq<int>, libSize: int, G: seq<int>, N: seq<bool>, idx: int) {
    && |G| == |N| == |a0| + 1 && |lib| == |a0|
    && 1 <= libSize <= idx <= |a0|
    && Sorted(lib[..libSize]) && GapsFit(lib[..libSize], G, N)
  }

  /** A one-element library holding a0[0] and no filled gap start the loop. */
  lemma InvStart(a0: seq<int>, lib: seq<int>, G: seq<int>, N: seq<bool>)
    requires 1 <= |a0| == |lib| && |G| == |N| == |a0| + 1
    requires lib[0] == a0[0] && NoGaps(N)
    ensures Inv(a0, lib, 1, G, N, 1)
  {
    ShelfNoGaps(lib[..1], G, N, |N|);
    assert a0[..1] == lib[..1];
    BagOf(a0[..1]);
    BagOf(Shelf(lib[..1], G, N, |N|));
  }

  /**
   * A sequence holding one a0[idx] more than S counts as a0[..idx + 1] when S
   * counts as a0[..idx].
   */
  lemma BagGrow(S2: seq<int>, S: seq<int>, a0: seq<int>, idx: int)
    requires 0 <= idx < |a0| && multiset(S2) == multiset(S) + multiset{a0[idx]} && Bag(S) == Bag(a0[..idx])
    ensures Bag(S2) == Bag(a0[..idx + 1])
  {
    BagOf(S2);
    BagOf(S);
    BagOf(a0[..idx]);
    assert a0[..idx + 1][..idx] == a0[..idx];
  }

  /** Filling a gap with v = a0[idx] adds a0[idx] to the count of the shelf. */
  lemma PlaceBag(L: seq<int>, G2: seq<int>, N2: seq<bool>, G: seq<int>, N: seq<bool>, p: int, v: int,
                 a0: seq<int>, idx: int)
    requires Placed(G2, N2, G, N, p, v) && 0 <= idx < |a0| && a0[idx] == v
    requires Bag(Shelf(L, G, N, |N|)) == Bag(a0[..idx])
    ensures Bag(Shelf(L, G2, N2, |N|)) == Bag(a0[..idx + 1])
  {
    ShelfPlace(L, G2, N2, G, N, p, v, |N|);
    BagGrow(Shelf(L, G2, N2, |N|), Shelf(L, G, N, |N|), a0, idx);
  }

  /** Filling the free gap p, where a0[idx] fits, places one more input element. */
  lemma InvPlace(a0: seq<int>, lib: seq<int>, libSize: int, G: seq<int>, N: seq<bool>, idx: int,
                 p: int, G2: seq<int>, N2: seq<bool>)
    requires Inv(a0, lib, libSize, G, N, idx) && idx < |a0|
    requires Fits(lib[..libSize], p, a0[idx]) && Placed(G2, N2, G, N, p, a0[idx])
    ensures Inv(a0, lib, libSize, G2, N2, idx + 1)
  {
    var L, v := lib[..libSize], a0[idx];
    PlaceBag(L, G2, N2, G, N, p, v, a0, idx);
    forall i | 0 <= i < |N2| && N2[i]
      ensures i <= |L| && i < |G2| && (0 < i ==> L[i - 1] <= G2[i]) && (i < |L| ==> G2[i] <= L[i])
    {
      if i != p {
        assert N[i];
      }
    }
  }

  /**
   * While input remains, the library has room for the element past its end,
   * which extends the shelf by that one element; the shelf holds idx elements.
   */
  lemma InvCollide(a0: seq<int>, lib: seq<int>, libSize: int, G: seq<int>, N: seq<bool>, idx: int)
    requires Inv(a0, lib, libSize, G, N, idx) && idx < |a0|
    ensures libSize < |lib|
    ensures Shelf(lib[..libSize + 1], G, N, |N|) == Shelf(lib[..libSize], G, N, |N|) + [lib[libSize]]
    ensures |Shelf(lib[..libSize], G, N, |N|)| == idx
  {
    var L := lib[..libSize];
    assert lib[..libSize + 1] == L + [lib[libSize]];
    assert forall j :: |L| < j < |N| ==> !N[j];
    ShelfStale(L, lib[libSize], G, N, |N|);
    BagOf(a0[..idx]);
    BagOf(Shelf(L, G, N, |N|));
    assert |multiset(Shelf(L, G, N, |N|))| == |multiset(a0[..idx])|;
  }

  /**
   * The rebuild: a buffer starting with the shelf of the library extended by
   * one element, and no gap filled, continue the loop with the same input
   * position and the library size tempSize - 1.
   */
  lemma InvRebuilt(a0: seq<int>, lib: seq<int>, libSize: int, G: seq<int>, N: seq<bool>, idx: int,
                   lib2: seq<int>, tempSize: int, N2: seq<bool>)
    requires Inv(a0, lib, libSize, G, N, idx) && idx < |a0|
    requires |lib2| == |a0| && 0 <= tempSize <= |lib2| && |N2| == |N| && NoGaps(N2)
    requires lib2[..tempSize] == Shelf(lib[..libSize + 1], G, N, |N|)
    ensures Inv(a0, lib2, tempSize - 1, G, N2, idx)
  {
    var L := lib[..libSize];
    InvCollide(a0, lib, libSize, G, N, idx);
    var T := Shelf(L, G, N, |N|);
    ShelfSorted(L, G, N, |N|);
    assert lib2[..tempSize - 1] == T by {
      assert lib2[..tempSize] == T + [lib[libSize]];
    }
    ShelfNoGaps(T, G, N2, |N|);
    assert T[..|T|] == T;
  }

  /** Once all input is placed, the shelf is the input, sorted. */
  lemma InvDone(a0: seq<int>, lib: seq<int>, libSize: int, G: seq<int>, N: seq<bool>)
    requires Inv(a0, lib, libSize, G, N, |a0|)
    ensures |Shelf(lib[..libSize], G, N, |N|)| == |a0|
    ensures Sorted(Shelf(lib[..libSize], G, N, |N|))
    ensures multiset(Shelf(lib[..libSize], G, N, |N|)) == multiset(a0)
  {
    ShelfSorted(lib[..libSize], G, N, |N|);
    assert a0[..|a0|] == a0;
    BagOf(a0);
    BagOf(Shelf(lib[..libSize], G, N, |N|));
    assert |multiset(Shelf(lib[..libSize], G, N, |N|))| == |multiset(a0)|;
  }
}
