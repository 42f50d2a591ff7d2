/**
 * LibrarySortStrategy.sort: a gapped insertion sort. Elements go one by one
 * into the gap in front of their binary-search position in a sorted library;
 * when that gap is already taken, the library and its filled gaps are
 * interleaved into the other library buffer, and the element is tried again.
 * At the end the shelf (library with its gaps) is copied back.
 *
 * The two rows library[targetLib] and library[nextTargetLib] of the source are
 * the arrays library and other here; switching targetLib swaps them.
 */
module LibrarySort {
  import opened SortSpec
  import opened LibrarySortSpec

  /**
   * Arrays.binarySearch(a, fromIndex, toIndex, key) on a sorted range, with
   * its documented result: an index of an element equal to key, or
   * -(insertion point) - 1, where the insertion point is the index of the
   * first element greater than key (toIndex when there is none).
   */
  method BinarySearch(a: array<int>, fromIndex: int, toIndex: int, key: int) returns (r: int)
    requires 0 <= fromIndex <= toIndex <= a.Length
    requires Sorted(a[fromIndex..toIndex])
    ensures 0 <= r ==> fromIndex <= r < toIndex && a[r] == key
    ensures r < 0 ==>
      && fromIndex <= -r - 1 <= toIndex
      && (forall k :: fromIndex <= k < -r - 1 ==> a[k] < key)
      && (forall k :: -r - 1 <= k < toIndex ==> key < a[k])
  {
    assert a[fromIndex..toIndex] == a[..][fromIndex..toIndex];
    SortedSlice(a[..], fromIndex, toIndex);
    var low, high := fromIndex, toIndex - 1;
    while low <= high
      invariant fromIndex <= low <= high + 1 <= toIndex
      invariant forall k :: fromIndex <= k < low ==> a[k] < key
      invariant forall k :: high < k < toIndex ==> key < a[k]
      decreases high - low
    {
      var mid := (low + high) / 2;
      var midVal := a[mid];
      if midVal < key {
        low := mid + 1;
      } else if midVal > key {
        high := mid - 1;
      } else {
        return mid;
      }
    }
    return -(low + 1);
  }

  /** buf[size] := x; size++ : the filled prefix of buf grows by x. */
  method Append(buf: array<int>, size: int, x: int) returns (newSize: int)
    requires 0 <= size < buf.Length
    modifies buf
    ensures newSize == size + 1 && buf[..newSize] == old(buf[..size]) + [x]
  {
    buf[size] := x;
    newSize := size + 1;
    assert buf[..newSize] == buf[..size] + [x];
  }

  /**
   * The gap for key in the sorted library[..libSize]: the binary-search index,
   * or the insertion point decoded from a negative result. key fits there.
   */
  method InsertionPoint(library: array<int>, libSize: int, key: int) returns (insert: int)
    requires 0 <= libSize <= library.Length && Sorted(library[..libSize])
    ensures Fits(library[..libSize], insert, key)
  {
    assert library[0..libSize] == library[..libSize];
    insert := BinarySearch(library, 0, libSize, key);
    if insert < 0 {
      insert := -insert - 1;
    }
  }

  /**
   * The loop of the rebuild: walks every slot 0..numbered.Length - 1, moving
   * each filled gap (and clearing its marker) and then each library element
   * 0..libSize into other. Slot libSize copies the element just past the end
   * of the library too. other then starts with the shelf of
   * library[..libSize + 1], and no marker is left set.
   */
  method Interleave(library: array<int>, other: array<int>, gaps: array<int>, numbered: array<bool>, libSize: int,
                    ghost L: seq<int>, ghost G: seq<int>, ghost N: seq<bool>)
    returns (tempSize: int)
    requires library != other && gaps != other && gaps.Length == numbered.Length
    requires 0 <= libSize < library.Length && L == library[..libSize + 1] && G == gaps[..] && N == numbered[..]
    requires |Shelf(L, G, N, numbered.Length)| <= other.Length
    modifies other, numbered
    ensures 0 <= tempSize <= other.Length
    ensures other[..tempSize] == Shelf(L, G, N, numbered.Length)
    ensures NoGaps(numbered[..])
  {
    ShelfPrefix(L, G, N, 0, numbered.Length);
    tempSize := 0;
    var i := 0;
    while i < numbered.Length
      invariant 0 <= i <= numbered.Length
      invariant Shelf(L, G, N, i) <= Shelf(L, G, N, numbered.Length)
      invariant tempSize == |Shelf(L, G, N, i)| && other[..tempSize] == Shelf(L, G, N, i)
      invariant forall k :: 0 <= k < numbered.Length ==> numbered[k] == (i <= k && N[k])
    {
      ShelfPrefix(L, G, N, i + 1, numbered.Length);
      ShelfUnfold(L, G, N, i + 1);
      ghost var done := other[..tempSize];
      if numbered[i] {
        tempSize := Append(other, tempSize, gaps[i]);
        numbered[i] := false;
      }
      if i <= libSize {
        tempSize := Append(other, tempSize, library[i]);
      }
      assert other[..tempSize] == done + Slot(L, G, N, i);
      i := i + 1;
    }
  }

  /**
   * The rebuild after a collision: the library and its filled gaps are
   * interleaved into other (Interleave), and libSize = tempSize - 1 drops the
   * element copied from past the end of the library again. other is then a
   * gap-free sorted library holding the same elements, and the loop invariant
   * carries over with the same input position; the element is tried again.
   */
  method Rebuild(library: array<int>, other: array<int>, gaps: array<int>, numbered: array<bool>, libSize: int,
                 ghost a0: seq<int>, ghost idx: int)
    returns (tempSize: int)
    requires library != other && gaps != other && other.Length == |a0|
    requires Inv(a0, library[..], libSize, gaps[..], numbered[..], idx) && idx < |a0|
    modifies other, numbered
    ensures NoGaps(numbered[..])
    ensures Inv(a0, other[..], tempSize - 1, gaps[..], numbered[..], idx)
  {
    ghost var lib, G, N := library[..], gaps[..], numbered[..];
    InvCollide(a0, lib, libSize, G, N, idx);
    tempSize := Interleave(library, other, gaps, numbered, libSize, lib[..libSize + 1], G, N);
    InvRebuilt(a0, lib, libSize, G, N, idx, other[..], tempSize, numbered[..]);
  }

  /**
   * The final copy: reads the shelf slot by slot (gap i, then library element
   * i) into a until a is full.
   */
  method Output(a: array<int>, library: array<int>, libSize: int, gaps: array<int>, numbered: array<bool>)
    requires a != library && a != gaps && gaps.Length == numbered.Length
    requires 0 <= libSize <= library.Length
    requires |Shelf(library[..libSize], gaps[..], numbered[..], numbered.Length)| == a.Length
    modifies a
    ensures a[..] == Shelf(library[..libSize], gaps[..], numbered[..], numbered.Length)
  {
    ghost var L, G, N := library[..libSize], gaps[..], numbered[..];
    ghost var S := Shelf(L, G, N, numbered.Length);
    ShelfPrefix(L, G, N, 0, numbered.Length);
    var indexPosForOutput := 0;
    var i := 0;
    while indexPosForOutput < a.Length
      invariant 0 <= i <= numbered.Length
      invariant Shelf(L, G, N, i) <= S
      invariant indexPosForOutput == |Shelf(L, G, N, i)| && a[..indexPosForOutput] == Shelf(L, G, N, i)
      decreases numbered.Length - i
    {
      ShelfPrefix(L, G, N, i + 1, numbered.Length);
      ShelfUnfold(L, G, N, i + 1);
      ghost var done := a[..indexPosForOutput];
      if numbered[i] {
        indexPosForOutput := Append(a, indexPosForOutput, gaps[i]);
      }
      if i < libSize {
        indexPosForOutput := Append(a, indexPosForOutput, library[i]);
      }
      assert a[..indexPosForOutput] == done + Slot(L, G, N, i);
      i := i + 1;
    }
    assert a[..] == a[..indexPosForOutput];
  }

  /**
   * numbered[insert] = true; gaps[insert] = key: the free gap insert, where
   * key fits, is filled with key, and one more input element is placed.
   */
  method Place(library: array<int>, gaps: array<int>, numbered: array<bool>, libSize: int, insert: int, key: int,
               ghost a0: seq<int>, ghost idx: int)
    requires library != gaps
    requires Inv(a0, library[..], libSize, gaps[..], numbered[..], idx) && idx < |a0| && key == a0[idx]
    requires Fits(library[..libSize], insert, key) && !numbered[insert]
    modifies gaps, numbered
    ensures Placed(gaps[..], numbered[..], old(gaps[..]), old(numbered[..]), insert, key)
    ensures Inv(a0, library[..], libSize, gaps[..], numbered[..], idx + 1)
  {
    ghost var G, N := gaps[..], numbered[..];
    numbered[insert] := true;
    gaps[insert] := key;
    InvPlace(a0, library[..], libSize, G, N, idx, insert, gaps[..], numbered[..]);
  }

  /** new boolean[n]: n markers, all false. */
  method NewMarkers(n: nat) returns (numbered: array<bool>)
    ensures fresh(numbered) && numbered.Length == n && NoGaps(numbered[..])
  {
    numbered := new bool[n](_ => false);
  }

  /**
   * One turn of the insertion loop for key = a0[idx]: the binary search gives
   * the gap where key fits; a free gap takes key (placed), a taken one makes
   * the library and its gaps be rebuilt into other, and key is tried again.
   */
  method Step(library: array<int>, other: array<int>, gaps: array<int>, numbered: array<bool>, libSize: int, key: int,
              ghost a0: seq<int>, ghost idx: int)
    returns (placed: bool, newLibSize: int)
    requires library != other && library != gaps && other != gaps && other.Length == |a0|
    requires Inv(a0, library[..], libSize, gaps[..], numbered[..], idx) && idx < |a0| && key == a0[idx]
    modifies other, gaps, numbered
    ensures placed ==> Inv(a0, library[..], newLibSize, gaps[..], numbered[..], idx + 1)
    ensures !placed ==> !NoGaps(old(numbered[..])) && NoGaps(numbered[..])
    ensures !placed ==> Inv(a0, other[..], newLibSize, gaps[..], numbered[..], idx)
  {
    var insert := InsertionPoint(library, libSize, key);
    if numbered[insert] {
      assert !NoGaps(numbered[..]) by {
        assert numbered[..][insert];
      }
      var tempSize := Rebuild(library, other, gaps, numbered, libSize, a0, idx);
      placed, newLibSize := false, tempSize - 1;
    } else {
      Place(library, gaps, numbered, libSize, insert, key, a0, idx);
      placed, newLibSize := true, libSize;
    }
  }

  /**
   * The set-up of the strategy's sort: the gaps, the two library buffers and
   * the markers are allocated, and the library starts as the one element a[0].
   */
  method Start(a: seq<int>) returns (library: array<int>, other: array<int>, gaps: array<int>, numbered: array<bool>)
    requires 1 <= |a|
    ensures fresh(library) && fresh(other) && fresh(gaps) && fresh(numbered)
    ensures library != other && library != gaps && other != gaps && other.Length == |a|
    ensures Inv(a, library[..], 1, gaps[..], numbered[..], 1)
  {
    var arrSize := |a|;
    gaps := new int[arrSize + 1];
    library := new int[arrSize];
    other := new int[arrSize];
    numbered := NewMarkers(arrSize + 1);
    library[0] := a[0];
    InvStart(a, library[..], gaps[..], numbered[..]);
  }

  /**
   * The insertion loop of the strategy's sort: starts a library with a[0] and
   * places a[1..] one by one, rebuilding on every collision. Afterwards the
   * whole of a is on the shelf of library[..libSize] and the gaps. The input
   * array is only read here, so its contents come in as a sequence.
   */
  method Insert(a: seq<int>) returns (library: array<int>, libSize: int, gaps: array<int>, numbered: array<bool>)
    requires 1 <= |a|
    ensures fresh(library) && fresh(gaps) && fresh(numbered)
    ensures Inv(a, library[..], libSize, gaps[..], numbered[..], |a|)
  {
    var arrSize := |a|;
    var other;
    library, other, gaps, numbered := Start(a);
    libSize := 1;
    var indexCurrElement := 1;

    while indexCurrElement < arrSize
      invariant fresh(library) && fresh(other) && library != other && library != gaps && other != gaps
      invariant other.Length == arrSize
      invariant Inv(a, library[..], libSize, gaps[..], numbered[..], indexCurrElement)
      decreases arrSize - indexCurrElement, if NoGaps(numbered[..]) then 0 else 1
    {
      var placed;
      placed, libSize := Step(library, other, gaps, numbered, libSize, a[indexCurrElement], a, indexCurrElement);
      if placed {
        indexCurrElement := indexCurrElement + 1;
      } else {
        library, other := other, library;
      }
    }
  }

  /**
   * The strategy's sort. It reads a[0] unconditionally, so a must not be
   * empty. The array ends up sorted with the same elements.
   */
  method Sort(a: array<int>)
    requires 1 <= a.Length
    modifies a
    ensures Sorted(a[..]) && multiset(a[..]) == old(multiset(a[..]))
  {
    var library, libSize, gaps, numbered := Insert(a[..]);
    InvDone(a[..], library[..], libSize, gaps[..], numbered[..]);
    Output(a, library, libSize, gaps, numbered);
  }
}
