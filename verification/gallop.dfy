/**
 * gallopLeft and gallopRight: exponential search from a hint followed by a
 * binary search, over a sorted range of any array. The two differ only in
 * the comparison that decides whether an element goes before the key
 * (strictly below it, or at most it), so their two phases are written once,
 * over that comparison. The offsets are Java ints, so the doubling step is
 * written with 32-bit wrap-around.
 */
module TimSortGallop {
  import opened SortSpec

  /** The largest Java int; no Java array is longer. */
  const INT_MAX := 0x7fff_ffff

  /** x reduced to a Java int, as 32-bit two's-complement arithmetic does. */
  function Wrap32(x: int): (r: int)
    ensures -0x8000_0000 <= r <= INT_MAX
    ensures (x - r) % 0x1_0000_0000 == 0
  {
    (x + 0x8000_0000) % 0x1_0000_0000 - 0x8000_0000
  }

  /**
   * The step ofs = (ofs << 1) + 1 of the gallop loops, for a positive int
   * ofs: it is exact while 2 * ofs + 1 fits in an int, and otherwise wraps
   * to a value that the "ofs <= 0" overflow test catches.
   */
  lemma DoublingStep(ofs: int)
    requires 0 < ofs <= INT_MAX
    ensures 2 * ofs + 1 <= INT_MAX ==> Wrap32(2 * ofs + 1) == 2 * ofs + 1
    ensures 2 * ofs + 1 > INT_MAX ==> Wrap32(2 * ofs + 1) < 0
  {
    WrapOnce(2 * ofs + 1);
  }

  /**
   * A non-negative value below 2^32 wraps to itself when it fits in an int
   * and to itself minus 2^32, a negative int, when it does not.
   */
  lemma WrapOnce(x: int)
    requires 0 <= x < 0x1_0000_0000
    ensures x <= INT_MAX ==> Wrap32(x) == x
    ensures INT_MAX < x ==> Wrap32(x) == x - 0x1_0000_0000
  {
    var y := x + 0x8000_0000;
    if y < 0x1_0000_0000 {
      assert y % 0x1_0000_0000 == y;
    } else {
      assert y == 0x1_0000_0000 + (y - 0x1_0000_0000);
      assert y % 0x1_0000_0000 == y - 0x1_0000_0000;
    }
  }

  /**
   * Whether x goes before key: strictly below it for gallopLeft (strict), at
   * most it for gallopRight.
   */
  predicate Precedes(x: int, key: int, strict: bool) {
    x < key || (!strict && x == key)
  }

  /** In a sorted range, whatever precedes key is preceded by all before it. */
  lemma PrecedesDownward(a: array<int>, base: int, len: int, i: int, j: int, key: int, strict: bool)
    requires 0 <= base && 0 <= len && base + len <= a.Length
    requires Sorted(a[base..base + len])
    requires base <= i <= j < base + len
    ensures Precedes(a[j], key, strict) ==> Precedes(a[i], key, strict)
  {
    SortedSlice(a[..], base, base + len);
  }

  /**
   * The galloping phase: from the hint, probe at offsets 1, 3, 7, ... to
   * the right when a[base + hint] precedes key and to the left otherwise,
   * until the probe overshoots, and return the bracket [lo, hi) that the
   * boundary is in.
   */
  method GallopBracket(key: int, a: array<int>, base: int, len: int, hint: int, strict: bool)
    returns (lo: int, hi: int)
    requires a.Length <= INT_MAX
    requires 0 <= base && 0 < len && base + len <= a.Length
    requires 0 <= hint < len
    requires Sorted(a[base..base + len])
    ensures 0 <= lo <= hi <= len
    ensures forall i :: base <= i < base + lo ==> Precedes(a[i], key, strict)
    ensures forall i :: base + hi <= i < base + len ==> !Precedes(a[i], key, strict)
  {
    if Precedes(a[base + hint], key, strict) {
      lo, hi := GallopUp(key, a, base, len, hint, strict);
    } else {
      lo, hi := GallopDown(key, a, base, len, hint, strict);
    }
  }

  /** Galloping to the right of a hint whose element precedes key. */
  method GallopUp(key: int, a: array<int>, base: int, len: int, hint: int, strict: bool)
    returns (lo: int, hi: int)
    requires a.Length <= INT_MAX
    requires 0 <= base && 0 < len && base + len <= a.Length
    requires 0 <= hint < len
    requires Sorted(a[base..base + len])
    requires Precedes(a[base + hint], key, strict)
    ensures 0 <= lo <= hi <= len
    ensures forall i :: base <= i < base + lo ==> Precedes(a[i], key, strict)
    ensures forall i :: base + hi <= i < base + len ==> !Precedes(a[i], key, strict)
  {
    var lastOfs := 0;
    var ofs := 1;
    // Gallop until a[base + hint + lastOfs] precedes key and a[base + hint + ofs] does not.
    var maxOfs := len - hint;
    while ofs < maxOfs && Precedes(a[base + hint + ofs], key, strict)
      invariant 0 <= lastOfs < ofs <= INT_MAX && lastOfs < maxOfs
      invariant Precedes(a[base + hint + lastOfs], key, strict)
      decreases maxOfs - lastOfs
    {
      lastOfs := ofs;
      DoublingStep(ofs);
      ofs := Wrap32(2 * ofs + 1);
      if ofs <= 0 {
        ofs := maxOfs;
      }
    }
    if ofs > maxOfs {
      ofs := maxOfs;
    }
    lastOfs := lastOfs + hint;
    ofs := ofs + hint;
    assert -1 <= lastOfs < ofs <= len;
    forall i | base <= i <= base + lastOfs ensures Precedes(a[i], key, strict) {
      PrecedesDownward(a, base, len, i, base + lastOfs, key, strict);
    }
    forall i | base + ofs <= i < base + len ensures !Precedes(a[i], key, strict) {
      PrecedesDownward(a, base, len, base + ofs, i, key, strict);
    }
    lo, hi := lastOfs + 1, ofs;
  }

  /** Galloping to the left of a hint whose element does not precede key. */
  method GallopDown(key: int, a: array<int>, base: int, len: int, hint: int, strict: bool)
    returns (lo: int, hi: int)
    requires a.Length <= INT_MAX
    requires 0 <= base && 0 < len && base + len <= a.Length
    requires 0 <= hint < len
    requires Sorted(a[base..base + len])
    requires !Precedes(a[base + hint], key, strict)
    ensures 0 <= lo <= hi <= len
    ensures forall i :: base <= i < base + lo ==> Precedes(a[i], key, strict)
    ensures forall i :: base + hi <= i < base + len ==> !Precedes(a[i], key, strict)
  {
    var lastOfs := 0;
    var ofs := 1;
    // Gallop until a[base + hint - ofs] precedes key and a[base + hint - lastOfs] does not.
    var maxOfs := hint + 1;
    while ofs < maxOfs && !Precedes(a[base + hint - ofs], key, strict)
      invariant 0 <= lastOfs < ofs <= INT_MAX && lastOfs < maxOfs
      invariant !Precedes(a[base + hint - lastOfs], key, strict)
      decreases maxOfs - lastOfs
    {
      lastOfs := ofs;
      DoublingStep(ofs);
      ofs := Wrap32(2 * ofs + 1);
      if ofs <= 0 {
        ofs := maxOfs;
      }
    }
    if ofs > maxOfs {
      ofs := maxOfs;
    }
    var t := lastOfs;
    lastOfs := hint - ofs;
    ofs := hint - t;
    assert -1 <= lastOfs < ofs <= len;
    forall i | base <= i <= base + lastOfs ensures Precedes(a[i], key, strict) {
      PrecedesDownward(a, base, len, i, base + lastOfs, key, strict);
    }
    forall i | base + ofs <= i < base + len ensures !Precedes(a[i], key, strict) {
      PrecedesDownward(a, base, len, base + ofs, i, key, strict);
    }
    lo, hi := lastOfs + 1, ofs;
  }

  /** The binary-search phase: narrows the bracket [lo, hi) to the boundary. */
  method BinaryNarrow(key: int, a: array<int>, base: int, len: int, lo: int, hi: int, strict: bool)
    returns (k: int)
    requires 0 <= base && 0 <= lo <= hi <= len && base + len <= a.Length
    requires Sorted(a[base..base + len])
    requires forall i :: base <= i < base + lo ==> Precedes(a[i], key, strict)
    requires forall i :: base + hi <= i < base + len ==> !Precedes(a[i], key, strict)
    ensures lo <= k <= hi
    ensures forall i :: base <= i < base + k ==> Precedes(a[i], key, strict)
    ensures forall i :: base + k <= i < base + len ==> !Precedes(a[i], key, strict)
  {
    var lastOfs, ofs := lo, hi;
    while lastOfs < ofs
      invariant lo <= lastOfs <= ofs <= hi
      invariant forall i :: base <= i < base + lastOfs ==> Precedes(a[i], key, strict)
      invariant forall i :: base + ofs <= i < base + len ==> !Precedes(a[i], key, strict)
    {
      var m := lastOfs + (ofs - lastOfs) / 2;
      if Precedes(a[base + m], key, strict) {
        forall i | base + lastOfs <= i <= base + m ensures Precedes(a[i], key, strict) {
          PrecedesDownward(a, base, len, i, base + m, key, strict);
        }
        lastOfs := m + 1;
      } else {
        forall i | base + m <= i < base + ofs ensures !Precedes(a[i], key, strict) {
          PrecedesDownward(a, base, len, base + m, i, key, strict);
        }
        ofs := m;
      }
    }
    k := ofs;
  }

  /**
   * The place of key in the sorted range a[base..base + len): the number k of
   * elements strictly below key, so that key goes before every element equal
   * to it.
   */
  method GallopLeft(key: int, a: array<int>, base: int, len: int, hint: int) returns (k: int)
    requires a.Length <= INT_MAX
    requires 0 <= base && 0 < len && base + len <= a.Length
    requires 0 <= hint < len
    requires Sorted(a[base..base + len])
    ensures 0 <= k <= len
    ensures forall i :: base <= i < base + k ==> a[i] < key
    ensures forall i :: base + k <= i < base + len ==> key <= a[i]
  {
    var lo, hi := GallopBracket(key, a, base, len, hint, true);
    k := BinaryNarrow(key, a, base, len, lo, hi, true);
  }

  /**
   * Like GallopLeft, but key goes after every element equal to it: k is the
   * number of elements of a[base..base + len) at most key.
   */
  method GallopRight(key: int, a: array<int>, base: int, len: int, hint: int) returns (k: int)
    requires a.Length <= INT_MAX
    requires 0 <= base && 0 < len && base + len <= a.Length
    requires 0 <= hint < len
    requires Sorted(a[base..base + len])
    ensures 0 <= k <= len
    ensures forall i :: base <= i < base + k ==> a[i] <= key
    ensures forall i :: base + k <= i < base + len ==> key < a[i]
  {
    var lo, hi := GallopBracket(key, a, base, len, hint, false);
    k := BinaryNarrow(key, a, base, len, lo, hi, false);
  }
}
