/**
 * minRunLength: the minimum length TimSort extends a short run to, for an
 * array of n elements, and what that length means for the number of runs.
 */
module TimSortMinRun {
  /** Arrays shorter than this are sorted by binary insertion alone. */
  const MIN_MERGE := 32

  /** The value left once minRunLength has shifted n below MIN_MERGE. */
  ghost function Shifted(n: nat): nat {
    if n < MIN_MERGE then n else Shifted(n / 2)
  }

  /** Whether minRunLength shifts out a 1 bit on its way down. */
  ghost predicate BitDropped(n: nat) {
    n >= MIN_MERGE && (n % 2 == 1 || BitDropped(n / 2))
  }

  /** How many times minRunLength halves n. */
  ghost function Shifts(n: nat): nat {
    if n < MIN_MERGE then 0 else 1 + Shifts(n / 2)
  }

  /** The minimum run length TimSort uses for an array of n elements. */
  ghost function MinRun(n: nat): nat {
    Shifted(n) + (if BitDropped(n) then 1 else 0)
  }

  /**
   * minRunLength: halve n until it is below MIN_MERGE, and add one if any
   * bit shifted out was set.
   */
  method MinRunLength(n: int) returns (r: int)
    requires n >= 0
    ensures r == MinRun(n)
    ensures n < MIN_MERGE ==> r == n
    ensures n >= MIN_MERGE ==> MIN_MERGE / 2 <= r <= MIN_MERGE
  {
    var m := n;
    var bit := 0;
    ShiftedBounds(n);
    while m >= MIN_MERGE
      invariant 0 <= m && (bit == 0 || bit == 1)
      invariant MinRun(n) == Shifted(m) + (if bit == 1 || BitDropped(m) then 1 else 0)
      invariant n < MIN_MERGE ==> m == n && bit == 0
    {
      // r |= (n & 1); n >>= 1;
      if m % 2 == 1 {
        bit := 1;
      }
      m := m / 2;
    }
    r := m + bit;
  }

  lemma {:induction false} ShiftedBounds(n: nat)
    ensures n < MIN_MERGE ==> Shifted(n) == n
    ensures n >= MIN_MERGE ==> MIN_MERGE / 2 <= Shifted(n) < MIN_MERGE
  {
    if n >= MIN_MERGE {
      ShiftedBounds(n / 2);
    }
  }

  /** minRunLength(n) is n for short arrays and between 16 and 32 otherwise. */
  lemma MinRunBounds(n: nat)
    ensures n < MIN_MERGE ==> MinRun(n) == n
    ensures n >= MIN_MERGE ==> MIN_MERGE / 2 <= MinRun(n) <= MIN_MERGE
  {
    ShiftedBounds(n);
  }

  /** 2 to the power k. */
  function Pow2(k: nat): (p: nat)
    ensures p >= 1
  {
    if k == 0 then 1 else 2 * Pow2(k - 1)
  }

  /** The bits minRunLength shifts out of n, read as a number. */
  ghost function Dropped(n: nat): nat {
    if n < MIN_MERGE then 0 else n % 2 + 2 * Dropped(n / 2)
  }

  /** n splits into Shifted(n) whole blocks of 2^Shifts(n) and the dropped bits. */
  lemma {:induction false} ShiftDecomposition(n: nat)
    ensures n == Pow2(Shifts(n)) * Shifted(n) + Dropped(n)
    ensures Dropped(n) < Pow2(Shifts(n))
    ensures BitDropped(n) <==> Dropped(n) > 0
  {
    if n >= MIN_MERGE {
      var m := n / 2;
      ShiftDecomposition(m);
      var p, q, d := Pow2(Shifts(m)), Shifted(m), Dropped(m);
      assert Pow2(Shifts(n)) == 2 * p;
      assert Shifted(n) == q && Dropped(n) == n % 2 + 2 * d;
      DoubleProduct(p, q);
    }
  }

  lemma DoubleProduct(p: int, q: int)
    ensures 2 * (p * q) == (2 * p) * q
  {
  }

  /**
   * For n >= MIN_MERGE, with 2^k the number of halvings, the array splits into
   * at most 2^k runs of minRunLength(n) elements, and into more than 2^k runs
   * of one element less: n / minRunLength(n) is close to, but at most, a power
   * of two.
   */
  lemma MinRunIsCeilingQuotient(n: nat)
    requires n >= MIN_MERGE
    ensures var p := Pow2(Shifts(n)); p * (MinRun(n) - 1) < n <= p * MinRun(n)
  {
    ShiftDecomposition(n);
    var p: int, q: int, d: int := Pow2(Shifts(n)), Shifted(n), Dropped(n);
    Distribute(p, q);
    if d == 0 {
      assert MinRun(n) == q;
    } else {
      assert MinRun(n) == q + 1;
    }
  }

  lemma Distribute(p: int, q: int)
    ensures p * (q + 1) == p * q + p && p * (q - 1) == p * q - p
  {
  }

  /** For a power of two at least MIN_MERGE, minRunLength is MIN_MERGE / 2. */
  lemma MinRunOfPowerOfTwo(k: nat)
    requires k >= 5
    ensures Pow2(k) >= MIN_MERGE
    ensures MinRun(Pow2(k)) == MIN_MERGE / 2
  {
    PowerOfTwoShifted(k);
  }

  lemma {:induction false} PowerOfTwoShifted(k: nat)
    requires k >= 4
    ensures Pow2(k) >= MIN_MERGE / 2 && (k >= 5 ==> Pow2(k) >= MIN_MERGE)
    ensures Shifted(Pow2(k)) == MIN_MERGE / 2 && !BitDropped(Pow2(k))
  {
    if k == 4 {
      assert Pow2(4) == 16;
    } else {
      PowerOfTwoShifted(k - 1);
      assert Pow2(k) / 2 == Pow2(k - 1) && Pow2(k) % 2 == 0;
    }
  }

  lemma MinRunExamples()
    ensures MinRun(31) == 31 && MinRun(32) == 16 && MinRun(63) == 32
    ensures MinRun(64) == 16 && MinRun(65) == 17
  {
  }
}
