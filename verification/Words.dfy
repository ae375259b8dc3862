/** 32-bit words as natural numbers: powers of two, masks and the drivers' ALIGN_UP macro. */
module Words {
  import opened Multiples

  const U32: nat := 0x1_0000_0000

  function Pow2(n: nat): (p: nat)
    ensures 0 < p
  {
    if n == 0 then 1 else 2 * Pow2(n - 1)
  }

  lemma Pow2At32()
    ensures Pow2(32) == 0x1_0000_0000
  {
    assert Pow2(8) == 0x100;
    assert Pow2(16) == 0x1_0000;
    assert Pow2(24) == 0x100_0000;
  }

  /** A power of two that a word can hold. */
  ghost predicate IsPow2(k: nat) {
    exists n: nat :: n < 32 && k == Pow2(n)
  }

  lemma {:induction false} Pow2Divides(n: nat, m: nat)
    requires n <= m
    ensures Pow2(m) % Pow2(n) == 0 && Pow2(n) <= Pow2(m)
    decreases m
  {
    if n == m {
      QuotientIs(Pow2(m), Pow2(n), 1);
    } else {
      Pow2Divides(n, m - 1);
      MultipleOfMultiple(2, Pow2(m - 1), Pow2(n));
    }
  }

  lemma {:induction false} DividesU32(k: nat)
    requires IsPow2(k)
    ensures 0 < k < U32 && U32 % k == 0
  {
    var n: nat :| n < 32 && k == Pow2(n);
    Pow2At32();
    Pow2Divides(n, 32);
    Pow2Divides(n, 31);
  }

  /** The C operator & on unsigned numbers. */
  function BitAnd(v: nat, w: nat): nat {
    if v == 0 || w == 0 then 0
    else 2 * BitAnd(v / 2, w / 2) + (if v % 2 == 1 && w % 2 == 1 then 1 else 0)
  }

  /** The C operator >> on unsigned numbers. */
  function ShiftRight(w: nat, k: nat): nat
    decreases k
  {
    if k == 0 then w else ShiftRight(w / 2, k - 1)
  }

  /** Bits below bit k are those of the lower part. */
  lemma {:induction false} LowBits(low: nat, high: nat, k: nat, i: nat)
    requires i < k
    ensures ShiftRight(low + Pow2(k) * high, i) % 2 == ShiftRight(low, i) % 2
    decreases i
  {
    HalfOf(low, Pow2(k - 1) * high);
    assert Pow2(k) * high == 2 * (Pow2(k - 1) * high);
    if i > 0 { LowBits(low / 2, high, k - 1, i - 1); }
  }

  /** From bit k on they are those of the upper part. */
  lemma {:induction false} HighPart(low: nat, high: nat, k: nat, i: nat)
    requires low < Pow2(k) && k <= i
    ensures ShiftRight(low + Pow2(k) * high, i) == ShiftRight(high, i - k)
    decreases k
  {
    if k > 0 {
      HalfOf(low, Pow2(k - 1) * high);
      assert Pow2(k) * high == 2 * (Pow2(k - 1) * high);
      HighPart(low / 2, high, k - 1, i - 1);
    }
  }

  lemma HalfOf(w: nat, p: nat)
    ensures (w + 2 * p) / 2 == w / 2 + p && (w + 2 * p) % 2 == w % 2
  {}

  /** The C operator - on a 32-bit word. */
  function Negate(x: nat): nat
    requires x < U32
  {
    (U32 - x) % U32
  }

  lemma {:induction false} MaskAll(y: nat, w: nat)
    requires y < Pow2(w)
    ensures BitAnd(y, Pow2(w) - 1) == y
    decreases w
  {
    if w > 0 && y > 0 {
      assert (Pow2(w) - 1) / 2 == Pow2(w - 1) - 1 && (Pow2(w) - 1) % 2 == 1;
      MaskAll(y / 2, w - 1);
    }
  }

  lemma HalfQuotient(y: nat, p: nat)
    requires 0 < p
    ensures y / (2 * p) == y / 2 / p
  {
    var q := y / 2 / p;
    QuotientBounds(y / 2, p);
    assert q * (2 * p) == 2 * (q * p);
    QuotientIs(y, 2 * p, q);
  }

  /** The mask 2^w - 2^n keeps the largest multiple of 2^n. */
  lemma {:induction false} MaskHigh(y: nat, w: nat, n: nat)
    requires n <= w && y < Pow2(w)
    ensures Pow2(n) <= Pow2(w) && BitAnd(y, Pow2(w) - Pow2(n)) == y / Pow2(n) * Pow2(n)
    decreases n
  {
    Pow2Divides(n, w);
    if n == 0 {
      MaskAll(y, w);
    } else {
      var mask, p, half := Pow2(w) - Pow2(n), Pow2(n - 1), y / 2;
      MaskHigh(half, w - 1, n - 1);
      TwiceRounded(y, p);
      assert mask / 2 == Pow2(w - 1) - p && mask % 2 == 0;
      if y == 0 || mask == 0 {
        EmptyMask(half, mask / 2);
      }
    }
  }

  lemma TwiceRounded(y: nat, p: nat)
    requires 0 < p
    ensures y / (2 * p) * (2 * p) == 2 * (y / 2 / p * p)
  {
    HalfQuotient(y, p);
    var q := y / 2 / p;
    assert q * (2 * p) == 2 * (q * p);
  }

  lemma EmptyMask(v: nat, w: nat)
    requires v == 0 || w == 0
    ensures BitAnd(v, w) == 0
  {}

  /** The macro, on 32-bit words. */
  function AlignUpBits(x: nat, a: nat): nat
    requires x < U32 && a < U32
  {
    var masked := BitAnd(Negate(x), Negate(a));
    if masked < U32 then Negate(masked) else 0
  }

  /** For a power of two the macro is rounding up to a multiple, modulo 2^32. */
  lemma {:induction false} AlignUpBitsIsAlignUp(x: nat, a: nat)
    requires x < U32 && IsPow2(a)
    ensures a < U32 && 0 <= AlignUp(x, a) && AlignUpBits(x, a) == AlignUp(x, a) % U32
  {
    var n: nat :| n < 32 && a == Pow2(n);
    DividesU32(a);
    Pow2At32();
    assert Negate(a) == Pow2(32) - Pow2(n);
    MaskHigh(Negate(x), 32, n);
    QuotientBounds(Negate(x), a);
    RoundedBack(x, a, Negate(x) / a);
  }

  /** Rounding the complement down is rounding up. */
  lemma RoundedBack(x: nat, a: nat, q: nat)
    requires x < U32 && 0 < a < U32 && U32 % a == 0 && q * a <= Negate(x) < q * a + a
    ensures 0 <= AlignUp(x, a) && q * a < U32 && Negate(q * a) == AlignUp(x, a) % U32
  {
    QuotientBounds(U32, a);
    var m: nat := U32 / a;
    if x == 0 {
      QuotientIs(a - 1, a, 0);
      OnlyQuotient(0, a, 0, q);
    } else {
      ComplementQuotient(x, a, q, m);
    }
  }

  lemma ComplementQuotient(x: nat, a: nat, q: nat, m: nat)
    requires 0 < x < U32 == m * a && q * a <= U32 - x < q * a + a && 0 < a
    ensures AlignUp(x, a) == U32 - q * a
  {
    MulLe(m, q, a);
    assert (m - q) * a == m * a - q * a;
    QuotientIs(x + a - 1, a, m - q);
  }

  /** Rounding up gives the least multiple that is not below its argument. */
  lemma AlignUpMeaning(x: nat, k: nat)
    requires 0 < k
    ensures 0 <= AlignUp(x, k) && AlignUp(x, k) % k == 0 && x <= AlignUp(x, k) < x + k
  {
    QuotientBounds(x + k - 1, k);
    QuotientIs(AlignUp(x, k), k, (x + k - 1) / k);
  }

  /** Where no wrap-around can happen, the macro is AlignUp, the least multiple not below its argument. */
  lemma {:induction false} AlignUpBitsMeaning(x: nat, a: nat)
    requires x < U32 && a < U32 && IsPow2(a) && x <= U32 - a
    ensures var r := AlignUpBits(x, a); r == AlignUp(x, a) && r % a == 0 && x <= r < x + a
  {
    AlignUpBitsIsAlignUp(x, a);
    AlignUpMeaning(x, a);
    ModSmall(AlignUp(x, a), U32);
  }

  /** The drivers' way to the end of the current unit: align up, and step on if already aligned. */
  lemma {:induction false} AlignUpToUnitEnd(x: nat, k: nat)
    requires x < U32 && k < U32 && IsPow2(k) && x <= U32 - k
    ensures 0 < k && (if AlignUpBits(x, k) == x then AlignUpBits(x, k) + k else AlignUpBits(x, k)) == UnitEnd(x, k)
  {
    AlignUpBitsMeaning(x, k);
    AlignedUnitEnd(x, k, AlignUp(x, k));
  }

  lemma AlignedUnitEnd(x: nat, k: nat, r: nat)
    requires 0 < k && r % k == 0 && x <= r < x + k
    ensures (if r == x then r + k else r) == UnitEnd(x, k)
  {
    QuotientBounds(r, k);
    UnitEndIs(x, k);
    if r != x {
      var q := r / k;
      assert (q - 1) * k == q * k - k;
      QuotientIs(x, k, q - 1);
    }
  }
}
