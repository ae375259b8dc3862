/** Facts about division by a variable, for sector, block and region arithmetic. */
module Multiples {

  lemma QuotientBounds(x: nat, k: nat)
    requires 0 < k
    ensures 0 <= x / k && x / k * k <= x < x / k * k + k
    ensures x == x / k * k + x % k
  {
    assert x == x / k * k + x % k;
  }

  lemma ModSmall(x: nat, m: nat)
    requires x < m
    ensures x % m == x
  {}

  lemma MulLe(x: nat, y: nat, k: nat)
    ensures x <= y ==> x * k <= y * k
  {}

  lemma MulRight(k: nat, x: nat, y: nat)
    ensures x <= y ==> k * x <= k * y
  {}

  lemma OnlyQuotient(x: nat, k: nat, q: nat, p: nat)
    requires q * k <= x < q * k + k && p * k <= x < p * k + k
    ensures p == q
  {
    MulLe(q + 1, p, k);
    MulLe(p + 1, q, k);
    assert (q + 1) * k == q * k + k && (p + 1) * k == p * k + k;
  }

  /** The quotient is the only q with q * k <= x < q * k + k. */
  lemma QuotientIs(x: nat, k: nat, q: nat)
    requires 0 < k && q * k <= x < q * k + k
    ensures x / k == q && x % k == x - q * k
  {
    QuotientBounds(x, k);
    OnlyQuotient(x, k, q, x / k);
  }

  lemma QuotientLimit(x: nat, k: nat, bound: nat)
    requires 0 < k
    ensures x / k < bound <==> x < bound * k
  {
    QuotientBounds(x, k);
    LimitCore(x, k, bound, x / k);
  }

  lemma LimitCore(x: nat, k: nat, bound: nat, q: nat)
    requires q * k <= x < q * k + k
    ensures q < bound <==> x < bound * k
  {
    MulLe(bound, q, k);
    MulLe(q + 1, bound, k);
    assert (q + 1) * k == q * k + k;
  }

  lemma QuotientShift(x: nat, n: nat, k: nat)
    requires 0 < k
    ensures (x + n * k) / k == x / k + n && (x + n * k) % k == x % k
  {
    QuotientBounds(x, k);
    assert (x / k + n) * k == x / k * k + n * k;
    QuotientIs(x + n * k, k, x / k + n);
  }

  lemma QuotientMonotone(x: nat, y: nat, k: nat)
    requires 0 < k && x <= y
    ensures x / k <= y / k
  {
    QuotientBounds(x, k);
    QuotientBounds(y, k);
    MulLe(y / k + 1, x / k, k);
    assert (y / k + 1) * k == y / k * k + k;
  }

  /** Multiples are closed under sum and difference. */
  lemma MultipleSum(x: nat, y: nat, k: nat)
    requires 0 < k && x % k == 0 && y % k == 0
    ensures (x + y) % k == 0 && (y <= x ==> (x - y) % k == 0)
  {
    QuotientBounds(x, k);
    QuotientBounds(y, k);
    var a, b := x / k, y / k;
    assert (a + b) * k == a * k + b * k;
    QuotientIs(x + y, k, a + b);
    if y <= x {
      MulLe(a + 1, b, k);
      assert (a + 1) * k == a * k + k;
      assert (a - b) * k == a * k - b * k;
      QuotientIs(x - y, k, a - b);
    }
  }

  lemma MultipleOfMultiple(n: nat, m: nat, k: nat)
    requires 0 < k && m % k == 0
    ensures (n * m) % k == 0
  {
    QuotientBounds(m, k);
    var c := m / k;
    assert n * m == (n * c) * k by { assert m == c * k; assert n * (c * k) == (n * c) * k; }
    QuotientIs(n * m, k, n * c);
  }

  /** The end of the unit of size k that contains x. */
  function UnitEnd(x: nat, k: nat): (e: nat)
    requires 0 < k
  {
    (x / k + 1) * k
  }

  lemma UnitEndIs(x: nat, k: nat)
    requires 0 < k
    ensures UnitEnd(x, k) == x / k * k + k
  {
    assert (x / k + 1) * k == x / k * k + k;
  }

  lemma UnitEndBounds(x: nat, k: nat)
    requires 0 < k
    ensures x < UnitEnd(x, k) <= x + k && UnitEnd(x, k) % k == 0
  {
    QuotientBounds(x, k);
    assert (x / k + 1) * k == x / k * k + k;
    QuotientIs(UnitEnd(x, k), k, x / k + 1);
  }

  /** All addresses up to its end lie in the same unit. */
  lemma SameUnit(x: nat, y: nat, k: nat)
    requires 0 < k && x <= y < UnitEnd(x, k)
    ensures UnitEnd(y, k) == UnitEnd(x, k) && y / k == x / k
  {
    var q := x / k;
    QuotientBounds(x, k);
    UnitEndIs(x, k);
    UnitEndIs(y, k);
    QuotientIs(y, k, q);
  }

  lemma UnitEndOfMultiple(x: nat, k: nat)
    requires 0 < k && x % k == 0
    ensures UnitEnd(x, k) == x + k
  {
    QuotientBounds(x, k);
    assert (x / k + 1) * k == x / k * k + k;
  }

  /** Whether y reaches the unit of x is a comparison of addresses, or of unit numbers. */
  lemma UnitReached(x: nat, y: nat, k: nat)
    requires 0 < k
    ensures x < UnitEnd(y, k) <==> x / k <= y / k
  {
    QuotientBounds(x, k);
    QuotientBounds(y, k);
    assert UnitEnd(y, k) == y / k * k + k;
    MulLe(y / k + 1, x / k, k);
    MulLe(x / k, y / k, k);
    assert (y / k + 1) * k == y / k * k + k;
  }

  /** Unit number `j` of size `k` shares an address with [addr, addr + length). */
  ghost predicate Meets(j: nat, k: nat, addr: nat, length: nat)
    requires 0 < k
  {
    exists x: nat :: addr <= x < addr + length && x / k == j
  }

  lemma UnitStartWithin(j: nat, k: nat, addr: nat, last: nat)
    requires 0 < k && addr / k < j <= last / k
    ensures addr <= j * k <= last && j * k / k == j
  {
    QuotientIs(j * k, k, j);
    QuotientBounds(addr, k);
    QuotientBounds(last, k);
    MulLe(addr / k + 1, j, k);
    MulLe(j, last / k, k);
    assert (addr / k + 1) * k == addr / k * k + k;
  }

  lemma {:induction false} MeetsBetween(j: nat, k: nat, addr: nat, length: nat)
    requires 0 < k && Meets(j, k, addr, length)
    ensures addr / k <= j <= (addr + length - 1) / k
  {
    var x: nat :| addr <= x < addr + length && x / k == j;
    QuotientMonotone(addr, x, k);
    QuotientMonotone(x, addr + length - 1, k);
  }

  /** The units of a nonempty range are those between the units of its two ends. */
  lemma {:induction false} MeetsIffBetween(j: nat, k: nat, addr: nat, length: nat)
    requires 0 < k && 0 < length
    ensures Meets(j, k, addr, length) <==> addr / k <= j <= (addr + length - 1) / k
  {
    if Meets(j, k, addr, length) {
      MeetsBetween(j, k, addr, length);
    } else if addr / k < j <= (addr + length - 1) / k {
      UnitStartWithin(j, k, addr, addr + length - 1);
    }
  }

  /** How much of a request falls into the unit of `start`; all of it stays aligned. */
  lemma ShareOfUnit(start: nat, length: nat, unit: nat, alignment: nat)
    requires 0 < alignment && 0 < unit && unit % alignment == 0
    requires start % alignment == 0 && length % alignment == 0 && 0 < length
    ensures var share := if length + start > UnitEnd(start, unit) then UnitEnd(start, unit) - start else length;
            && 0 < share <= length && share % alignment == 0
            && (start + share) % alignment == 0 && (length - share) % alignment == 0
            && start + share <= UnitEnd(start, unit)
  {
    var share := if length + start > UnitEnd(start, unit) then UnitEnd(start, unit) - start else length;
    UnitEndBounds(start, unit);
    MultipleOfMultiple(start / unit + 1, unit, alignment);
    MultipleSum(UnitEnd(start, unit), start, alignment);
    MultipleSum(start, share, alignment);
    MultipleSum(length, share, alignment);
  }

  /** ALIGN_UP for a power of two, in numbers. */
  function AlignUp(x: nat, k: nat): nat
    requires 0 < k
  {
    (x + k - 1) / k * k
  }
}
