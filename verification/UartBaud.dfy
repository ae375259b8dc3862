/**
 * The fractional baud rate divisor of UART_Init and UART_SetBaudRate: the rate is
 * 2 * clock / (32 * sbr + brfa), computed in the widths the driver uses.
 */
module UartBaud {
  import opened Multiples
  import opened Words

  const U16: nat := 0x1_0000

  datatype Divisor = Divisor(sbr: nat, brfa: nat, rate: int, diff: int)

  /** SBR and BRFA from clock / (16 * baud) and 2 * clock / baud, in 16 bits each. */
  function Fields(coarse: int, fine: int): (f: (nat, nat))
    ensures 0 < f.0 < U16 && f.1 < U16
  {
    var sbr := if coarse % U16 == 0 then 1 else coarse % U16;
    (sbr, (fine - 32 * sbr) % U16)
  }

  /** The rate of a divisor and its distance from `baud`, for twice the clock. */
  function RateOf(doubled: int, baud: nat, sbr: nat, brfa: nat): Divisor
    requires 0 < sbr
  {
    var rate := doubled / (sbr * 32 + brfa);
    Divisor(sbr, brfa, rate, if rate > baud then rate - baud else baud - rate)
  }

  function DivisorOf(doubled: int, coarse: int, fine: int, baud: nat): (d: Divisor)
    ensures 0 < d.sbr < U16 && d.brfa < U16
  {
    var (sbr, brfa) := Fields(coarse, fine);
    RateOf(doubled, baud, sbr, brfa)
  }

  /** SBR and BRFA, the rate they give and its distance from `baud`, with every wrap-around of the C code. */
  function ComputeDivisor(clock: nat, baud: nat): (d: Divisor)
    requires 0 < baud && 16 * baud < U32
  {
    var doubled := (2 * clock) % U32;
    DivisorOf(doubled, clock / (16 * baud), doubled / baud, baud)
  }

  /** Three percent of `baud`, in the driver's order of operations. */
  function Tolerance(baud: nat): nat {
    baud / 100 * 3
  }

  lemma MulLess(x: nat, y: nat, k: nat)
    ensures x <= y ==> x * k <= y * k
    ensures x < y && 0 < k ==> x * k < y * k
  {}

  /** No smaller quotient than `b` fits between the bounds of `a`. */
  lemma QuotientAtMost(x: nat, k: nat, q: nat, a: nat, b: nat)
    requires b * q <= x < a * k + k && 0 < k <= q
    ensures b <= a
  {
    MulRight(b, k, q);
    MulLess(a + 1, b, k);
    assert (a + 1) * k == a * k + k;
  }

  /** The integer part of 32 * sbr + brfa is the best divisor there is. */
  lemma DivisorSplits(clock: nat, baud: nat)
    requires 0 < baud && 16 * baud <= clock
    ensures var s, q := clock / (16 * baud), 2 * clock / baud; 0 < s && 32 * s <= q < 32 * s + 32
  {
    var s, q := clock / (16 * baud), 2 * clock / baud;
    QuotientBounds(clock, 16 * baud);
    QuotientBounds(2 * clock, baud);
    SplitBounds(clock, baud, s, q);
  }

  lemma SplitBounds(clock: nat, baud: nat, s: nat, q: nat)
    requires 0 < baud && 16 * baud <= clock
    requires s * (16 * baud) <= clock < s * (16 * baud) + 16 * baud && q * baud <= 2 * clock < q * baud + baud
    ensures 0 < s && 32 * s <= q < 32 * s + 32
  {
    var m := s * baud;
    assert s * (16 * baud) == 16 * m;
    assert (32 * s) * baud == 32 * m && (32 * s + 32) * baud == 32 * m + 32 * baud;
    QuotientAtMost(2 * clock, baud, baud, q, 32 * s);
    if q >= 32 * s + 32 { MulLess(32 * s + 32, q, baud); }
    if s == 0 { assert false; }
  }

  /** Rounding the divisor down raises the rate by at most one 32nd. */
  lemma RateBound(x: nat, baud: nat)
    requires 0 < baud && 32 <= x / baud
    ensures baud <= x / (x / baud) <= baud + baud / 32
  {
    var q := x / baud;
    QuotientBounds(x, baud);
    QuotientBounds(x, q);
    RateCore(x, baud, q, x / q);
  }

  lemma RateCore(x: nat, baud: nat, q: nat, r: nat)
    requires q * baud <= x < q * baud + baud && r * q <= x < r * q + q && 32 <= q
    ensures baud <= r <= baud + baud / 32
  {
    assert q * baud == baud * q && (r + 1) * q == r * q + q;
    if r < baud { MulLess(r + 1, baud, q); }
    var e := r - baud;
    assert r * q == baud * q + e * q;
    MulRight(e, 32, q);
  }

  /** The computation without wrap-around in 2 * clock. */
  lemma ComputedFrom(clock: nat, baud: nat, s: nat, q: nat)
    requires 0 < baud && 16 * baud < U32 && 2 * clock < U32
    requires s == clock / (16 * baud) && q == 2 * clock / baud
    ensures ComputeDivisor(clock, baud) == DivisorOf(2 * clock, s, q, baud)
  {
    ModSmall(2 * clock, U32);
  }

  lemma FastFields(s: nat, q: nat)
    requires 0 < s < U16 && 32 * s <= q < 32 * s + 32
    ensures Fields(s, q) == (s, q - 32 * s)
  {
    ModSmall(s, U16);
    ModSmall(q - 32 * s, U16);
  }

  /** A quotient too small for SBR = 1 wraps around. */
  lemma SlowFields(q: nat)
    requires q < 32
    ensures Fields(0, q) == (1, q - 32 + U16)
  {}

  /** The divisor of fields that make up q. */
  lemma DivisorIs(doubled: int, coarse: int, fine: int, baud: nat, sbr: nat, brfa: nat, q: nat, rate: int)
    requires Fields(coarse, fine) == (sbr, brfa) && 0 < sbr && sbr * 32 + brfa == q && rate == doubled / q
    ensures DivisorOf(doubled, coarse, fine, baud)
            == Divisor(sbr, brfa, rate, if rate > baud then rate - baud else baud - rate)
  {}

  /**
   * The fractional baud bound: when the clock is fast enough and nothing overflows, the divisor is
   * floor(2 * clock / baud) split in 32nds, and the rate lies between baud and baud + baud/32.
   */
  lemma FractionalBaud(clock: nat, baud: nat)
    requires 0 < baud && 16 * baud <= clock && 2 * clock < U32 && clock / (16 * baud) < U16
    ensures var d, q := ComputeDivisor(clock, baud), 2 * clock / baud;
            && d.sbr * 32 + d.brfa == q && d.brfa < 32 && 32 <= q
            && d.rate == 2 * clock / q && baud <= d.rate <= baud + baud / 32
            && d.diff == d.rate - baud
  {
    var s, q := clock / (16 * baud), 2 * clock / baud;
    DivisorSplits(clock, baud);
    ComputedFrom(clock, baud, s, q);
    RateBound(2 * clock, baud);
    FastFields(s, q);
    DivisorIs(2 * clock, s, q, baud, s, q - 32 * s, q, 2 * clock / q);
  }

  /** The divisor is the best one: no other 32nd gives a rate that is at least baud and closer. */
  lemma DivisorBest(clock: nat, baud: nat, k: nat)
    requires 0 < baud && 16 * baud <= clock && 2 * clock < U32 && clock / (16 * baud) < U16
    requires 0 < k && baud <= 2 * clock / k
    ensures ComputeDivisor(clock, baud).rate <= 2 * clock / k
  {
    FractionalBaud(clock, baud);
    SwapQuotient(2 * clock, k, baud);
    QuotientDecreases(2 * clock, k, 2 * clock / baud);
  }

  lemma SwapQuotient(x: nat, k: nat, baud: nat)
    requires 0 < k && 0 < baud && baud <= x / k
    ensures k <= x / baud
  {
    QuotientBounds(x, k);
    QuotientBounds(x, baud);
    MulLess(baud, x / k, k);
    assert k * baud == baud * k;
    QuotientAtMost(x, baud, baud, x / baud, k);
  }

  lemma QuotientDecreases(x: nat, k: nat, q: nat)
    requires 0 < k <= q
    ensures x / q <= x / k
  {
    QuotientBounds(x, k);
    QuotientBounds(x, q);
    QuotientAtMost(x, k, q, x / k, x / q);
  }

  lemma SmallQuotient(x: nat, k: nat, r: nat, bound: nat)
    requires r * k <= x < 32 * bound && 0x8000 <= k
    ensures r <= bound / 2
  {
    MulRight(r, 0x8000, k);
  }

  /** A rate that small is out of any tolerance. */
  lemma FarOff(baud: nat, rate: int)
    requires 0 < baud && rate <= baud / 2
    ensures rate < baud && baud - rate > Tolerance(baud)
  {}

  lemma QuotientBelow(x: nat, k: nat, bound: nat)
    requires 0 < k && x < bound * k
    ensures 0 <= x / k < bound
  {
    QuotientBounds(x, k);
    MulLess(bound, x / k, k);
  }

  lemma WrappedDouble(clock: nat)
    ensures 0 <= (2 * clock) % U32 <= 2 * clock
  {}

  /** The wrapped divisor of a clock too slow is at least 2^16, which makes the rate absurdly small. */
  lemma SlowDivisor(doubled: nat, baud: nat, q: nat)
    requires 0 < baud && doubled < 32 * baud && q < 32
    ensures var d := DivisorOf(doubled, 0, q, baud); d.diff > Tolerance(baud)
  {
    var divisor: nat := q + U16;
    var rate: int := doubled / divisor;
    SlowFields(q);
    DivisorIs(doubled, 0, q, baud, 1, q - 32 + U16, divisor, rate);
    QuotientBounds(doubled, divisor);
    SmallQuotient(doubled, divisor, rate, baud);
    FarOff(baud, rate);
  }

  /** A clock too slow for the rate is always refused. */
  lemma SlowClockRejected(clock: nat, baud: nat)
    requires 0 < baud && 16 * baud < U32 && clock < 16 * baud
    ensures ComputeDivisor(clock, baud).diff > Tolerance(baud)
  {
    var doubled := (2 * clock) % U32;
    WrappedDouble(clock);
    QuotientIs(clock, 16 * baud, 0);
    QuotientBelow(doubled, baud, 32);
    SlowDivisor(doubled, baud, doubled / baud);
  }

  // ---------------------------------------------------------------- the driver

  /** UART_Init accepts an error up to the tolerance, UART_SetBaudRate only one below it. */
  predicate InitAccepts(clock: nat, baud: nat)
    requires 0 < baud && 16 * baud < U32
  {
    ComputeDivisor(clock, baud).diff <= Tolerance(baud)
  }

  predicate SetAccepts(clock: nat, baud: nat)
    requires 0 < baud && 16 * baud < U32
  {
    ComputeDivisor(clock, baud).diff < Tolerance(baud)
  }

  /** Clocks for which the divisor has its full value: SBR and BRFA neither go below zero nor wrap. */
  predicate InRange(clock: nat, baud: nat) {
    16 * baud <= clock < 0x10_0000 * baud
  }

  /** For q = floor(2 * clock / baud), the rate floor(2 * clock / q) is at most `limit`. */
  predicate RateAtMost(clock: nat, baud: nat, limit: int)
    requires 0 < baud
  {
    2 * clock < (limit + 1) * (2 * clock / baud)
  }

  datatype Status = Success | BaudrateNotSupport

  class UartRegisters {
    var sbr: nat
    var brfa: nat
    var transmitter: bool
    var receiver: bool

    /** The baud rate part of UART_Init. */
    method InitBaudRate(clock: nat, baud: nat) returns (status: Status)
      requires 0 < baud && 16 * baud < U32
      modifies this
      ensures status == Success <==> InitAccepts(clock, baud)
      ensures 2 * clock < U32 ==>
                (status == Success <==> InRange(clock, baud) && RateAtMost(clock, baud, baud + baud / 100 * 3))
      ensures status == Success ==> Programmed(ComputeDivisor(clock, baud)) && !transmitter && !receiver
      ensures status == Success && 2 * clock < U32 && clock < 0x2_0000 * baud ==>
                && 32 <= 32 * sbr + brfa
                && baud <= 2 * clock / (32 * sbr + brfa) <= baud + baud / 100 * 3
      ensures status != Success ==> unchanged(this)
    {
      if 2 * clock < U32 { AcceptedRate(clock, baud); }
      var d := ComputeDivisor(clock, baud);
      if d.diff > baud / 100 * 3 {
        return BaudrateNotSupport;
      }
      transmitter, receiver := false, false;
      sbr := d.sbr % 0x2000;
      brfa := d.brfa % 32;
      return Success;
    }

    /** UART_SetBaudRate keeps transmitter and receiver as they were. */
    method SetBaudRate(clock: nat, baud: nat) returns (status: Status)
      requires 0 < baud && 16 * baud < U32
      modifies this
      ensures status == Success <==> SetAccepts(clock, baud)
      ensures 2 * clock < U32 ==>
                (status == Success <==> InRange(clock, baud) && RateAtMost(clock, baud, baud + baud / 100 * 3 - 1))
      ensures status == Success ==> Programmed(ComputeDivisor(clock, baud))
      ensures status == Success && 2 * clock < U32 && clock < 0x2_0000 * baud ==>
                && 32 <= 32 * sbr + brfa
                && baud <= 2 * clock / (32 * sbr + brfa) < baud + baud / 100 * 3
      ensures transmitter == old(transmitter) && receiver == old(receiver)
      ensures status != Success ==> unchanged(this)
    {
      if 2 * clock < U32 { AcceptedRate(clock, baud); }
      var d := ComputeDivisor(clock, baud);
      if d.diff < baud / 100 * 3 {
        var oldTe, oldRe := transmitter, receiver;
        transmitter, receiver := false, false;
        sbr := d.sbr % 0x2000;
        brfa := d.brfa % 32;
        transmitter, receiver := oldTe, oldRe;
        return Success;
      } else {
        return BaudrateNotSupport;
      }
    }

    /** The 13-bit SBR and 5-bit BRFA fields hold this divisor. */
    predicate Programmed(d: Divisor)
      reads this
    {
      sbr == d.sbr % 0x2000 && brfa == d.brfa % 32
    }
  }

  /**
   * UART_SetBaudRate accepts only what UART_Init accepts, and refuses one of those if and only if the
   * clock is fast enough, SBR does not wrap, and 2 * clock / q, where q = floor(2 * clock / baud), exceeds
   * the rate by exactly its tolerance.
   */
  lemma SetAcceptsLessThanInit(clock: nat, baud: nat, q: nat)
    requires 0 < baud && 16 * baud < U32 && 2 * clock < U32 && q == 2 * clock / baud
    ensures SetAccepts(clock, baud) ==> InitAccepts(clock, baud)
    ensures InitAccepts(clock, baud) && !SetAccepts(clock, baud) <==>
            && 16 * baud <= clock < 0x10_0000 * baud && 0 < q
            && 2 * clock / q == baud + baud / 100 * 3
  {
    if clock < 16 * baud {
      SlowClockRejected(clock, baud);
    } else {
      CoarseFits(clock, baud);
      if clock < 0x10_0000 * baud {
        FractionalBaud(clock, baud);
      } else {
        WideClockRejected(clock, baud);
      }
    }
  }

  /** Below 100 baud the tolerance is 0, so UART_SetBaudRate refuses every rate, however exact. */
  lemma NoSlowRates(clock: nat, baud: nat)
    requires 0 < baud < 100
    ensures !SetAccepts(clock, baud)
  {
    assert Tolerance(baud) == 0;
    DiffNotNegative(clock, baud);
  }

  lemma DiffNotNegative(clock: nat, baud: nat)
    requires 0 < baud && 16 * baud < U32
    ensures 0 <= ComputeDivisor(clock, baud).diff
  {}

  /** 100 baud from 1648 Hz is three baud off, the tolerance; 50 baud from 800 Hz is exact. */
  lemma ToleranceGap()
    ensures ComputeDivisor(1648, 100) == Divisor(1, 0, 103, 3) && Tolerance(100) == 3
    ensures InitAccepts(1648, 100) && !SetAccepts(1648, 100)
    ensures ComputeDivisor(800, 50) == Divisor(1, 0, 50, 0)
    ensures InitAccepts(800, 50) && !SetAccepts(800, 50)
  {
    assert Fields(1, 32) == (1, 0);
    assert 1648 / 1600 == 1 && (2 * 1648) % U32 == 3296 && 3296 / 100 == 32 && 3296 / 32 == 103;
    assert 800 / 800 == 1 && (2 * 800) % U32 == 1600 && 1600 / 50 == 32 && 1600 / 32 == 50;
  }

  /** The quotient by 16 * baud fits 16 bits exactly below 2^20 times the rate. */
  lemma CoarseFits(clock: nat, baud: nat)
    requires 0 < baud
    ensures clock / (16 * baud) < U16 <==> clock < 0x10_0000 * baud
  {
    QuotientLimit(clock, 16 * baud, U16);
    assert U16 * (16 * baud) == 0x10_0000 * baud;
  }

  /** From there on SBR wraps, and the divisor is at most half of what it should be. */
  lemma WrappedFields(coarse: nat, fine: nat)
    requires U16 <= coarse && 32 * coarse <= fine < 32 * coarse + 32
    ensures var (sbr, brfa) := Fields(coarse, fine); 0 < sbr && 2 * (sbr * 32 + brfa) <= fine
  {
    var k, low, r := coarse / U16, coarse % U16, fine - 32 * coarse;
    assert coarse == k * U16 + low && 1 <= k;
    assert fine == 32 * k * U16 + 32 * low + r;
    if low == 0 {
      WrappedRest(32 * k - 1, U16 + r - 32);
      assert fine - 32 == (32 * k - 1) * U16 + (U16 + r - 32);
    } else {
      WrappedRest(32 * k, r);
    }
  }

  lemma WrappedRest(k: nat, r: nat)
    requires r < U16
    ensures (k * U16 + r) % U16 == r
  {}

  /** Half the divisor gives at least twice the rate. */
  lemma HalfDivisor(x: nat, baud: nat, q: nat, divisor: nat)
    requires 0 < divisor && 2 * divisor <= q && q * baud <= x
    ensures 2 * baud <= x / divisor
  {
    MulLess(2 * divisor, q, baud);
    assert (2 * divisor) * baud == (2 * baud) * divisor;
    QuotientLimit(x, divisor, 2 * baud);
  }

  lemma DoubleIsFarOff(baud: nat, rate: int)
    requires 0 < baud && 2 * baud <= rate
    ensures rate - baud > Tolerance(baud)
  {}

  /** A clock so fast that SBR wraps is always refused. */
  lemma WideClockRejected(clock: nat, baud: nat)
    requires 0 < baud && 0x10_0000 * baud <= clock && 2 * clock < U32
    ensures 16 * baud < U32 && ComputeDivisor(clock, baud).diff > Tolerance(baud)
  {
    var coarse, q := clock / (16 * baud), 2 * clock / baud;
    CoarseFits(clock, baud);
    DivisorSplits(clock, baud);
    ComputedFrom(clock, baud, coarse, q);
    WrappedFields(coarse, q);
    var (sbr, brfa) := Fields(coarse, q);
    var divisor := sbr * 32 + brfa;
    QuotientBounds(2 * clock, baud);
    HalfDivisor(2 * clock, baud, q, divisor);
    var rate := 2 * clock / divisor;
    DivisorIs(2 * clock, coarse, q, baud, sbr, brfa, divisor, rate);
    DoubleIsFarOff(baud, rate);
  }

  /**
   * The register fields take floor(2 * clock / baud) if and only if the clock is below 2^17 times the
   * rate.  From there up to 2^20 times the rate it is accepted all the same, and the field silently loses
   * its upper bits; above, UART_Init refuses it.
   */
  lemma ProgrammedRate(clock: nat, baud: nat)
    requires 0 < baud && 16 * baud <= clock && 2 * clock < U32
    ensures var d := ComputeDivisor(clock, baud);
            (d.sbr % 0x2000) * 32 + d.brfa % 32 == 2 * clock / baud <==> clock < 0x2_0000 * baud
    ensures clock >= 0x2_0000 * baud ==> (InitAccepts(clock, baud) <==> clock < 0x10_0000 * baud)
  {
    CoarseFits(clock, baud);
    var d := ComputeDivisor(clock, baud);
    if clock < 0x10_0000 * baud {
      FractionalBaud(clock, baud);
      FieldWidths(d.sbr, d.brfa);
      CoarseLimit(clock, baud);
      if clock >= 0x2_0000 * baud {
        FineIsClose(2 * clock, baud, 2 * clock / baud, d.rate);
      }
    } else {
      WideClockRejected(clock, baud);
      QuotientLimit(2 * clock, baud, 0x4_0000);
      FieldsAreSmall(d.sbr, d.brfa);
    }
  }

  /** Acceptance on clock and rate alone, and the rate that the register fields give. */
  lemma AcceptedRate(clock: nat, baud: nat)
    requires 0 < baud && 16 * baud < U32 && 2 * clock < U32
    ensures InitAccepts(clock, baud) <==> InRange(clock, baud) && RateAtMost(clock, baud, baud + Tolerance(baud))
    ensures SetAccepts(clock, baud) <==> InRange(clock, baud) && RateAtMost(clock, baud, baud + Tolerance(baud) - 1)
    ensures InRange(clock, baud) && clock < 0x2_0000 * baud ==>
              var d := ComputeDivisor(clock, baud);
              && 32 <= 32 * (d.sbr % 0x2000) + d.brfa % 32
              && 2 * clock / (32 * (d.sbr % 0x2000) + d.brfa % 32) == d.rate >= baud
              && d.diff == d.rate - baud
  {
    if clock < 16 * baud {
      SlowClockRejected(clock, baud);
    } else {
      CoarseFits(clock, baud);
      if clock < 0x10_0000 * baud {
        FractionalBaud(clock, baud);
        var q := 2 * clock / baud;
        QuotientLimit(2 * clock, q, baud + Tolerance(baud) + 1);
        QuotientLimit(2 * clock, q, baud + Tolerance(baud));
        ProgrammedRate(clock, baud);
      } else {
        WideClockRejected(clock, baud);
      }
    }
  }

  lemma FieldsAreSmall(sbr: nat, brfa: nat)
    ensures (sbr % 0x2000) * 32 + brfa % 32 < 0x4_0000
  {}

  /** SBR, the quotient by 16 * baud, needs a 14th bit exactly from there on. */
  lemma CoarseLimit(clock: nat, baud: nat)
    requires 0 < baud && 16 * baud <= clock && 2 * clock < U32 && clock / (16 * baud) < U16
    ensures ComputeDivisor(clock, baud).sbr < 0x2000 <==> clock < 0x20000 * baud
    ensures clock >= 0x20000 * baud ==> 0x40000 <= 2 * clock / baud
  {
    FractionalBaud(clock, baud);
    QuotientLimit(2 * clock, baud, 0x40000);
  }

  /** A fine divisor gives a rate within any tolerance. */
  lemma FineIsClose(x: nat, baud: nat, q: nat, rate: int)
    requires 0 < baud && 0x40000 <= q == x / baud && rate == x / q && baud <= rate
    ensures rate - baud <= Tolerance(baud)
  {
    QuotientBounds(x, baud);
    QuotientBounds(x, q);
    CloseCore(x, baud, q, rate - baud);
  }

  lemma CloseCore(x: nat, baud: nat, q: nat, e: nat)
    requires (baud + e) * q <= x < q * baud + baud && 0x40000 <= q
    ensures e <= Tolerance(baud)
  {
    assert (baud + e) * q == q * baud + e * q;
    MulRight(e, 0x40000, q);
  }

  /** 300 baud from 39.3 MHz is exact and accepted, but the SBR field is left 0. */
  lemma SbrOverflows()
    ensures ComputeDivisor(39_321_600, 300) == Divisor(0x2000, 0, 300, 0)
    ensures InitAccepts(39_321_600, 300) && 0x2000 % 0x2000 == 0
  {
    assert 39_321_600 / 4800 == 0x2000 && (2 * 39_321_600) % U32 == 78_643_200;
    assert 78_643_200 / 300 == 0x40000 && 78_643_200 / 0x40000 == 300;
    assert Fields(0x2000, 0x40000) == (0x2000, 0);
  }

  lemma FieldWidths(sbr: nat, brfa: nat)
    requires brfa < 32
    ensures (sbr % 0x2000) * 32 + brfa % 32 == sbr * 32 + brfa <==> sbr < 0x2000
  {
    assert sbr % 0x2000 == sbr <==> sbr < 0x2000;
  }
}
