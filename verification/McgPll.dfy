/**
 * The PLL divider search CLOCK_CalcPllDiv and the frequency CLOCK_GetPll0Freq reads back.  The device
 * constants FSL_FEATURE_MCG_PLL_* are parameters.
 */
module McgPll {
  import opened Multiples
  import opened Words

  /** `prdivField`, a power of two, is how many values the PRDIV field of the register holds. */
  datatype PllFeatures = PllFeatures(refMin: nat, refMax: nat, prdivBase: nat, prdivMax: nat, prdivField: nat,
                                     vdivBase: nat) {
    ghost predicate Shape() {
      0 < refMin <= refMax <= 2 * refMin && 0 < prdivBase && 0 < vdivBase < 200 && prdivMax < prdivField
    }

    /** What the search relies on; the last two clauses keep its 32-bit arithmetic from wrapping. */
    ghost predicate Valid() {
      && Shape()
      && vdivBase * refMax <= (vdivBase + 32) * refMin
      && refMax * (prdivMax + prdivBase + 1) < U32
      && (vdivBase + 31) * refMax < U32 - 1
    }
  }

  /** The two fields to program, the frequency they give; or nothing. */
  datatype PllChoice = NoChoice | Choice(prdiv: nat, vdiv: nat, freq: nat)

  /** The frequency for divider p and multiplier v. */
  function Freq(refFreq: nat, p: nat, v: nat): nat
    requires 0 < p
  {
    v * (refFreq / p)
  }

  function Distance(a: nat, b: nat): nat {
    if a < b then b - a else a - b
  }

  function InRange(f: PllFeatures, refFreq: nat): bool {
    f.refMin <= refFreq <= f.refMax * (f.prdivMax + f.prdivBase)
  }

  function PrdivMax(f: PllFeatures, refFreq: nat): nat
    requires 0 < f.refMin
  {
    refFreq / f.refMin
  }

  function PrdivMin(f: PllFeatures, refFreq: nat): nat
    requires 0 < f.refMin <= f.refMax
  {
    (refFreq + f.refMax - 1) / f.refMax
  }

  /** This divider keeps the reference within its limits. */
  predicate KeepsReference(f: PllFeatures, refFreq: nat, p: nat) {
    0 < p && p * f.refMin <= refFreq <= p * f.refMax
  }

  /** The pairs there are to choose from. */
  predicate Allowed(f: PllFeatures, refFreq: nat, p: nat, v: nat) {
    KeepsReference(f, refFreq, p) && f.vdivBase <= v <= f.vdivBase + 31
  }

  /** The choice is allowed, its frequency is what its fields give, and no allowed pair comes closer. */
  ghost predicate Optimal(f: PllFeatures, refFreq: nat, desired: nat, c: PllChoice)
    requires 0 < f.prdivBase && c.Choice?
  {
    && Allowed(f, refFreq, c.prdiv + f.prdivBase, c.vdiv + f.vdivBase)
    && c.freq == Freq(refFreq, c.prdiv + f.prdivBase, c.vdiv + f.vdivBase)
    && forall p: nat, v: nat :: Allowed(f, refFreq, p, v) ==>
         Distance(c.freq, desired) <= Distance(Freq(refFreq, p, v), desired)
  }

  /** Of several allowed pairs that hit the target one with the largest divider is taken. */
  ghost predicate FirstExact(f: PllFeatures, refFreq: nat, desired: nat, c: PllChoice)
    requires c.Choice?
  {
    c.freq == desired ==>
      forall p: nat, v: nat :: Allowed(f, refFreq, p, v) && Freq(refFreq, p, v) == desired ==>
        p <= c.prdiv + f.prdivBase
  }

  /** The target lies above the multiple before the first and below the multiple after the last one of this divider. */
  predicate Reaches(f: PllFeatures, refFreq: nat, desired: nat, p: nat)
    requires 0 < f.vdivBase
  {
    && KeepsReference(f, refFreq, p)
    && (f.vdivBase - 1) * (refFreq / p) <= desired < (f.vdivBase + 32) * (refFreq / p)
  }

  ghost predicate SomeReaches(f: PllFeatures, refFreq: nat, desired: nat)
    requires 0 < f.vdivBase
  {
    exists p: nat :: Reaches(f, refFreq, desired, p)
  }

  /** The pairs within the driver's bounds for the divider. */
  predicate Bounded(f: PllFeatures, refFreq: nat, p: nat, v: nat)
    requires 0 < f.refMin <= f.refMax
  {
    && 0 < p && PrdivMin(f, refFreq) <= p <= PrdivMax(f, refFreq)
    && f.vdivBase <= v <= f.vdivBase + 31
  }

  /** The dividers the search looks at: those whose lower candidate is in range or just below it. */
  predicate Tried(f: PllFeatures, refFreq: nat, desired: nat, p: nat)
    requires 0 < p
  {
    0 < refFreq / p && f.vdivBase <= desired / (refFreq / p) + 1 <= f.vdivBase + 32
  }

  // ---------------------------------------------------------------- arithmetic

  lemma Quotient(x: nat, k: nat) returns (q: nat)
    requires 0 < k
    ensures q == x / k && q * k <= x < q * k + k
  {
    QuotientBounds(x, k);
    q := x / k;
  }

  lemma QuotientLess(x: nat, k: nat, q: nat)
    requires 0 < k && x < q * k
    ensures x / k < q
  {
    QuotientBounds(x, k);
    if q <= x / k { MulLe(q, x / k, k); }
  }

  lemma QuotientAtLeast(x: nat, k: nat, q: nat)
    requires 0 < k && q * k <= x
    ensures q <= x / k
  {
    QuotientBounds(x, k);
    if x / k + 1 <= q { MulLe(x / k + 1, q, k); }
  }

  /** The driver's two bounds are exactly the limits of the reference. */
  lemma BoundsAreLimits(f: PllFeatures, refFreq: nat, p: nat)
    requires 0 < f.refMin <= f.refMax && 0 < p
    ensures PrdivMin(f, refFreq) <= p <= PrdivMax(f, refFreq) <==> KeepsReference(f, refFreq, p)
  {
    QuotientLimit(refFreq, f.refMin, p);
    QuotientLimit(refFreq + f.refMax - 1, f.refMax, p + 1);
    assert (p + 1) * f.refMax == p * f.refMax + f.refMax;
  }

  /** Between the two divider bounds the reference stays within its limits. */
  lemma ReferenceRange(f: PllFeatures, refFreq: nat, p: nat)
    requires 0 < f.refMin <= f.refMax && 0 < p
    requires PrdivMin(f, refFreq) <= p <= PrdivMax(f, refFreq)
    ensures f.refMin <= refFreq / p <= f.refMax
  {
    QuotientBounds(refFreq, f.refMin);
    MulLe(p, refFreq / f.refMin, f.refMin);
    assert f.refMin * p == p * f.refMin;
    QuotientAtLeast(refFreq, p, f.refMin);
    QuotientBounds(refFreq + f.refMax - 1, f.refMax);
    MulLe((refFreq + f.refMax - 1) / f.refMax, p, f.refMax);
    assert f.refMax * p == p * f.refMax;
    assert refFreq <= f.refMax * p;
    assert (f.refMax + 1) * p == f.refMax * p + p;
    QuotientLess(refFreq, p, f.refMax + 1);
  }

  // ---------------------------------------------------------------- why two candidates per divider suffice

  /** A distance that no multiplier in range beats for the reference r. */
  ghost predicate Beats(f: PllFeatures, r: nat, desired: nat, best: nat) {
    forall v :: f.vdivBase <= v <= f.vdivBase + 31 ==> best <= Distance(v * r, desired)
  }

  /** For one reference the multiples just below and just above the target, where in range, beat all others. */
  lemma NearestBeat(f: PllFeatures, r: nat, n: nat, desired: nat, best: nat)
    requires n * r <= desired < n * r + r
    requires f.vdivBase <= n + 1 <= f.vdivBase + 32
    requires f.vdivBase <= n ==> best <= desired - n * r
    requires n < f.vdivBase + 31 ==> best <= n * r + r - desired
    ensures Beats(f, r, desired, best)
  {
    forall v | f.vdivBase <= v <= f.vdivBase + 31 ensures best <= Distance(v * r, desired) {
      MulLe(v, n, r);
      MulLe(n + 1, v, r);
      assert (n + 1) * r == n * r + r;
    }
  }

  /** What beats all multiples of r is small. */
  lemma BeatsIsSmall(f: PllFeatures, r: nat, n: nat, desired: nat, best: nat)
    requires n * r <= desired < n * r + r
    requires f.vdivBase <= n + 1 <= f.vdivBase + 32
    requires Beats(f, r, desired, best)
    ensures f.vdivBase <= n ==> best <= desired - n * r
    ensures n < f.vdivBase + 31 ==> best <= n * r + r - desired
  {
    assert (n + 1) * r == n * r + r;
    if f.vdivBase <= n <= f.vdivBase + 31 { assert best <= Distance(n * r, desired); }
    if n < f.vdivBase + 31 { assert best <= Distance((n + 1) * r, desired); }
  }

  /** A reference so coarse that even its smallest multiple is far above the target. */
  lemma TooCoarse(b: nat, r: nat, r': nat, n: nat, n': nat, desired: nat, v: nat)
    requires n * r <= desired < n' * r' + r'
    requires n' + 2 <= b <= v && b <= n + 1
    ensures r < Distance(v * r', desired)
  {
    MulLe(n' + 2, v, r');
    assert (n' + 2) * r' == n' * r' + 2 * r';
    MulLe(n' + 1, n, r);
    MulLe(r', r, n' + 1);
    assert r' * (n' + 1) == n' * r' + r' && r * (n' + 1) == (n' + 1) * r;
  }

  /** A reference so fine that even its largest multiple is at least one reference below the target. */
  lemma TooFine(b: nat, r': nat, n': nat, desired: nat, v: nat)
    requires n' * r' <= desired && b + 32 <= n' && v <= b + 31
    ensures v * r' <= (b + 31) * r' && (b + 31) * r' + r' <= desired
  {
    MulLe(v, b + 31, r');
    MulLe(b + 32, n', r');
    assert (b + 32) * r' == (b + 31) * r' + r';
  }

  /** The assumption on the limits: if one reference is too fine, no other is tried only from below. */
  lemma NoOverlap(f: PllFeatures, r: nat, r': nat, n: nat, desired: nat)
    requires f.Shape() && f.vdivBase * f.refMax <= (f.vdivBase + 32) * f.refMin
    requires r <= f.refMax && f.refMin <= r'
    requires n + 1 <= f.vdivBase && (f.vdivBase + 31) * r' + r' <= desired
    ensures desired >= n * r + r
  {
    MulLe(n + 1, f.vdivBase, r);
    MulLe(r, f.refMax, f.vdivBase);
    MulLe(f.refMin, r', f.vdivBase + 32);
    assert (n + 1) * r == n * r + r;
    assert f.vdivBase * r == r * f.vdivBase && f.vdivBase * f.refMax == f.refMax * f.vdivBase;
    assert (f.vdivBase + 32) * f.refMin == f.refMin * (f.vdivBase + 32);
    assert r' * (f.vdivBase + 32) == (f.vdivBase + 31) * r' + r';
  }

  /** If the coarser reference reaches the target only with its largest multiple, it gets closer. */
  lemma LargestMultiple(k: nat, r: nat, r': nat, desired: nat)
    requires k * r <= desired < k * r + r && k * r' + r' <= desired
    ensures k * r' <= k * r
  {
    MulLe(r, r', k + 1);
    assert r * (k + 1) == k * r + r && r' * (k + 1) == k * r' + r';
    MulLe(r', r, k);
    assert r' * k == k * r' && r * k == k * r;
  }

  lemma PrunedCases(f: PllFeatures, r: nat, r': nat, n: nat, n': nat, desired: nat, v: nat, best: nat)
    requires f.Shape() && f.vdivBase * f.refMax <= (f.vdivBase + 32) * f.refMin
    requires r <= f.refMax <= 2 * r' && f.refMin <= r'
    requires n * r <= desired < n * r + r && n' * r' <= desired < n' * r' + r'
    requires f.vdivBase <= n + 1 <= f.vdivBase + 32
    requires !(f.vdivBase <= n' + 1 <= f.vdivBase + 32)
    requires f.vdivBase <= v <= f.vdivBase + 31
    requires f.vdivBase <= n ==> best <= desired - n * r
    requires n < f.vdivBase + 31 ==> best <= n * r + r - desired
    ensures best <= Distance(v * r', desired)
  {
    if n' + 1 < f.vdivBase {
      TooCoarse(f.vdivBase, r, r', n, n', desired, v);
    } else {
      TooFine(f.vdivBase, r', n', desired, v);
      if n + 1 <= f.vdivBase {
        NoOverlap(f, r, r', n, desired);
      } else if n == f.vdivBase + 31 {
        LargestMultiple(n, r, r', desired);
      }
    }
  }

  /**
   * The pruning is safe: what beats all multiples of a tried reference also beats those of a reference
   * that is not tried.
   */
  lemma PrunedNoBetter(f: PllFeatures, r: nat, r': nat, n: nat, n': nat, desired: nat, best: nat)
    requires f.Shape() && f.vdivBase * f.refMax <= (f.vdivBase + 32) * f.refMin
    requires f.refMin <= r <= f.refMax && f.refMin <= r' <= f.refMax
    requires n * r <= desired < n * r + r && n' * r' <= desired < n' * r' + r'
    requires f.vdivBase <= n + 1 <= f.vdivBase + 32
    requires !(f.vdivBase <= n' + 1 <= f.vdivBase + 32)
    requires Beats(f, r, desired, best)
    ensures Beats(f, r', desired, best)
  {
    BeatsIsSmall(f, r, n, desired, best);
    forall v | f.vdivBase <= v <= f.vdivBase + 31 ensures best <= Distance(v * r', desired) {
      PrunedCases(f, r, r', n, n', desired, v, best);
    }
  }

  // ---------------------------------------------------------------- the search

  /** The request fits the widths of the search: 8-bit dividers and multipliers, 32-bit frequencies. */
  ghost predicate Fits(f: PllFeatures, refFreq: nat, desired: nat) {
    && f.Valid()
    && refFreq < U32 && desired < U32 && desired < 256 * f.refMin
    && (InRange(f, refFreq) ==> Widths(f, refFreq))
  }

  /** Every divider in question has a field value and fits 8 bits. */
  predicate Widths(f: PllFeatures, refFreq: nat) {
    (f.prdivBase - 1) * f.refMax < refFreq <= 255 * f.refMax && refFreq < 256 * f.refMin
  }

  lemma WidthsBound(f: PllFeatures, refFreq: nat)
    requires f.Shape() && Widths(f, refFreq)
    ensures f.prdivBase <= PrdivMin(f, refFreq) < 256 && 0 <= PrdivMax(f, refFreq) < 256
  {
    QuotientLimit(refFreq, f.refMin, 256);
    QuotientBounds(refFreq, f.refMin);
    QuotientLimit(refFreq + f.refMax - 1, f.refMax, f.prdivBase);
    QuotientLimit(refFreq + f.refMax - 1, f.refMax, 256);
    assert (f.prdivBase - 1) * f.refMax == f.prdivBase * f.refMax - f.refMax;
  }

  /** The best found so far, after all dividers above `from` have been looked at. */
  datatype Best = Best(found: bool, prdiv: nat, vdiv: nat, diff: nat)

  ghost predicate BestAbove(f: PllFeatures, refFreq: nat, desired: nat, from: nat, b: Best)
    requires f.Shape()
  {
    && (b.found ==>
          && Bounded(f, refFreq, b.prdiv, b.vdiv) && Tried(f, refFreq, desired, b.prdiv)
          && b.diff == Distance(Freq(refFreq, b.prdiv, b.vdiv), desired)
          && Beats(f, refFreq / b.prdiv, desired, b.diff))
    && (b.found <==> b.diff != U32 - 1)
    && (b.found <==> exists p :: 0 < p && from < p <= PrdivMax(f, refFreq) && Tried(f, refFreq, desired, p))
    && (forall p :: 0 < p && from < p <= PrdivMax(f, refFreq) && Tried(f, refFreq, desired, p) ==>
          Beats(f, refFreq / p, desired, b.diff))
  }

  /** The choice is allowed, its frequency is what its fields give, and no allowed pair comes closer. */
  ghost predicate BestPair(f: PllFeatures, refFreq: nat, desired: nat, c: PllChoice)
    requires f.Shape() && c.Choice?
  {
    && Bounded(f, refFreq, c.prdiv + f.prdivBase, c.vdiv + f.vdivBase)
    && c.freq == Freq(refFreq, c.prdiv + f.prdivBase, c.vdiv + f.vdivBase)
    && forall p: nat, v: nat :: Bounded(f, refFreq, p, v) ==>
         Distance(c.freq, desired) <= Distance(Freq(refFreq, p, v), desired)
  }

  /** What beats all multiples of one tried reference, and of every tried one, beats those of any other. */
  lemma BeatsAll(f: PllFeatures, refFreq: nat, desired: nat, p: nat, p': nat, best: nat)
    requires f.Shape() && f.vdivBase * f.refMax <= (f.vdivBase + 32) * f.refMin
    requires 0 < p && PrdivMin(f, refFreq) <= p <= PrdivMax(f, refFreq)
    requires 0 < p' && PrdivMin(f, refFreq) <= p' <= PrdivMax(f, refFreq)
    requires Tried(f, refFreq, desired, p) && Beats(f, refFreq / p, desired, best)
    requires Tried(f, refFreq, desired, p') ==> Beats(f, refFreq / p', desired, best)
    ensures Beats(f, refFreq / p', desired, best)
  {
    ReferenceRange(f, refFreq, p);
    ReferenceRange(f, refFreq, p');
    if !Tried(f, refFreq, desired, p') {
      var r, r' := refFreq / p, refFreq / p';
      var n := Quotient(desired, r);
      var n' := Quotient(desired, r');
      PrunedNoBetter(f, r, r', n, n', desired, best);
    }
  }

  /** The best of the tried dividers is the best of all pairs. */
  lemma BestIsOptimal(f: PllFeatures, refFreq: nat, desired: nat, b: Best, p: nat, v: nat)
    requires f.Shape() && f.vdivBase * f.refMax <= (f.vdivBase + 32) * f.refMin
    requires 0 < PrdivMin(f, refFreq) && b.found
    requires BestAbove(f, refFreq, desired, PrdivMin(f, refFreq) - 1, b)
    requires Bounded(f, refFreq, p, v)
    ensures b.diff <= Distance(Freq(refFreq, p, v), desired)
  {
    BeatsAll(f, refFreq, desired, b.prdiv, p, b.diff);
    var r := refFreq / p;
    assert v * r == Freq(refFreq, p, v);
  }

  /** What one turn does to the best so far: nothing, or it takes a closer candidate of this divider. */
  ghost predicate Turned(f: PllFeatures, r: nat, n: nat, desired: nat, p: nat, b: Best, b': Best) {
    if !(f.vdivBase <= n + 1 <= f.vdivBase + 32) then b' == b
    else
      && b'.diff <= b.diff && Beats(f, r, desired, b'.diff)
      && (b' == b ||
          (b'.found && b'.prdiv == p && f.vdivBase <= b'.vdiv <= f.vdivBase + 31 &&
           b'.diff == Distance(b'.vdiv * r, desired)))
  }

  lemma BeatsLess(f: PllFeatures, r: nat, desired: nat, best: nat, best': nat)
    requires Beats(f, r, desired, best) && best' <= best
    ensures Beats(f, r, desired, best')
  {}

  lemma TurnedKeepsBest(f: PllFeatures, refFreq: nat, desired: nat, p: nat, r: nat, n: nat, b: Best, b': Best)
    requires f.Shape() && 0 < p && PrdivMin(f, refFreq) <= p <= PrdivMax(f, refFreq)
    requires r == refFreq / p && 0 < r && n == desired / r
    requires BestAbove(f, refFreq, desired, p, b) && Turned(f, r, n, desired, p, b, b')
    requires f.vdivBase <= n + 1 <= f.vdivBase + 32 ==> b'.diff < U32 - 1
    ensures BestAbove(f, refFreq, desired, p - 1, b')
  {
    assert Tried(f, refFreq, desired, p) <==> f.vdivBase <= n + 1 <= f.vdivBase + 32;
    if Tried(f, refFreq, desired, p) {
      TriedKeepsBest(f, refFreq, desired, p, b, b');
    } else {
      forall p' | 0 < p' && p - 1 < p' <= PrdivMax(f, refFreq) && Tried(f, refFreq, desired, p')
        ensures p < p'
      {}
    }
  }

  lemma TriedKeepsBest(f: PllFeatures, refFreq: nat, desired: nat, p: nat, b: Best, b': Best)
    requires f.Shape() && 0 < p && PrdivMin(f, refFreq) <= p <= PrdivMax(f, refFreq)
    requires Tried(f, refFreq, desired, p) && BestAbove(f, refFreq, desired, p, b)
    requires b'.diff <= b.diff && Beats(f, refFreq / p, desired, b'.diff) && b'.diff < U32 - 1
    requires b' == b || (b'.found && b'.prdiv == p && f.vdivBase <= b'.vdiv <= f.vdivBase + 31 &&
                         b'.diff == Distance(b'.vdiv * (refFreq / p), desired))
    ensures BestAbove(f, refFreq, desired, p - 1, b')
  {
    forall p' | 0 < p' && p - 1 < p' <= PrdivMax(f, refFreq) && Tried(f, refFreq, desired, p')
      ensures Beats(f, refFreq / p', desired, b'.diff)
    {
      if p' != p { BeatsLess(f, refFreq / p', desired, b.diff, b'.diff); }
    }
  }

  /** One turn of the search: the two candidates of one divider. */
  method Consider(f: PllFeatures, refDiv: nat, desired: nat, prdivCur: nat, b: Best, ghost n: nat)
    returns (b': Best, exact: bool)
    requires f.Shape() && 0 < refDiv && n == desired / refDiv < 256
    requires n * refDiv <= desired < n * refDiv + refDiv
    requires n < f.vdivBase + 31 ==> n * refDiv + refDiv < U32 - 1
    requires desired < U32 && refDiv < U32 - 1 && b.diff <= U32 - 1
    ensures !exact ==> Turned(f, refDiv, n, desired, prdivCur, b, b')
    ensures !exact && f.vdivBase <= n + 1 <= f.vdivBase + 32 ==> b'.diff < U32 - 1
    ensures exact ==> b'.prdiv == prdivCur && f.vdivBase <= b'.vdiv <= f.vdivBase + 31
    ensures exact ==> b'.vdiv * refDiv == desired
    ensures exact <==> f.vdivBase <= n <= f.vdivBase + 31 && n * refDiv == desired
    ensures b'.diff < U32
  {
    b', exact := b, false;
    ModSmall(n, 256);
    var vdivCur: nat := (desired / refDiv) % 256;
    assert vdivCur == n;
    if vdivCur < f.vdivBase - 1 || vdivCur > f.vdivBase + 31 {
      return;
    }
    ghost var lo := n * refDiv;
    assert (n + 1) * refDiv == lo + refDiv;
    var retFreq := vdivCur * refDiv;
    assert retFreq == lo;
    if vdivCur >= f.vdivBase {
      if retFreq == desired {
        return Best(true, prdivCur, vdivCur, 0), true;
      }
      if b'.diff > desired - retFreq {
        b' := Best(true, prdivCur, vdivCur, desired - retFreq);
      }
    }
    vdivCur := (vdivCur + 1) % 256;
    if vdivCur <= f.vdivBase + 31 {
      ModSmall(lo + refDiv, U32);
      retFreq := (retFreq + refDiv) % U32;
      if b'.diff > retFreq - desired {
        b' := Best(true, prdivCur, vdivCur, retFreq - desired);
      }
    }
    NearestBeat(f, refDiv, n, desired, b'.diff);
  }

  /** Both candidates of a divider lie within one reference of the target and within 32 bits. */
  lemma CandidateSizes(f: PllFeatures, r: nat, desired: nat) returns (n: nat)
    requires f.Valid() && f.refMin <= r <= f.refMax && desired < 256 * f.refMin
    ensures n == desired / r < 256 && n * r <= desired < n * r + r
    ensures n < f.vdivBase + 31 ==> n * r + r < U32 - 1
    ensures r < U32 - 1
  {
    n := Quotient(desired, r);
    MulLe(256, n, r);
    CandidateBound(n, r, f.vdivBase + 31, f.refMax, U32 - 1);
  }

  /** A product is bounded by that of the bounds of its factors. */
  lemma CandidateBound(n: nat, r: nat, v: nat, max: nat, bound: nat)
    requires 0 < v && r <= max && v * max < bound
    ensures r < bound && (n < v ==> n * r + r < bound)
  {
    MulRight(v, r, max);
    MulLe(n + 1, v, r);
    MulLe(1, v, r);
    assert (n + 1) * r == n * r + r;
  }

  lemma TurnSetup(f: PllFeatures, refFreq: nat, desired: nat, p: nat) returns (r: nat, n: nat)
    requires Fits(f, refFreq, desired) && 0 < p && PrdivMin(f, refFreq) <= p <= PrdivMax(f, refFreq)
    ensures r == refFreq / p && 0 < r < U32 - 1 && n == desired / r < 256 && desired < U32
    ensures n * r <= desired < n * r + r
    ensures n < f.vdivBase + 31 ==> n * r + r < U32 - 1
  {
    ReferenceRange(f, refFreq, p);
    r := refFreq / p;
    n := CandidateSizes(f, r, desired);
  }

  /** One whole turn of the loop. */
  method Turn(f: PllFeatures, refFreq: nat, desired: nat, prdivCur: nat, b: Best) returns (b': Best, exact: bool)
    requires Fits(f, refFreq, desired) && 0 < prdivCur
    requires PrdivMin(f, refFreq) <= prdivCur <= PrdivMax(f, refFreq)
    requires BestAbove(f, refFreq, desired, prdivCur, b) && b.diff < U32
    ensures b'.diff < U32
    ensures !exact ==> BestAbove(f, refFreq, desired, prdivCur - 1, b')
    ensures exact ==>
              && b'.prdiv == prdivCur && Bounded(f, refFreq, prdivCur, b'.vdiv)
              && Tried(f, refFreq, desired, prdivCur)
    ensures exact ==> Freq(refFreq, prdivCur, b'.vdiv) == desired
    ensures !exact ==> NoExactAt(f, refFreq, desired, prdivCur)
  {
    ghost var r, n := TurnSetup(f, refFreq, desired, prdivCur);
    var refDiv := refFreq / prdivCur;
    b', exact := Consider(f, refDiv, desired, prdivCur, b, n);
    if exact {
      ExactIsTried(f, refDiv, desired, b'.vdiv);
    } else {
      forall v | f.vdivBase <= v <= f.vdivBase + 31 ensures v * refDiv != desired {
        if v * refDiv == desired { ExactIsTried(f, refDiv, desired, v); }
      }
      TurnedKeepsBest(f, refFreq, desired, prdivCur, r, n, b, b');
    }
  }

  /** No multiplier in range hits the target with this divider. */
  ghost predicate NoExactAt(f: PllFeatures, refFreq: nat, desired: nat, p: nat)
    requires 0 < p
  {
    forall v: nat :: f.vdivBase <= v <= f.vdivBase + 31 ==> Freq(refFreq, p, v) != desired
  }

  ghost predicate NoExactAbove(f: PllFeatures, refFreq: nat, desired: nat, from: nat)
    requires 0 < f.refMin
  {
    forall p: nat :: 0 < p && from < p <= PrdivMax(f, refFreq) ==> NoExactAt(f, refFreq, desired, p)
  }

  /** Of several pairs that hit the target the one with the largest divider is taken. */
  ghost predicate FirstBounded(f: PllFeatures, refFreq: nat, desired: nat, c: PllChoice)
    requires f.Shape() && c.Choice?
  {
    c.freq == desired ==> NoExactAbove(f, refFreq, desired, c.prdiv + f.prdivBase)
  }

  ghost predicate SomeTried(f: PllFeatures, refFreq: nat, desired: nat)
    requires f.Shape()
  {
    exists p :: 0 < p && PrdivMin(f, refFreq) <= p <= PrdivMax(f, refFreq) && Tried(f, refFreq, desired, p)
  }

  lemma BestChoice(f: PllFeatures, refFreq: nat, desired: nat, b: Best, c: PllChoice)
    requires Fits(f, refFreq, desired) && InRange(f, refFreq) && 0 < PrdivMin(f, refFreq)
    requires BestAbove(f, refFreq, desired, PrdivMin(f, refFreq) - 1, b)
    requires b.found ==> b.prdiv >= f.prdivBase
    requires b.found ==> c == Choice(b.prdiv - f.prdivBase, b.vdiv - f.vdivBase, Freq(refFreq, b.prdiv, b.vdiv))
    ensures b.found <==> SomeTried(f, refFreq, desired)
    ensures b.found ==> BestPair(f, refFreq, desired, c)
  {
    if b.found {
      forall p: nat, v: nat | Bounded(f, refFreq, p, v)
        ensures Distance(c.freq, desired) <= Distance(Freq(refFreq, p, v), desired)
      {
        BestIsOptimal(f, refFreq, desired, b, p, v);
      }
    }
  }

  /** For a divider within the bounds, being looked at is being able to come next to the target. */
  lemma TriedIsReaching(f: PllFeatures, refFreq: nat, desired: nat, p: nat)
    requires f.Shape() && 0 < p
    ensures PrdivMin(f, refFreq) <= p <= PrdivMax(f, refFreq) && Tried(f, refFreq, desired, p)
            <==> Reaches(f, refFreq, desired, p)
  {
    BoundsAreLimits(f, refFreq, p);
    if PrdivMin(f, refFreq) <= p <= PrdivMax(f, refFreq) {
      ReferenceRange(f, refFreq, p);
      var r := refFreq / p;
      QuotientLimit(desired, r, f.vdivBase - 1);
      QuotientLimit(desired, r, f.vdivBase + 32);
    }
  }

  lemma {:induction false} SomeTriedReaches(f: PllFeatures, refFreq: nat, desired: nat)
    requires f.Shape()
    ensures SomeTried(f, refFreq, desired) <==> SomeReaches(f, refFreq, desired)
  {
    if SomeTried(f, refFreq, desired) {
      var p: nat :| 0 < p && PrdivMin(f, refFreq) <= p <= PrdivMax(f, refFreq) && Tried(f, refFreq, desired, p);
      TriedIsReaching(f, refFreq, desired, p);
    }
    if SomeReaches(f, refFreq, desired) {
      var p: nat :| Reaches(f, refFreq, desired, p);
      TriedIsReaching(f, refFreq, desired, p);
    }
  }

  lemma AllowedIsBounded(f: PllFeatures, refFreq: nat, p: nat, v: nat)
    requires f.Shape()
    ensures Allowed(f, refFreq, p, v) <==> Bounded(f, refFreq, p, v)
  {
    if 0 < p { BoundsAreLimits(f, refFreq, p); }
  }

  /** A pair that hits the target has no larger divider than the first one found. */
  lemma NoLargerExact(f: PllFeatures, refFreq: nat, desired: nat, from: nat, p: nat, v: nat)
    requires f.Shape() && NoExactAbove(f, refFreq, desired, from)
    requires Bounded(f, refFreq, p, v)
    ensures Freq(refFreq, p, v) == desired ==> p <= from
  {
    if from < p { assert NoExactAt(f, refFreq, desired, p); }
  }

  lemma {:induction false} BestPairIsOptimal(f: PllFeatures, refFreq: nat, desired: nat, c: PllChoice)
    requires f.Shape() && c.Choice? && BestPair(f, refFreq, desired, c)
    ensures Optimal(f, refFreq, desired, c)
  {
    AllowedIsBounded(f, refFreq, c.prdiv + f.prdivBase, c.vdiv + f.vdivBase);
    forall p: nat, v: nat | Allowed(f, refFreq, p, v)
      ensures Distance(c.freq, desired) <= Distance(Freq(refFreq, p, v), desired)
    {
      AllowedIsBounded(f, refFreq, p, v);
    }
  }

  lemma {:induction false} FirstBoundedIsFirst(f: PllFeatures, refFreq: nat, desired: nat, c: PllChoice)
    requires f.Shape() && c.Choice? && FirstBounded(f, refFreq, desired, c)
    ensures FirstExact(f, refFreq, desired, c)
  {
    if c.freq == desired {
      forall p: nat, v: nat | Allowed(f, refFreq, p, v) && Freq(refFreq, p, v) == desired
        ensures p <= c.prdiv + f.prdivBase
      {
        AllowedIsBounded(f, refFreq, p, v);
        NoLargerExact(f, refFreq, desired, c.prdiv + f.prdivBase, p, v);
      }
    }
  }

  /**
   * CLOCK_CalcPllDiv.  It finds something exactly when the reference is in range and some divider that
   * keeps it within its limits has a multiple next to the target; then the pair is globally optimal.
   */
  method CalcPllDiv(f: PllFeatures, refFreq: nat, desired: nat) returns (c: PllChoice)
    requires Fits(f, refFreq, desired)
    ensures c.Choice? <==>
              && f.refMin <= refFreq <= f.refMax * (f.prdivMax + f.prdivBase)
              && SomeReaches(f, refFreq, desired)
    ensures c.Choice? ==> Optimal(f, refFreq, desired, c) && FirstExact(f, refFreq, desired, c)
  {
    if refFreq < f.refMin || refFreq > f.refMax * (f.prdivMax + f.prdivBase) {
      return NoChoice;
    }
    PrdivMinBelow(f, refFreq);
    WidthsBound(f, refFreq);
    ModSmall(PrdivMax(f, refFreq), 256);
    ModSmall(PrdivMin(f, refFreq), 256);
    var prdivMax: nat := (refFreq / f.refMin) % 256;
    var prdivMin: nat := ((refFreq + f.refMax - 1) / f.refMax) % 256;
    c := Search(f, refFreq, desired, prdivMin, prdivMax);
    SomeTriedReaches(f, refFreq, desired);
    if c.Choice? {
      BestPairIsOptimal(f, refFreq, desired, c);
      FirstBoundedIsFirst(f, refFreq, desired, c);
    }
  }

  /** The traversal of the dividers. */
  method Search(f: PllFeatures, refFreq: nat, desired: nat, prdivMin: nat, prdivMax: nat) returns (c: PllChoice)
    requires Fits(f, refFreq, desired) && InRange(f, refFreq) && f.prdivBase <= PrdivMin(f, refFreq)
    requires 0 < prdivMin == PrdivMin(f, refFreq) <= prdivMax + 1 && prdivMax == PrdivMax(f, refFreq)
    ensures c.NoChoice? <==> !SomeTried(f, refFreq, desired)
    ensures c.Choice? ==> BestPair(f, refFreq, desired, c) && FirstBounded(f, refFreq, desired, c)
  {
    var b := Best(false, 0, 0, 0xFFFF_FFFF);
    var prdivCur := prdivMax;
    while prdivCur >= prdivMin
      invariant prdivMin - 1 <= prdivCur <= prdivMax && b.diff < U32
      invariant BestAbove(f, refFreq, desired, prdivCur, b) && NoExactAbove(f, refFreq, desired, prdivCur)
    {
      var b', exact := Turn(f, refFreq, desired, prdivCur, b);
      if exact {
        return Choice(prdivCur - f.prdivBase, b'.vdiv - f.vdivBase, desired);
      }
      b := b';
      prdivCur := prdivCur - 1;
    }
    if b.diff != 0xFFFF_FFFF {
      c := Choice(b.prdiv - f.prdivBase, b.vdiv - f.vdivBase, refFreq / b.prdiv * b.vdiv);
    } else {
      c := NoChoice;
    }
    BestChoice(f, refFreq, desired, b, c);
  }

  lemma ExactIsTried(f: PllFeatures, r: nat, desired: nat, v: nat)
    requires 0 < r && v * r == desired && f.vdivBase <= v <= f.vdivBase + 31
    ensures desired / r == v
  {
    QuotientAtLeast(desired, r, v);
    assert (v + 1) * r == v * r + r;
    QuotientLess(desired, r, v + 1);
  }

  lemma PrdivMinBelow(f: PllFeatures, refFreq: nat)
    requires f.Valid() && InRange(f, refFreq)
    ensures 0 < PrdivMin(f, refFreq) && PrdivMin(f, refFreq) <= PrdivMax(f, refFreq) + 1
  {
    QuotientBounds(refFreq, f.refMin);
    var q := refFreq / f.refMin;
    MulLe(f.refMin, f.refMax, q + 1);
    assert (q + 1) * f.refMin == q * f.refMin + f.refMin;
    assert f.refMin * (q + 1) == (q + 1) * f.refMin && f.refMax * (q + 1) == (q + 1) * f.refMax;
    assert (q + 2) * f.refMax == (q + 1) * f.refMax + f.refMax;
    QuotientLess(refFreq + f.refMax - 1, f.refMax, q + 2);
    QuotientAtLeast(refFreq + f.refMax - 1, f.refMax, 1);
  }

  // ---------------------------------------------------------------- programming the PLL

  class Pll {
    const features: PllFeatures
    var prdiv0: nat
    var vdiv0: nat
    var locked: bool

    constructor (f: PllFeatures)
      ensures features == f
    {
      features := f;
      prdiv0, vdiv0, locked := 0, 0, false;
    }

    /** CLOCK_EnablePll0: the fields keep what fits in them; the PLL is assumed to lock. */
    method EnablePll0(prdiv: nat, vdiv: nat)
      requires 0 < features.prdivField
      modifies this
      ensures locked && prdiv0 == prdiv % features.prdivField && vdiv0 == vdiv % 32
    {
      prdiv0 := prdiv % features.prdivField;
      vdiv0 := vdiv % 32;
      locked := true;
    }

    /** CLOCK_GetPll0Freq for the reference the PLL runs on. */
    method GetPll0Freq(refFreq: nat) returns (freq: nat)
      requires 0 < features.prdivBase
      ensures freq == if locked then Freq(refFreq, features.prdivBase + prdiv0, features.vdivBase + vdiv0) else 0
    {
      if !locked {
        return 0;
      }
      freq := refFreq;
      freq := freq / (features.prdivBase + prdiv0);
      freq := freq * (features.vdivBase + vdiv0);
    }
  }

  /**
   * The round trip: programming the divider and multiplier of a search and reading the frequency back
   * gives the reported frequency exactly when the divider fits its register field, and always for a
   * reference below (prdivField + prdivBase) * refMin.
   */
  method PllRoundTrip(pll: Pll, refFreq: nat, desired: nat) returns (c: PllChoice, freq: nat)
    requires Fits(pll.features, refFreq, desired) && 256 <= pll.features.refMin
    modifies pll
    ensures c.Choice? ==> Optimal(pll.features, refFreq, desired, c) && FirstExact(pll.features, refFreq, desired, c)
    ensures c.Choice? <==> InRange(pll.features, refFreq) && SomeReaches(pll.features, refFreq, desired)
    ensures c.Choice? ==> (freq == c.freq <==> c.prdiv < pll.features.prdivField)
    ensures c.Choice? && refFreq < (pll.features.prdivField + pll.features.prdivBase) * pll.features.refMin ==>
              freq == c.freq
  {
    c := CalcPllDiv(pll.features, refFreq, desired);
    freq := 0;
    if c.Choice? {
      WidthsBound(pll.features, refFreq);
      BoundsAreLimits(pll.features, refFreq, c.prdiv + pll.features.prdivBase);
      FieldsGiveFreq(pll.features, refFreq, desired, c);
      pll.EnablePll0(c.prdiv, c.vdiv);
      freq := pll.GetPll0Freq(refFreq);
      if refFreq < (pll.features.prdivField + pll.features.prdivBase) * pll.features.refMin {
        DividersFit(pll.features, refFreq, c.prdiv + pll.features.prdivBase);
      }
    }
  }

  /**
   * The bound on the reference is exact: from there on, if any divider is allowed at all, some target
   * makes the search return one that its field cannot hold.
   */
  method UnfitDivider(pll: Pll, refFreq: nat) returns (desired: nat, c: PllChoice, freq: nat)
    requires pll.features.Valid() && 256 <= pll.features.refMin && refFreq < U32 && InRange(pll.features, refFreq)
    requires Widths(pll.features, refFreq) && KeepsReference(pll.features, refFreq, refFreq / pll.features.refMin)
    requires refFreq >= (pll.features.prdivField + pll.features.prdivBase) * pll.features.refMin
    modifies pll
    ensures Fits(pll.features, refFreq, desired) && c.Choice? && c.freq == desired
    ensures c.prdiv >= pll.features.prdivField && freq != c.freq
  {
    ghost var p, target := HighSetup(pll.features, refFreq);
    desired := pll.features.vdivBase * (refFreq / (refFreq / pll.features.refMin));
    c, freq := PllRoundTrip(pll, refFreq, desired);
    HighChoice(pll.features, refFreq, desired, p, c);
  }

  /** The largest divider needs more than the field. */
  lemma HighDivider(f: PllFeatures, refFreq: nat) returns (p: nat)
    requires f.Valid() && refFreq >= (f.prdivField + f.prdivBase) * f.refMin
    requires KeepsReference(f, refFreq, refFreq / f.refMin)
    ensures p == PrdivMax(f, refFreq) && KeepsReference(f, refFreq, p)
    ensures f.prdivField + f.prdivBase <= p && f.refMin <= refFreq / p <= f.refMax
  {
    p := PrdivMax(f, refFreq);
    QuotientAtLeast(refFreq, f.refMin, f.prdivField + f.prdivBase);
    BoundsAreLimits(f, refFreq, p);
    ReferenceRange(f, refFreq, p);
  }

  /** The divider and the target that make the search fail. */
  lemma HighSetup(f: PllFeatures, refFreq: nat) returns (p: nat, desired: nat)
    requires f.Valid() && refFreq < U32 && InRange(f, refFreq)
    requires Widths(f, refFreq) && KeepsReference(f, refFreq, refFreq / f.refMin)
    requires refFreq >= (f.prdivField + f.prdivBase) * f.refMin
    ensures 0 < p == refFreq / f.refMin && desired == f.vdivBase * (refFreq / p)
    ensures High(f, refFreq, desired, p)
  {
    p := HighDivider(f, refFreq);
    HighTarget(f, refFreq, p, refFreq / p);
    desired := f.vdivBase * (refFreq / p);
  }

  ghost predicate High(f: PllFeatures, refFreq: nat, desired: nat, p: nat) {
    && Fits(f, refFreq, desired) && InRange(f, refFreq)
    && KeepsReference(f, refFreq, p) && f.prdivField + f.prdivBase <= p
    && f.refMin <= refFreq / p && desired == f.vdivBase * (refFreq / p) && desired / (refFreq / p) == f.vdivBase
  }

  /** Its smallest multiple is a target within all widths. */
  lemma HighTarget(f: PllFeatures, refFreq: nat, p: nat, r: nat)
    requires f.Valid() && 0 < p && r == refFreq / p && f.refMin <= r <= f.refMax
    ensures f.vdivBase * r < 256 * f.refMin && f.vdivBase * r < U32 && f.vdivBase * r / r == f.vdivBase
  {
    MulRight(f.vdivBase, r, f.refMax);
    MulLe(f.vdivBase + 32, 255, f.refMin);
    MulLe(f.vdivBase, f.vdivBase + 31, f.refMax);
    ExactIsTried(f, r, f.vdivBase * r, f.vdivBase);
  }

  lemma HighChoice(f: PllFeatures, refFreq: nat, desired: nat, p: nat, c: PllChoice)
    requires High(f, refFreq, desired, p)
    requires c.Choice? <==> SomeReaches(f, refFreq, desired)
    requires c.Choice? ==> Optimal(f, refFreq, desired, c) && FirstExact(f, refFreq, desired, c)
    ensures c.Choice? && c.freq == desired && c.prdiv >= f.prdivField
  {
    HighReaches(f, refFreq, desired, p, refFreq / p);
    OptimalHits(f, refFreq, desired, c, p, f.vdivBase);
  }

  lemma HighReaches(f: PllFeatures, refFreq: nat, desired: nat, p: nat, r: nat)
    requires f.Shape() && KeepsReference(f, refFreq, p) && r == refFreq / p && 0 < r && desired == f.vdivBase * r
    ensures Reaches(f, refFreq, desired, p) && SomeReaches(f, refFreq, desired)
    ensures Allowed(f, refFreq, p, f.vdivBase) && Freq(refFreq, p, f.vdivBase) == desired
  {
    assert (f.vdivBase - 1) * r == f.vdivBase * r - r && (f.vdivBase + 32) * r == f.vdivBase * r + 32 * r;
    assert Reaches(f, refFreq, desired, p);
  }

  /** If a pair hits the target, so does the choice, with a divider at least as large. */
  lemma OptimalHits(f: PllFeatures, refFreq: nat, desired: nat, c: PllChoice, p: nat, v: nat)
    requires 0 < f.prdivBase && c.Choice? && Optimal(f, refFreq, desired, c) && FirstExact(f, refFreq, desired, c)
    requires Allowed(f, refFreq, p, v) && Freq(refFreq, p, v) == desired
    ensures c.freq == desired && p <= c.prdiv + f.prdivBase
  {}

  /** With two to four MHz references, dividers 1 to 25 and a five-bit field, a 100 MHz reference does it. */
  method UnfitExample() returns (desired: nat, c: PllChoice, freq: nat)
    ensures c.Choice? && c.freq == desired && freq != c.freq
  {
    var f := PllFeatures(2_000_000, 4_000_000, 1, 24, 32, 24);
    var pll := new Pll(f);
    assert 100_000_000 / 2_000_000 == 50;
    desired, c, freq := UnfitDivider(pll, 100_000_000);
  }

  /** What the programmed fields of an optimal choice give. */
  lemma FieldsGiveFreq(f: PllFeatures, refFreq: nat, desired: nat, c: PllChoice)
    requires f.Shape() && 256 <= f.refMin && PrdivMax(f, refFreq) < 256
    requires c.Choice? && Optimal(f, refFreq, desired, c)
    ensures Freq(refFreq, f.prdivBase + c.prdiv % f.prdivField, f.vdivBase + c.vdiv % 32) == c.freq
            <==> c.prdiv < f.prdivField
  {
    assert c.vdiv % 32 == c.vdiv;
    BoundsAreLimits(f, refFreq, c.prdiv + f.prdivBase);
    FieldKeepsFreq(f, refFreq, c.prdiv, c.vdiv + f.vdivBase);
  }

  /** A smaller divider gives a strictly higher reference when the reference stays above the divider. */
  lemma SmallerDivider(x: nat, p: nat, p': nat)
    requires 0 < p' < p < 256 <= x / p
    ensures x / p < x / p'
  {
    QuotientBounds(x, p);
    var q := x / p;
    assert (q + 1) * p' == q * p' + p';
    MulLe(p' + 1, p, q);
    assert q * (p' + 1) == (p' + 1) * q && (p' + 1) * q == p' * q + q && q * p' == p' * q && p * q == q * p;
    QuotientAtLeast(x, p', q + 1);
  }

  /** What a field of `size` values keeps. */
  lemma Kept(x: nat, size: nat)
    requires 0 < size
    ensures x % size < size && (x < size ==> x % size == x)
  {
    if x < size { ModSmall(x, size); }
  }

  lemma FieldKeepsFreq(f: PllFeatures, refFreq: nat, prdiv: nat, v: nat)
    requires f.Shape() && 256 <= f.refMin && PrdivMax(f, refFreq) < 256
    requires Bounded(f, refFreq, prdiv + f.prdivBase, v)
    ensures Freq(refFreq, f.prdivBase + prdiv % f.prdivField, v) == Freq(refFreq, prdiv + f.prdivBase, v)
            <==> prdiv < f.prdivField
  {
    Kept(prdiv, f.prdivField);
    var kept := prdiv % f.prdivField;
    ReferenceRange(f, refFreq, prdiv + f.prdivBase);
    if prdiv >= f.prdivField {
      SmallerDivider(refFreq, prdiv + f.prdivBase, f.prdivBase + kept);
      Higher(refFreq / (prdiv + f.prdivBase), refFreq / (f.prdivBase + kept), v);
    }
  }

  lemma Higher(x: nat, y: nat, v: nat)
    requires x < y && 0 < v
    ensures x * v < y * v
  {}

  /** With a reference below (prdivField + prdivBase) * refMin every divider of the search fits. */
  lemma DividersFit(f: PllFeatures, refFreq: nat, p: nat)
    requires f.Shape() && p <= PrdivMax(f, refFreq) && refFreq < (f.prdivField + f.prdivBase) * f.refMin
    ensures p - f.prdivBase < f.prdivField
  {
    QuotientLess(refFreq, f.refMin, f.prdivField + f.prdivBase);
  }
}
