/**
 * Polynomials over GF(2) as sequences of coefficients, highest power first, and division by a
 * generator x^w + g where g has w coefficients.
 */
module Gf2Division {

  function Zeros(n: nat): (z: seq<bool>)
    ensures |z| == n && forall i :: 0 <= i < n ==> !z[i]
  {
    seq(n, _ => false)
  }

  /** Sum of two polynomials of the same length. */
  function Xor(a: seq<bool>, b: seq<bool>): (c: seq<bool>)
    requires |a| == |b|
    ensures |c| == |a| && forall i :: 0 <= i < |a| ==> c[i] == (a[i] != b[i])
  {
    seq(|a|, i requires 0 <= i < |a| == |b| => a[i] != b[i])
  }

  /** The product q * (x^w + g), by shift and add. */
  function TimesGenerator(q: seq<bool>, g: seq<bool>): (p: seq<bool>)
    ensures |p| == |q| + |g|
  {
    if q == [] then Zeros(|g|)
    else
      var tail := [false] + TimesGenerator(q[1..], g);
      if q[0] then Xor([true] + g + Zeros(|q| - 1), tail) else tail
  }

  /** What is left after the leading term has been subtracted. */
  function Reduced(p: seq<bool>, g: seq<bool>): (rest: seq<bool>)
    requires |g| < |p|
    ensures |rest| == |p| - 1
  {
    if p[0] then Xor(p[1..], g + Zeros(|p| - 1 - |g|)) else p[1..]
  }

  /** Long division by the generator: quotient and remainder. */
  function Divide(p: seq<bool>, g: seq<bool>): (qr: (seq<bool>, seq<bool>))
    requires |g| <= |p|
    ensures |qr.0| == |p| - |g| && |qr.1| == |g|
    decreases |p|
  {
    if |p| == |g| then ([], p)
    else
      var (q, r) := Divide(Reduced(p, g), g);
      ([p[0]] + q, r)
  }

  /** p is the sum of a multiple of the generator and a remainder of lower degree. */
  ghost predicate IsDivision(p: seq<bool>, g: seq<bool>, q: seq<bool>, r: seq<bool>) {
    && |p| == |q| + |g| && |r| == |g|
    && p == Xor(TimesGenerator(q, g), Zeros(|q|) + r)
  }

  /** Subtracting the leading term is one step of a division. */
  lemma {:induction false} ReducedStep(p: seq<bool>, g: seq<bool>, q: seq<bool>, r: seq<bool>)
    requires |g| < |p| == |q| + |g| && |r| == |g|
    ensures IsDivision(p, g, q, r) <==> p[0] == q[0] && IsDivision(Reduced(p, g), g, q[1..], r)
  {
    var rest, sum, sum' := Reduced(p, g), Xor(TimesGenerator(q, g), Zeros(|q|) + r),
                           Xor(TimesGenerator(q[1..], g), Zeros(|q| - 1) + r);
    var shifted := g + Zeros(|q| - 1);
    assert sum[0] == q[0];
    forall i | 0 <= i < |rest|
      ensures sum[i + 1] == if q[0] then sum'[i] != shifted[i] else sum'[i]
      ensures rest[i] == if p[0] then p[i + 1] != shifted[i] else p[i + 1]
    {}
    if p[0] == q[0] {
      assert (forall i :: 0 <= i < |rest| ==> (rest[i] == sum'[i] <==> p[i + 1] == sum[i + 1]));
      if rest == sum' { assert forall i :: 0 <= i < |p| ==> p[i] == sum[i] by {
        forall i | 0 <= i < |p| ensures p[i] == sum[i] { if i > 0 { assert rest[i - 1] == sum'[i - 1]; } }
      } }
      if p == sum { assert forall i :: 0 <= i < |rest| ==> rest[i] == sum'[i]; }
    }
  }

  /** Long division divides, and there is only one way to do so. */
  lemma {:induction false} DivideCorrect(p: seq<bool>, g: seq<bool>, q: seq<bool>, r: seq<bool>)
    requires |p| == |q| + |g| && |r| == |g|
    ensures Divide(p, g) == (q, r) <==> IsDivision(p, g, q, r)
    decreases |q|
  {
    if q == [] {
      assert Xor(TimesGenerator(q, g), Zeros(0) + r) == r;
    } else {
      ReducedStep(p, g, q, r);
      DivideCorrect(Reduced(p, g), g, q[1..], r);
      assert q == [q[0]] + q[1..];
      assert Divide(p, g).0[1..] == Divide(Reduced(p, g), g).0;
    }
  }

  // ---------------------------------------------------------------- the shift register

  /** One turn of a feedback shift register. */
  function Shift(reg: seq<bool>, bit: bool, g: seq<bool>): (reg': seq<bool>)
    requires 0 < |reg| == |g|
    ensures |reg'| == |reg|
  {
    var shifted := reg[1..] + [false];
    if reg[0] != bit then Xor(shifted, g) else shifted
  }

  function Register(reg: seq<bool>, message: seq<bool>, g: seq<bool>): (reg': seq<bool>)
    requires 0 < |reg| == |g|
    ensures |reg'| == |reg|
    decreases |message|
  {
    if message == [] then reg
    else Shift(Register(reg, message[..|message| - 1], g), message[|message| - 1], g)
  }

  lemma {:induction false} RegisterFront(reg: seq<bool>, message: seq<bool>, g: seq<bool>)
    requires 0 < |reg| == |g| && message != []
    ensures Register(reg, message, g) == Register(Shift(reg, message[0], g), message[1..], g)
    decreases |message|
  {
    var front := message[..|message| - 1];
    if |message| > 1 {
      RegisterFront(reg, front, g);
      assert front[1..] == message[1..][..|message| - 2];
    } else {
      assert front == [] && message[1..] == [];
    }
  }

  /** A message consumed up to its k-th further bit. */
  lemma {:induction false} RegisterBack(init: seq<bool>, done: seq<bool>, bits: seq<bool>, k: nat, g: seq<bool>)
    requires 0 < |init| == |g| && k < |bits|
    ensures Register(init, done + bits[..k + 1], g) == Shift(Register(init, done + bits[..k], g), bits[k], g)
  {
    var m := done + bits[..k + 1];
    assert m[..|m| - 1] == done + bits[..k] && m[|m| - 1] == bits[k];
  }

  /** The polynomial message * x^w + initial * x^|message|, which a CRC with an initial value divides. */
  function Dividend(initial: seq<bool>, message: seq<bool>): (p: seq<bool>)
    ensures |p| == |message| + |initial|
  {
    Xor(message + Zeros(|initial|), initial + Zeros(|message|))
  }

  /** The shift register computes the remainder of that division, for every generator, message and initial value. */
  lemma {:induction false} RegisterIsRemainder(initial: seq<bool>, message: seq<bool>, g: seq<bool>)
    requires 0 < |initial| == |g|
    ensures Register(initial, message, g) == Divide(Dividend(initial, message), g).1
    decreases |message|
  {
    var p := Dividend(initial, message);
    if message == [] {
      assert p == initial;
    } else {
      var next := Shift(initial, message[0], g);
      var p', rest := Dividend(next, message[1..]), Reduced(p, g);
      forall i | 0 <= i < |p'| ensures p'[i] == rest[i] {}
      assert p' == rest;
      RegisterFront(initial, message, g);
      RegisterIsRemainder(next, message[1..], g);
    }
  }
}
