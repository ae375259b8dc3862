/**
 * The multicast hash filter of the Ethernet driver: a reflected CRC-32 of the group address selects
 * one bit of the 64-bit table GAUR:GALR.
 *
 * Words are natural numbers; a bit beyond the width never arises.  The register is kept reflected: bit i
 * of the word is the coefficient of x^(31-i), so a word and its polynomial list their bits in the same
 * order.
 */
module EnetMulticast {
  import opened Gf2Division
  import opened Multiples
  import opened Words

  type Byte = c: nat | c < 0x100

  /** The low n bits of a word, least significant first. */
  function Bits(w: nat, n: nat): (b: seq<bool>)
    ensures |b| == n
    decreases n
  {
    if n == 0 then [] else [w % 2 == 1] + Bits(w / 2, n - 1)
  }

  /** The C operator ^ on unsigned numbers. */
  function BitXor(v: nat, w: nat): nat {
    if v == 0 && w == 0 then 0 else 2 * BitXor(v / 2, w / 2) + (if v % 2 != w % 2 then 1 else 0)
  }

  lemma {:induction false} XorBits(v: nat, w: nat, n: nat)
    ensures Bits(BitXor(v, w), n) == Xor(Bits(v, n), Bits(w, n))
    decreases n
  {
    if n > 0 {
      var x := BitXor(v, w);
      assert x / 2 == BitXor(v / 2, w / 2) && (x % 2 == 1 <==> v % 2 != w % 2);
      XorBits(v / 2, w / 2, n - 1);
    }
  }

  lemma {:induction false} XorBound(v: nat, w: nat, n: nat)
    requires v < Pow2(n) && w < Pow2(n)
    ensures BitXor(v, w) < Pow2(n)
    decreases n
  {
    if n > 0 { XorBound(v / 2, w / 2, n - 1); }
  }

  /** A word below 2^n has a clear bit n. */
  lemma {:induction false} TopBitClear(v: nat, n: nat)
    requires v < Pow2(n)
    ensures Bits(v, n + 1) == Bits(v, n) + [false]
    decreases n
  {
    if n == 0 {
      assert Bits(0, 1) == [false] + Bits(0, 0);
    } else {
      TopBitClear(v / 2, n - 1);
    }
  }

  lemma {:induction false} BitsInjective(v: nat, w: nat, n: nat)
    requires v < Pow2(n) && w < Pow2(n) && Bits(v, n) == Bits(w, n)
    ensures v == w
    decreases n
  {
    if n > 0 {
      assert Bits(v, n)[0] == Bits(w, n)[0] && Bits(v, n)[1..] == Bits(w, n)[1..];
      BitsInjective(v / 2, w / 2, n - 1);
    }
  }

  /** The word with these bits, least significant first. */
  function Word(bits: seq<bool>): (w: nat)
    ensures w < Pow2(|bits|)
  {
    if bits == [] then 0 else One(bits[0]) + 2 * Word(bits[1..])
  }

  function One(b: bool): nat { if b then 1 else 0 }

  lemma {:induction false} WordBits(bits: seq<bool>)
    ensures Bits(Word(bits), |bits|) == bits
  {
    if bits != [] {
      var w := Word(bits);
      assert w / 2 == Word(bits[1..]) && (w % 2 == 1 <==> bits[0]);
      WordBits(bits[1..]);
    }
  }

  /** The eight digits of a word from the i-th on. */
  lemma EightDigits(b: seq<bool>, i: nat)
    requires i + 8 <= |b|
    ensures Word(b[i..]) == One(b[i]) + 2 * One(b[i + 1]) + 4 * One(b[i + 2]) + 8 * One(b[i + 3])
                            + 16 * One(b[i + 4]) + 32 * One(b[i + 5]) + 64 * One(b[i + 6]) + 128 * One(b[i + 7])
                            + 0x100 * Word(b[i + 8..])
  {
    Digit(b, i); Digit(b, i + 1); Digit(b, i + 2); Digit(b, i + 3);
    Digit(b, i + 4); Digit(b, i + 5); Digit(b, i + 6); Digit(b, i + 7);
  }

  lemma Digit(b: seq<bool>, i: nat)
    requires i < |b|
    ensures Word(b[i..]) == One(b[i]) + 2 * Word(b[i + 1..])
  {
    assert b[i..][1..] == b[i + 1..];
  }

  // ---------------------------------------------------------------- the hash

  /** Width, generator without its leading term and initial value of a CRC, the last two reflected. */
  datatype CrcKind = CrcKind(width: nat, polynomial: nat, initial: nat) {
    ghost predicate Valid() {
      0 < width && polynomial < Pow2(width) && initial < Pow2(width)
    }
  }

  /** The CRC-32 of section 3.2.9 of IEEE Std 802.3-2018. */
  const CRC32 := CrcKind(32, 0xEDB88320, 0xFFFFFFFF)

  /**
   * The generator x^32 + x^26 + x^23 + x^22 + x^16 + x^12 + x^11 + x^10 + x^8 + x^7 + x^5 + x^4 + x^2 + x + 1
   * without its leading term; bit i is the coefficient of x^(31-i).
   */
  ghost predicate IsGenerator(b: seq<bool>) {
    && |b| == 32
    && forall i :: 0 <= i < 32 ==> (b[i] <==> 31 - i in {26, 23, 22, 16, 12, 11, 10, 8, 7, 5, 4, 2, 1, 0})
  }

  /** The constants are that generator and a register of ones. */
  lemma Crc32Generator()
    ensures CRC32.width == 32 && IsGenerator(Bits(CRC32.polynomial, 32))
    ensures forall i :: 0 <= i < 32 ==> Bits(CRC32.initial, 32)[i]
  {
    var b := seq(32, i => 31 - i in {26, 23, 22, 16, 12, 11, 10, 8, 7, 5, 4, 2, 1, 0});
    GeneratorWord(b);
    WordBits(b);
    Pow2At32();
    AllOnes(CRC32.initial, 32);
  }

  lemma GeneratorWord(b: seq<bool>)
    requires IsGenerator(b)
    ensures Word(b) == 0xEDB88320
  {
    LowTerms(b);
    MiddleTerms(b);
    EightDigits(b, 8);
    EightDigits(b, 0);
    assert b[0..] == b;
  }

  lemma LowTerms(b: seq<bool>)
    requires IsGenerator(b)
    ensures Word(b[24..]) == 0xED
  {
    EightDigits(b, 24);
  }

  lemma MiddleTerms(b: seq<bool>)
    requires IsGenerator(b)
    ensures Word(b[16..]) == 0xB8 + 0x100 * Word(b[24..])
  {
    EightDigits(b, 16);
  }

  lemma {:induction false} AllOnes(w: nat, n: nat)
    requires w + 1 == Pow2(n)
    ensures forall i :: 0 <= i < n ==> Bits(w, n)[i]
    decreases n
  {
    if n > 0 { AllOnes(w / 2, n - 1); }
  }

  /** The address bits in transmission order: byte by byte, least significant bit first. */
  ghost function MessageBits(address: seq<Byte>): (b: seq<bool>) {
    if address == [] then [] else MessageBits(address[..|address| - 1]) + Bits(address[|address| - 1], 8)
  }

  /**
   * `crc` is what is left when the address bits, with the initial value of this kind and without a final
   * complement, are divided by its generator.
   */
  ghost predicate IsHash(kind: CrcKind, address: seq<Byte>, crc: nat)
    requires kind.Valid()
  {
    && crc < Pow2(kind.width)
    && exists q :: IsDivision(Dividend(Bits(kind.initial, kind.width), MessageBits(address)),
                              Bits(kind.polynomial, kind.width), q, Bits(crc, kind.width))
  }

  /** An address has at most one hash. */
  lemma HashUnique(kind: CrcKind, address: seq<Byte>, v: nat, w: nat)
    requires kind.Valid() && IsHash(kind, address, v) && IsHash(kind, address, w)
    ensures v == w
  {
    var n := kind.width;
    var p, g := Dividend(Bits(kind.initial, n), MessageBits(address)), Bits(kind.polynomial, n);
    var q :| IsDivision(p, g, q, Bits(v, n));
    var q' :| IsDivision(p, g, q', Bits(w, n));
    DivideCorrect(p, g, q, Bits(v, n));
    DivideCorrect(p, g, q', Bits(w, n));
    BitsInjective(v, w, n);
  }

  lemma {:induction false} XorParity(v: nat, w: nat)
    ensures BitXor(v, w) % 2 == 1 <==> v % 2 != w % 2
  {}

  /** Half of a word has the same bits but the lowest, and a clear top bit. */
  lemma HalfBits(v: nat, n: nat)
    requires 0 < n && v < Pow2(n)
    ensures v / 2 < Pow2(n - 1) <= Pow2(n)
    ensures Bits(v, n)[0] == (v % 2 == 1) && Bits(v / 2, n) == Bits(v, n)[1..] + [false]
  {
    TopBitClear(v / 2, n - 1);
    assert Bits(v, n)[1..] == Bits(v / 2, n - 1);
  }

  /** The register after one turn of the inner loop. */
  function Turned(kind: CrcKind, crc: nat, c: nat): nat {
    if BitXor(c, crc) % 2 == 1 then BitXor(crc / 2, kind.polynomial) else crc / 2
  }

  /** One turn of the inner loop is one turn of the shift register. */
  lemma TurnShifts(kind: CrcKind, crc: nat, c: nat)
    requires kind.Valid() && crc < Pow2(kind.width)
    ensures Turned(kind, crc, c) < Pow2(kind.width)
    ensures Bits(Turned(kind, crc, c), kind.width) ==
            Shift(Bits(crc, kind.width), c % 2 == 1, Bits(kind.polynomial, kind.width))
  {
    var n := kind.width;
    XorParity(c, crc);
    HalfBits(crc, n);
    XorBits(crc / 2, kind.polynomial, n);
    XorBound(crc / 2, kind.polynomial, n);
  }

  lemma RegisterIsHash(kind: CrcKind, address: seq<Byte>, crc: nat)
    requires kind.Valid() && crc < Pow2(kind.width)
    requires Bits(crc, kind.width) ==
             Register(Bits(kind.initial, kind.width), MessageBits(address), Bits(kind.polynomial, kind.width))
    ensures IsHash(kind, address, crc)
  {
    var init, g := Bits(kind.initial, kind.width), Bits(kind.polynomial, kind.width);
    var p := Dividend(init, MessageBits(address));
    RegisterIsRemainder(init, MessageBits(address), g);
    DivideCorrect(p, g, Divide(p, g).0, Divide(p, g).1);
  }

  /** One turn of the shift register after the bits of `done` and the first k of the current byte. */
  lemma {:induction false} TurnAfter(kind: CrcKind, crc: nat, c: nat, done: seq<bool>, bits: seq<bool>, k: nat)
    requires kind.Valid() && crc < Pow2(kind.width) && k < |bits|
    requires Bits(c, |bits| - k) == bits[k..]
    requires Bits(crc, kind.width) ==
             Register(Bits(kind.initial, kind.width), done + bits[..k], Bits(kind.polynomial, kind.width))
    ensures Bits(c / 2, |bits| - k - 1) == bits[k + 1..]
    ensures Turned(kind, crc, c) < Pow2(kind.width)
    ensures Bits(Turned(kind, crc, c), kind.width) ==
            Register(Bits(kind.initial, kind.width), done + bits[..k + 1], Bits(kind.polynomial, kind.width))
  {
    RegisterBack(Bits(kind.initial, kind.width), done, bits, k, Bits(kind.polynomial, kind.width));
    TurnShifts(kind, crc, c);
    NextBit(c, bits, k);
  }

  /** The lowest bit of what is left of a byte, and the rest of it. */
  lemma {:induction false} NextBit(c: nat, bits: seq<bool>, k: nat)
    requires k < |bits| && Bits(c, |bits| - k) == bits[k..]
    ensures bits[k] == (c % 2 == 1) && Bits(c / 2, |bits| - k - 1) == bits[k + 1..]
  {
    assert bits[k..] == [bits[k]] + bits[k + 1..];
    assert Bits(c / 2, |bits| - k - 1) == bits[k..][1..];
  }

  /** The body of the inner loop. */
  method CrcTurn(kind: CrcKind, crc0: nat, c0: nat) returns (crc: nat, c: nat)
    ensures crc == Turned(kind, crc0, c0) && c == c0 / 2
  {
    crc, c := crc0, c0;
    if BitXor(c, crc) % 2 == 1 {
      crc := crc / 2;
      c := c / 2;
      crc := BitXor(crc, kind.polynomial);
    } else {
      crc := crc / 2;
      c := c / 2;
    }
  }

  /** The inner loop: the eight bits of one address byte. */
  method CrcByte(kind: CrcKind, crc0: nat, byte: Byte, ghost done: seq<bool>) returns (crc: nat)
    requires kind.Valid() && crc0 < Pow2(kind.width)
    requires Bits(crc0, kind.width) ==
             Register(Bits(kind.initial, kind.width), done, Bits(kind.polynomial, kind.width))
    ensures crc < Pow2(kind.width)
    ensures Bits(crc, kind.width) ==
            Register(Bits(kind.initial, kind.width), done + Bits(byte, 8), Bits(kind.polynomial, kind.width))
  {
    ghost var bits, n := Bits(byte, 8), kind.width;
    var c: nat := byte;
    crc := crc0;
    assert done + bits[..0] == done;
    for count2 := 0 to 8
      invariant crc < Pow2(n) && |bits| == 8
      invariant Bits(crc, n) == Register(Bits(kind.initial, n), done + bits[..count2], Bits(kind.polynomial, n))
      invariant Bits(c, |bits| - count2) == bits[count2..]
    {
      TurnAfter(kind, crc, c, done, bits, count2);
      crc, c := CrcTurn(kind, crc, c);
    }
    assert bits[..8] == bits;
  }

  /**
   * The loops shared by ENET_AddMulticastGroup and ENET_LeaveMulticastGroup, whose constants are those
   * of CRC32.
   */
  method Crc(kind: CrcKind, address: seq<Byte>) returns (crc: nat)
    requires kind.Valid()
    ensures IsHash(kind, address, crc)
  {
    crc := kind.initial;
    for count1 := 0 to |address|
      invariant crc < Pow2(kind.width)
      invariant Bits(crc, kind.width) ==
                Register(Bits(kind.initial, kind.width), MessageBits(address[..count1]),
                         Bits(kind.polynomial, kind.width))
    {
      assert address[..count1 + 1][..count1] == address[..count1];
      crc := CrcByte(kind, crc, address[count1], MessageBits(address[..count1]));
    }
    assert address[..|address|] == address;
    RegisterIsHash(kind, address, crc);
  }

  lemma Crc32Valid()
    ensures CRC32.Valid() && Pow2(CRC32.width) == 0x1_0000_0000
  {
    Pow2At32();
  }

  // ---------------------------------------------------------------- the hash table

  /** The six top bits of the hash select the entry. */
  ghost predicate IsEntry(address: seq<Byte>, h: nat) {
    && h < 64
    && CRC32.Valid()
    && exists crc: nat :: IsHash(CRC32, address, crc) && h == crc / 0x400_0000
  }

  lemma HashEntry(address: seq<Byte>, crc: nat)
    requires CRC32.Valid() && IsHash(CRC32, address, crc)
    ensures crc < 0x1_0000_0000 && IsEntry(address, crc / 0x400_0000)
  {
    Crc32Valid();
  }

  lemma EntryUnique(address: seq<Byte>, h: nat, h': nat)
    requires IsEntry(address, h) && IsEntry(address, h')
    ensures h == h'
  {
    var v: nat :| IsHash(CRC32, address, v) && h == v / 0x400_0000;
    var w: nat :| IsHash(CRC32, address, w) && h' == w / 0x400_0000;
    HashUnique(CRC32, address, v, w);
  }

  /** The entry's number is made of the coefficients of x^5 to x^0 of the remainder, that of x^0 on top. */
  lemma EntryBits(address: seq<Byte>, h: nat) returns (crc: nat)
    requires IsEntry(address, h)
    ensures IsHash(CRC32, address, crc) && h < Pow2(6) && Bits(h, 6) == Bits(crc, 32)[26..]
  {
    crc :| IsHash(CRC32, address, crc) && h == crc / 0x400_0000;
    assert Pow2(6) == 64;
    Pow2At26();
    HighBits(crc, h, 26, 6);
  }

  lemma Pow2At26()
    ensures Pow2(26) == 0x400_0000
  {
    assert Pow2(8) == 0x100;
    assert Pow2(16) == 0x1_0000;
  }

  /** What a shift to the right by k leaves of a word. */
  lemma {:induction false} HighBits(w: nat, q: nat, k: nat, n: nat)
    requires q * Pow2(k) <= w < q * Pow2(k) + Pow2(k)
    ensures Bits(q, n) == Bits(w, k + n)[k..]
    decreases k
  {
    if k > 0 {
      HalfQuotient(w, q, Pow2(k - 1));
      HighBits(w / 2, q, k - 1, n);
    }
  }

  lemma HalfQuotient(w: nat, q: nat, p: nat)
    requires q * (2 * p) <= w < q * (2 * p) + 2 * p
    ensures q * p <= w / 2 < q * p + p
  {
    assert q * (2 * p) == 2 * (q * p);
  }

  class HashFilter {
    const galr: array<bool>
    const gaur: array<bool>

    /** GALR and GAUR, bit by bit. */
    constructor ()
      ensures fresh(galr) && fresh(gaur) && Valid() && Table() == Zeros(64)
    {
      galr := new bool[32](_ => false);
      gaur := new bool[32](_ => false);
    }

    ghost predicate Valid() {
      galr.Length == 32 && gaur.Length == 32 && galr != gaur
    }

    /** The two registers as one table of 64 entries. */
    ghost function Table(): (t: seq<bool>)
      requires Valid()
      reads galr, gaur
      ensures |t| == 64
    {
      galr[..] + gaur[..]
    }

    /** ENET_AddMulticastGroup sets the address's entry, and no other. */
    method AddMulticastGroup(address: seq<Byte>) returns (ghost h: nat)
      requires Valid() && |address| == 6
      modifies galr, gaur
      ensures IsEntry(address, h)
      ensures h < 32 ==> galr[..] == old(galr[..])[h := true] && gaur[..] == old(gaur[..])
      ensures 32 <= h ==> gaur[..] == old(gaur[..])[h - 32 := true] && galr[..] == old(galr[..])
      ensures Table() == old(Table())[h := true]
    {
      h := UpdateEntry(address, true);
    }

    /** ENET_LeaveMulticastGroup clears the address's entry, and no other. */
    method LeaveMulticastGroup(address: seq<Byte>) returns (ghost h: nat)
      requires Valid() && |address| == 6
      modifies galr, gaur
      ensures IsEntry(address, h)
      ensures h < 32 ==> galr[..] == old(galr[..])[h := false] && gaur[..] == old(gaur[..])
      ensures 32 <= h ==> gaur[..] == old(gaur[..])[h - 32 := false] && galr[..] == old(galr[..])
      ensures Table() == old(Table())[h := false]
    {
      h := UpdateEntry(address, false);
    }

    /** The common shape of the two: hash, then pick register and bit. */
    method UpdateEntry(address: seq<Byte>, member: bool) returns (ghost h: nat)
      requires Valid()
      modifies galr, gaur
      ensures IsEntry(address, h)
      ensures h < 32 ==> galr[..] == old(galr[..])[h := member] && gaur[..] == old(gaur[..])
      ensures 32 <= h ==> gaur[..] == old(gaur[..])[h - 32 := member] && galr[..] == old(galr[..])
      ensures Table() == old(Table())[h := member]
    {
      Crc32Valid();
      var crc := Crc(CRC32, address);
      HashEntry(address, crc);
      h := crc / 0x400_0000;
      SetEntry(crc, member);
    }

    /** The top bit of the hash picks the register, the five below it the bit. */
    method SetEntry(crc: nat, member: bool)
      requires Valid() && crc < 0x1_0000_0000
      modifies galr, gaur
      ensures crc < 0x8000_0000 ==>
                galr[..] == old(galr[..])[crc / 0x400_0000 := member] && gaur[..] == old(gaur[..])
      ensures 0x8000_0000 <= crc ==>
                gaur[..] == old(gaur[..])[crc / 0x400_0000 - 32 := member] && galr[..] == old(galr[..])
      ensures Table() == old(Table())[crc / 0x400_0000 := member]
    {
      ghost var h := crc / 0x400_0000;
      var bit := (crc / 0x400_0000) % 32;
      if (crc / 0x8000_0000) % 2 == 0 {
        assert h == bit;
        galr[bit] := member;
        assert gaur[..] == old(gaur[..]);
      } else {
        assert h == 32 + bit;
        gaur[bit] := member;
        assert galr[..] == old(galr[..]);
      }
      assert Table() == old(Table())[h := member];
    }
  }

  /**
   * Leaving a group undoes adding it if and only if its entry was clear before; otherwise another group
   * with the same entry loses it too.
   */
  method AddThenLeave(filter: HashFilter, address: seq<Byte>) returns (ghost h: nat)
    requires filter.Valid() && |address| == 6
    modifies filter.galr, filter.gaur
    ensures IsEntry(address, h)
    ensures filter.Table() == old(filter.Table()) <==> !old(filter.Table())[h]
  {
    ghost var t0 := filter.Table();
    h := filter.AddMulticastGroup(address);
    ghost var h' := filter.LeaveMulticastGroup(address);
    EntryUnique(address, h, h');
    UndoneIff(t0, h);
  }

  lemma {:induction false} UndoneIff(t: seq<bool>, h: nat)
    requires h < |t|
    ensures t[h := true][h := false] == t <==> !t[h]
  {
    if !t[h] { assert t[h := true][h := false] == t; }
  }

  // ---------------------------------------------------------------- two addresses with one entry

  /** Every address has an entry. */
  lemma {:induction false} EntryExists(address: seq<Byte>) returns (h: nat)
    ensures IsEntry(address, h)
  {
    Crc32Valid();
    var init, g := Bits(CRC32.initial, CRC32.width), Bits(CRC32.polynomial, CRC32.width);
    var bits := Register(init, MessageBits(address), g);
    RegisterIsRemainder(init, MessageBits(address), g);
    WordBits(bits);
    RegisterIsHash(CRC32, address, Word(bits));
    HashEntry(address, Word(bits));
    h := Word(bits) / 0x400_0000;
  }

  lemma {:induction false} Entries(addresses: seq<seq<Byte>>) returns (hs: seq<nat>)
    ensures |hs| == |addresses| && forall i :: 0 <= i < |hs| ==> hs[i] < 64 && IsEntry(addresses[i], hs[i])
  {
    hs := [];
    if addresses != [] {
      var n := |addresses| - 1;
      hs := Entries(addresses[..n]);
      var h := EntryExists(addresses[n]);
      hs := hs + [h];
    }
  }

  /** Distinct numbers below a bound are no more than the bound. */
  lemma {:induction false} DistinctBelow(hs: seq<nat>, bound: nat)
    requires (forall i :: 0 <= i < |hs| ==> hs[i] < bound) && (forall i, j :: 0 <= i < j < |hs| ==> hs[i] != hs[j])
    ensures |hs| <= bound
    decreases bound
  {
    if |hs| > 0 {
      assert hs[0] < bound;
      if bound - 1 in hs {
        var k :| 0 <= k < |hs| && hs[k] == bound - 1;
        DistinctBelow(hs[..k] + hs[k + 1..], bound - 1);
      } else {
        DistinctBelow(hs, bound - 1);
      }
    }
  }

  /** Among any 65 addresses two share an entry of the table of 64. */
  lemma {:induction false} SharedEntry(addresses: seq<seq<Byte>>) returns (i: nat, j: nat, h: nat)
    requires 64 < |addresses|
    ensures i < j < |addresses| && IsEntry(addresses[i], h) && IsEntry(addresses[j], h)
  {
    var hs := Entries(addresses);
    i, j := Repeated(hs, 64);
    h := hs[i];
  }

  lemma {:induction false} Repeated(hs: seq<nat>, bound: nat) returns (i: nat, j: nat)
    requires bound < |hs| && forall i :: 0 <= i < |hs| ==> hs[i] < bound
    ensures i < j < |hs| && hs[i] == hs[j]
  {
    if forall i, j :: 0 <= i < j < |hs| ==> hs[i] != hs[j] {
      DistinctBelow(hs, bound);
      assert false;
    }
    i, j :| 0 <= i < j < |hs| && hs[i] == hs[j];
  }

  /** So there are two groups that share one. */
  lemma {:induction false} TwoGroups() returns (a: seq<Byte>, b: seq<Byte>, h: nat)
    ensures |a| == |b| == 6 && a != b && IsEntry(a, h) && IsEntry(b, h)
  {
    var addresses: seq<seq<Byte>> := Numbered(65);
    var i, j, entry := SharedEntry(addresses);
    a, b, h := addresses[i], addresses[j], entry;
    assert a[0] == i && b[0] == j;
  }

  /** Addresses that differ in their first byte. */
  lemma {:induction false} Numbered(n: nat) returns (addresses: seq<seq<Byte>>)
    requires n <= 0x100
    ensures |addresses| == n && forall i :: 0 <= i < n ==> |addresses[i]| == 6 && addresses[i][0] == i
  {
    addresses := [];
    if n > 0 {
      addresses := Numbered(n - 1);
      var last: Byte := n - 1;
      addresses := addresses + [[last, 0, 0, 0, 0, 0]];
    }
  }

  /** Two groups with one entry: leaving either removes both. */
  method LeaveDropsOther(filter: HashFilter, a: seq<Byte>, b: seq<Byte>, ghost h: nat)
    requires filter.Valid() && |a| == |b| == 6 && a != b && IsEntry(a, h) && IsEntry(b, h)
    modifies filter.galr, filter.gaur
    ensures filter.Table() == old(filter.Table())[h := false]
  {
    ghost var t0 := filter.Table();
    ghost var g := filter.AddMulticastGroup(a);
    EntryUnique(a, g, h);
    ghost var t1 := filter.Table();
    g := filter.AddMulticastGroup(b);
    EntryUnique(b, g, h);
    ghost var t2 := filter.Table();
    g := filter.LeaveMulticastGroup(a);
    EntryUnique(a, g, h);
    LastUpdate(t0, t1, t2, h);
  }

  lemma {:induction false} LastUpdate(t0: seq<bool>, t1: seq<bool>, t2: seq<bool>, h: nat)
    requires h < |t0| && t1 == t0[h := true] && t2 == t1[h := true]
    ensures t2[h := false] == t0[h := false]
  {}
}
