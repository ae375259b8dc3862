/**
 * FLASH_EepromWrite: a write to the EEPROM emulated by FlexRAM goes out in the widest naturally aligned
 * accesses that fit, one at a time, and stops at the first that meets a protected byte.
 */
module FlashEeprom {
  import opened FlashDevice
  import opened Words

  datatype Access = Access(addr: nat, data: seq<Byte>)

  function Overwrite(mem: seq<Byte>, at: nat, data: seq<Byte>): (mem': seq<Byte>)
    ensures |mem'| == |mem|
    ensures forall i :: 0 <= i < |mem| ==> mem'[i] == if at <= i < at + |data| then data[i - at] else mem[i]
  {
    seq(|mem|, i requires 0 <= i < |mem| => if at <= i < at + |data| then data[i - at] else mem[i])
  }

  lemma {:induction false} OverwriteJoins(mem: seq<Byte>, at: nat, a: seq<Byte>, b: seq<Byte>)
    ensures Overwrite(Overwrite(mem, at, a), at + |a|, b) == Overwrite(mem, at, a + b)
  {
    var twice, once := Overwrite(Overwrite(mem, at, a), at + |a|, b), Overwrite(mem, at, a + b);
    forall i | 0 <= i < |mem| ensures twice[i] == once[i] {
      if at <= i < at + |a| {
        assert (a + b)[i - at] == a[i - at];
      } else if at + |a| <= i < at + |a| + |b| {
        assert (a + b)[i - at] == b[i - at - |a|];
      }
    }
  }

  /** Overwriting with a prefix of `src` and then with what follows is overwriting with the longer prefix. */
  lemma {:induction false} OverwriteMore(mem: seq<Byte>, at: nat, src: seq<Byte>, n: nat, data: seq<Byte>)
    requires n + |data| <= |src| && data == src[n..n + |data|]
    ensures Overwrite(Overwrite(mem, at, src[..n]), at + n, data) == Overwrite(mem, at, src[..n + |data|])
  {
    var done := src[..n];
    assert src[..n + |data|] == done + data && |done| == n;
    OverwriteJoins(mem, at, done, data);
  }

  /** One, two or four bytes at a multiple of their number: an access never straddles an aligned word. */
  ghost predicate Natural(a: Access) {
    |a.data| == 1 || (|a.data| == 2 && a.addr % 2 == 0) || (|a.data| == 4 && a.addr % 4 == 0)
  }

  /** The accesses write `data` from `start` on, in order and without gap or overlap. */
  ghost predicate Tiles(accesses: seq<Access>, start: nat, data: seq<Byte>) {
    if accesses == [] then data == []
    else
      var a := accesses[|accesses| - 1];
      && |a.data| <= |data| && data[|data| - |a.data|..] == a.data && a.addr == start + |data| - |a.data|
      && Natural(a) && Tiles(accesses[..|accesses| - 1], start, data[..|data| - |a.data|])
  }

  lemma {:induction false} TilesMore(accesses: seq<Access>, start: nat, src: seq<Byte>, n: nat, a: Access)
    requires n + |a.data| <= |src| && Tiles(accesses, start, src[..n]) && Natural(a)
    requires a.addr == start + n && a.data == src[n..n + |a.data|]
    ensures Tiles(accesses + [a], start, src[..n + |a.data|])
  {
    var all, whole := accesses + [a], src[..n + |a.data|];
    assert all[..|all| - 1] == accesses && whole[..|whole| - |a.data|] == src[..n];
  }

  /** What a call achieved: the first `n` bytes of `src`, by accesses that tile them. */
  ghost predicate Wrote(mem0: seq<Byte>, mem: seq<Byte>, accesses: seq<Access>, at: nat, start: nat,
                        src: seq<Byte>, n: nat) {
    && n <= |src| && mem == Overwrite(mem0, at, src[..n]) && Tiles(accesses, start, src[..n])
  }

  lemma {:induction false} WroteNothing(mem: seq<Byte>, at: nat, start: nat, src: seq<Byte>)
    ensures Wrote(mem, mem, [], at, start, src, 0)
  {
    assert src[..0] == [] && Overwrite(mem, at, []) == mem;
  }

  lemma {:induction false} WroteMore(mem0: seq<Byte>, mem: seq<Byte>, accesses: seq<Access>, at: nat, start: nat,
                                     src: seq<Byte>, n: nat, a: Access)
    requires Wrote(mem0, mem, accesses, at, start, src, n) && Natural(a)
    requires n + |a.data| <= |src| && a.addr == start + n && a.data == src[n..n + |a.data|]
    ensures Wrote(mem0, Overwrite(mem, at + n, a.data), accesses + [a], at, start, src, n + |a.data|)
  {
    OverwriteMore(mem0, at, src, n, a.data);
    TilesMore(accesses, start, src, n, a);
  }

  /** The width of the next access. */
  method NextWidth(start: nat, lengthInBytes: nat) returns (width: nat)
    requires 0 < lengthInBytes
    ensures width <= lengthInBytes && (width == 1 || (width == 2 && start % 2 == 0) || (width == 4 && start % 4 == 0))
    ensures width < 4 ==> start % 4 != 0 || lengthInBytes < 4
    ensures width < 2 ==> start % 2 != 0 || lengthInBytes < 2
  {
    if start % 4 == 0 && lengthInBytes >= 4 {
      width := 4;
    } else if start % 2 == 0 && lengthInBytes >= 2 {
      width := 2;
    } else {
      width := 1;
    }
  }

  /** The next access with its bytes. */
  method NextAccess(start: nat, src: seq<Byte>, pos: nat, left: nat) returns (a: Access)
    requires pos + left == |src| && 0 < left
    ensures Natural(a) && a.addr == start + pos && 0 < |a.data| <= left && |a.data| <= 4
    ensures a.data == src[pos..pos + |a.data|]
  {
    var width := NextWidth(start + pos, left);
    a := Access(start + pos, src[pos..pos + width]);
  }

  class FlexRam {
    const base: nat
    const faulty: bool
    /** The addresses whose write raises a protection violation. */
    const guarded: set<nat>
    var mem: seq<Byte>
    var eepromReady: bool
    ghost var log: seq<Access>

    constructor (base: nat, faulty: bool, guarded: set<nat>, mem: seq<Byte>)
      ensures this.base == base && this.faulty == faulty && this.guarded == guarded && this.mem == mem && log == []
    {
      this.base, this.faulty, this.guarded, this.mem, eepromReady, log := base, faulty, guarded, mem, false, [];
    }

    ghost predicate Clear(addr: nat, length: nat) {
      forall x :: addr <= x < addr + length ==> x !in guarded
    }

    /** FLASH_SetFlexramFunction. */
    method SetFlexramFunction(asEeprom: bool) returns (rc: Status)
      modifies this`eepromReady
      ensures if rc == Success then eepromReady == asEeprom else faulty && eepromReady == old(eepromReady)
    {
      if faulty {
        if * { return CommandFailure; }
      }
      eepromReady := asEeprom;
      return Success;
    }

    /** A store, and the violation flag after the wait for its completion. */
    method Store(addr: nat, data: seq<Byte>) returns (violation: bool)
      requires base <= addr && addr + |data| <= base + |mem|
      modifies this`mem, this`log
      ensures violation <==> !Clear(addr, |data|)
      ensures mem == if violation then old(mem) else Overwrite(old(mem), addr - base, data)
      ensures log == if violation then old(log) else old(log) + [Access(addr, data)]
    {
      violation := exists x :: addr <= x < addr + |data| && x in guarded;
      if !violation {
        mem := Overwrite(mem, addr - base, data);
        log := log + [Access(addr, data)];
      }
    }

    /** One access of a running call. */
    method Issue(a: Access, ghost mem0: seq<Byte>, ghost log0: seq<Access>, ghost accesses: seq<Access>,
                 ghost at: nat, ghost start: nat, ghost src: seq<Byte>, ghost n: nat)
      returns (violation: bool, ghost accesses': seq<Access>)
      requires Wrote(mem0, mem, accesses, at, start, src, n) && Natural(a) && log == log0 + accesses
      requires n + |a.data| <= |src| && a.addr == start + n && a.data == src[n..n + |a.data|]
      requires at + base == start && start + |src| <= base + |mem|
      modifies this`mem, this`log
      ensures violation <==> !Clear(a.addr, |a.data|)
      ensures if violation then mem == old(mem) && log == old(log)
              else Wrote(mem0, mem, accesses', at, start, src, n + |a.data|) && log == log0 + accesses'
    {
      WroteMore(mem0, mem, accesses, at, start, src, n, a);
      violation := Store(a.addr, a.data);
      accesses' := accesses + [a];
    }

    /** One turn of the loop. */
    method WriteNext(start: nat, src: seq<Byte>, pos: nat, left: nat, ghost mem0: seq<Byte>,
                     ghost log0: seq<Access>, ghost accesses: seq<Access>)
      returns (violation: bool, width: nat, ghost accesses': seq<Access>)
      requires base <= start && start + |src| <= base + |mem|
      requires Wrote(mem0, mem, accesses, start - base, start, src, pos) && pos + left == |src| && 0 < left
      requires log == log0 + accesses
      modifies this`mem, this`log
      ensures 0 < width <= left && width <= 4 && (violation <==> !Clear(start + pos, width))
      ensures if violation then mem == old(mem) && log == old(log)
              else Wrote(mem0, mem, accesses', start - base, start, src, pos + width) && log == log0 + accesses'
    {
      var a := NextAccess(start, src, pos, left);
      width := |a.data|;
      violation, accesses' := Issue(a, mem0, log0, accesses, start - base, start, src, pos);
    }

    /** The loop: `n` bytes are written, by the accesses added to the log. */
    method WriteAll(start: nat, src: seq<Byte>) returns (rc: Status, ghost n: nat, ghost accesses: seq<Access>)
      requires base <= start && start + |src| <= base + |mem|
      modifies this`mem, this`log
      ensures Wrote(old(mem), mem, accesses, start - base, start, src, n) && log == old(log) + accesses
      ensures rc == if Clear(start, |src|) then Success else ProtectionViolation
      ensures Clear(start, n) && (rc == Success ==> n == |src|)
      ensures rc != Success ==> n < |src| && !Clear(start + n, if |src| - n < 4 then |src| - n else 4)
    {
      WroteNothing(mem, start - base, start, src);
      var pos: nat, left: nat := 0, |src|;
      rc, n, accesses := Success, 0, [];
      while left > 0
        invariant |mem| == |old(mem)| && pos + left == |src| && n == pos && rc == Success && Clear(start, pos)
        invariant Wrote(old(mem), mem, accesses, start - base, start, src, pos) && log == old(log) + accesses
      {
        var violation: bool, width: nat;
        ghost var accesses': seq<Access>;
        violation, width, accesses' := WriteNext(start, src, pos, left, old(mem), old(log), accesses);
        if violation {
          return ProtectionViolation, n, accesses;
        }
        accesses := accesses';
        pos := pos + width;
        left := left - width;
        n := pos;
      }
    }

    /**
     * FLASH_EepromWrite.  It writes everything exactly when no byte of the range is protected, and otherwise
     * a prefix that ends at most one access before a protected byte; then FlexRAM stays EEPROM.
     */
    method EepromWrite(start: nat, src: array<Byte>, length: nat)
      returns (status: Status, ghost n: nat, ghost accesses: seq<Access>)
      requires length <= src.Length && start + length < U32
      modifies this
      ensures status == AddressError <==> start < base || start + length > base + |old(mem)|
      ensures status == AddressError ==>
                mem == old(mem) && log == old(log) && eepromReady == old(eepromReady)
      ensures status != AddressError ==>
                && Wrote(old(mem), mem, accesses, start - base, start, src[..length], n)
                && log == old(log) + accesses && Clear(start, n)
                && (status in {Success, RecoverFlexramAsRamError} ==> n == length && Clear(start, length))
                && (status == Success ==> eepromReady == old(eepromReady))
                && (status == ProtectionViolation ==>
                      && eepromReady && n < length
                      && !Clear(start + n, if length - n < 4 then length - n else 4))
                && (!faulty ==> status == if Clear(start, length) then Success else ProtectionViolation)
    {
      n, accesses := 0, [];
      if start < base || start + length > base + |mem| {
        return AddressError, n, accesses;
      }
      WroteNothing(mem, start - base, start, src[..length]);
      status := Success;
      var needSwitch := false;
      if !eepromReady {
        needSwitch := true;
        status := SetFlexramFunction(true);
        if status != Success {
          return SetFlexramAsEepromError, n, accesses;
        }
      }
      status, n, accesses := WriteAll(start, src[..length]);
      if status != Success {
        return;
      }
      if needSwitch {
        status := SetFlexramFunction(false);
        if status != Success {
          return RecoverFlexramAsRamError, n, accesses;
        }
      }
    }
  }
}
