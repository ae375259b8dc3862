/**
 * FLASH_Erase and FLASH_VerifyErase: the sectors that an address range meets, and the pieces of it that
 * stay within one block.
 */
module FlashErase {
  import opened Multiples
  import opened Words
  import opened FlashDevice

  // ---------------------------------------------------------------- erase

  /** `cmds` erased one sector after the other from the one of `addr` on. */
  ghost predicate Swept(mem0: seq<Byte>, mem: seq<Byte>, cmds: seq<Command>, sectorSize: nat, addr: nat) {
    && 0 < sectorSize
    && mem == EraseSectors(mem0, sectorSize, addr / sectorSize, addr / sectorSize + |cmds| - 1)
    && forall k: nat :: k < |cmds| ==> cmds[k].EraseSector? && cmds[k].addr / sectorSize == addr / sectorSize + k
  }

  lemma {:induction false} SweptNothing(mem: seq<Byte>, sectorSize: nat, addr: nat)
    requires 0 < sectorSize
    ensures Swept(mem, mem, [], sectorSize, addr)
  {
    var q := addr / sectorSize;
    assert EraseSectors(mem, sectorSize, q, q - 1) == mem;
  }

  lemma {:induction false} EraseNext(mem: seq<Byte>, sectorSize: nat, first: nat, next: nat)
    requires 0 < sectorSize && first <= next
    ensures EraseSectors(EraseSectors(mem, sectorSize, first, next - 1), sectorSize, next, next)
            == EraseSectors(mem, sectorSize, first, next)
  {}

  lemma {:induction false} SweptMore(c: Config, mem0: seq<Byte>, mem: seq<Byte>, cmds: seq<Command>, addr: nat, at: nat)
    requires Swept(mem0, mem, cmds, c.sectorSize, addr)
    requires at / c.sectorSize == addr / c.sectorSize + |cmds|
    ensures Swept(mem0, Effect(c, mem, EraseSector(at)), cmds + [EraseSector(at)], c.sectorSize, addr)
  {
    EraseNext(mem0, c.sectorSize, addr / c.sectorSize, at / c.sectorSize);
  }

  /** start + lengthInBytes - 1 on 32-bit words. */
  function LastAddress(addr: nat, length: nat): nat {
    (addr + length + U32 - 1) % U32
  }

  /** The end address, if not a sector start, goes to the end of its sector. */
  function RoundedEnd(last: nat, sectorSize: nat): int
    requires 0 < sectorSize
  {
    if last % sectorSize != 0 then
      var numberOfSectors := last / sectorSize + 1;
      (numberOfSectors * sectorSize % U32 + U32 - 1) % U32
    else last
  }

  /** Sectors that the loop goes through, from that of `addr` to that of the end address. */
  function Sectors(addr: nat, length: nat, sectorSize: nat): int
    requires 0 < sectorSize
  {
    LastAddress(addr, length) / sectorSize + 1 - addr / sectorSize
  }

  lemma LastAddressIs(addr: nat, length: nat)
    requires addr + length < U32
    ensures LastAddress(addr, length) == if addr + length == 0 then U32 - 1 else addr + length - 1
  {}

  lemma NotMultiple(addr: nat, length: nat, sectorSize: nat, alignment: nat)
    requires 1 < alignment && 0 < sectorSize && sectorSize % alignment == 0 && 0 < addr + length
    requires addr % alignment == 0 && length % alignment == 0
    ensures (addr + length - 1) % sectorSize != 0
  {
    var last := addr + length - 1;
    MultipleSum(addr, length, alignment);
    if last % sectorSize == 0 {
      QuotientBounds(last, sectorSize);
      MultipleOfMultiple(last / sectorSize, sectorSize, alignment);
      MultipleSum(addr + length, last, alignment);
      assert false;
    }
  }

  lemma WrapDown(u: nat)
    requires 0 < u <= U32
    ensures (u % U32 + U32 - 1) % U32 == u - 1
  {}

  /** A multiple of the sector size covers the unit of every address below it. */
  lemma UnitEndWithin(x: nat, k: nat, bound: nat)
    requires 0 < k && bound % k == 0 && x < bound
    ensures UnitEnd(x, k) <= bound && 0 <= x / k < bound / k
  {
    QuotientBounds(x, k);
    QuotientBounds(bound, k);
    UnitEndIs(x, k);
    WithinCore(x, k, bound, x / k, bound / k);
  }

  lemma WithinCore(x: nat, k: nat, bound: nat, q: nat, n: nat)
    requires q * k <= x < q * k + k && bound == n * k && x < bound
    ensures q < n && q * k + k <= bound
  {
    MulLe(n, q, k);
    MulLe(q + 1, n, k);
    assert (q + 1) * k == q * k + k;
  }

  /** The end address is the last address of a sector, also where the subtraction wraps. */
  lemma RoundedEndIs(addr: nat, length: nat, sectorSize: nat, alignment: nat) returns (last: nat)
    requires 1 < alignment && 0 < sectorSize && sectorSize % alignment == 0 && U32 % sectorSize == 0
    requires addr % alignment == 0 && length % alignment == 0 && addr + length < U32
    ensures last == LastAddress(addr, length) < U32 && addr <= last + 1
    ensures RoundedEnd(last, sectorSize) == UnitEnd(last, sectorSize) - 1 && UnitEnd(last, sectorSize) <= U32
  {
    last := LastAddress(addr, length);
    LastAddressIs(addr, length);
    MultipleOfUnit(sectorSize, alignment);
    if addr + length == 0 {
      NotMultiple(U32, 0, sectorSize, alignment);
    } else {
      NotMultiple(addr, length, sectorSize, alignment);
    }
    UnitEndWithin(last, sectorSize, U32);
    UnitEndIs(last, sectorSize);
    assert (last / sectorSize + 1) * sectorSize == UnitEnd(last, sectorSize);
    WrapDown(UnitEnd(last, sectorSize));
  }

  lemma MultipleOfUnit(sectorSize: nat, alignment: nat)
    requires 0 < alignment && 0 < sectorSize && sectorSize % alignment == 0 && U32 % sectorSize == 0
    ensures U32 % alignment == 0
  {
    QuotientBounds(U32, sectorSize);
    MultipleOfMultiple(U32 / sectorSize, sectorSize, alignment);
  }

  /** Just past the last sector of the flash. */
  lemma PastTheEnd(start: nat, sectorSize: nat, size: nat)
    requires 0 < sectorSize && size % sectorSize == 0 && size <= start < size + sectorSize
    ensures start / sectorSize == size / sectorSize
  {
    QuotientBounds(size, sectorSize);
    QuotientIs(start, sectorSize, size / sectorSize);
  }

  /** The loop of FLASH_Erase, up to the end of the sector of `last`, or to a command that fails. */
  method EraseLoop(d: Device, addr: nat, endAddress: nat, ghost last: nat)
    returns (rc: Status, ghost cmds: seq<Command>)
    requires d.Valid() && d.config.Valid() && endAddress == UnitEnd(last, d.config.sectorSize) - 1
    requires addr <= last + 1 && addr <= |d.mem|
    modifies d`mem, d`log
    ensures d.Valid() && d.log == old(d.log) + cmds
    ensures Swept(old(d.mem), d.mem, cmds, d.config.sectorSize, addr)
    ensures rc in {Success, AccessError, ProtectionViolation, CommandFailure}
    ensures var total := last / d.config.sectorSize + 1 - addr / d.config.sectorSize;
            if rc == Success then |cmds| == total else |cmds| < total
    ensures addr / d.config.sectorSize + |cmds| <= d.config.size / d.config.sectorSize
    ensures rc != Success && !d.faulty ==>
              rc == AccessError && addr / d.config.sectorSize + |cmds| == d.config.size / d.config.sectorSize
  {
    var sectorSize := d.config.sectorSize;
    var start := addr;
    rc, cmds := Success, [];
    SweptNothing(d.mem, sectorSize, addr);
    QuotientMonotone(addr, last + 1, sectorSize);
    NextQuotient(last, sectorSize);
    StillWithin(start, sectorSize, |d.mem|);
    while start <= endAddress
      invariant d.Valid() && d.log == old(d.log) + cmds && rc == Success
      invariant Swept(old(d.mem), d.mem, cmds, sectorSize, addr) && start < |d.mem| + sectorSize
      invariant start / sectorSize == addr / sectorSize + |cmds| <= last / sectorSize + 1
      invariant start / sectorSize <= d.config.size / sectorSize
      decreases |d.mem| + sectorSize - start
    {
      rc, start, cmds := EraseNextSector(d, start, old(d.mem), old(d.log), cmds, addr, last);
      if rc != Success {
        return;
      }
      StillWithin(start, sectorSize, |d.mem|);
    }
    UnitReached(start, last, sectorSize);
  }

  lemma StillWithin(start: nat, sectorSize: nat, size: nat)
    requires 0 < sectorSize && size % sectorSize == 0 && start < size + sectorSize
    ensures start / sectorSize <= size / sectorSize
  {
    if size <= start {
      PastTheEnd(start, sectorSize, size);
    } else {
      QuotientMonotone(start, size, sectorSize);
    }
  }

  /** One turn of that loop. */
  method EraseNextSector(d: Device, start: nat, ghost mem0: seq<Byte>, ghost log0: seq<Command>,
                         ghost cmds: seq<Command>,
                         ghost addr: nat, ghost last: nat)
    returns (rc: Status, start': nat, ghost cmds': seq<Command>)
    requires d.Valid() && d.config.Valid() && d.log == log0 + cmds
    requires Swept(mem0, d.mem, cmds, d.config.sectorSize, addr) && start < UnitEnd(last, d.config.sectorSize)
    requires start / d.config.sectorSize == addr / d.config.sectorSize + |cmds| && start < |d.mem| + d.config.sectorSize
    modifies d`mem, d`log
    ensures d.Valid() && d.log == log0 + cmds' && Swept(mem0, d.mem, cmds', d.config.sectorSize, addr)
    ensures addr / d.config.sectorSize + |cmds| <= last / d.config.sectorSize
    ensures rc in {Success, AccessError, ProtectionViolation, CommandFailure}
    ensures if rc == Success
            then start < start' < |d.mem| + d.config.sectorSize && |cmds'| == |cmds| + 1
                 && start' / d.config.sectorSize == addr / d.config.sectorSize + |cmds'|
            else start' == start && cmds' == cmds
    ensures rc != Success && !d.faulty ==>
              rc == AccessError && addr / d.config.sectorSize + |cmds| == d.config.size / d.config.sectorSize
  {
    var sectorSize := d.config.sectorSize;
    UnitReached(start, last, sectorSize);
    SweptMore(d.config, mem0, d.mem, cmds, addr, start);
    rc := d.CommandSequence(EraseSector(start));
    start', cmds' := start, cmds;
    if rc == Success {
      cmds' := cmds + [EraseSector(start)];
      OneFurther(start, sectorSize);
      ModSmall(start + sectorSize, U32);
      start' := (start + sectorSize) % U32;
    } else if start >= |d.mem| {
      PastTheEnd(start, sectorSize, |d.mem|);
    }
  }

  lemma OneFurther(x: nat, k: nat)
    requires 0 < k
    ensures (x + k) / k == x / k + 1
  {
    QuotientShift(x, 1, k);
  }

  lemma NextQuotient(x: nat, k: nat)
    requires 0 < k
    ensures (x + 1) / k <= x / k + 1
  {
    OneFurther(x, k);
    QuotientMonotone(x + 1, x + k, k);
  }

  /** The end address as the driver computes it, always that of the sector of the last byte. */
  method EndAddress(addr: nat, length: nat, sectorSize: nat, ghost alignment: nat)
    returns (endAddress: nat, ghost last: nat)
    requires 1 < alignment && 0 < sectorSize && sectorSize % alignment == 0 && U32 % sectorSize == 0
    requires addr % alignment == 0 && length % alignment == 0 && addr + length < U32
    ensures last == LastAddress(addr, length) && addr <= last + 1 && endAddress == UnitEnd(last, sectorSize) - 1
  {
    last := RoundedEndIs(addr, length, sectorSize, alignment);
    endAddress := (addr + length + U32 - 1) % U32;
    if endAddress % sectorSize != 0 {
      var numberOfSectors := endAddress / sectorSize + 1;
      endAddress := (numberOfSectors * sectorSize % U32 + U32 - 1) % U32;
    }
  }

  /** FLASH_Erase once the arguments are found good. */
  method EraseChecked(d: Device, addr: nat, length: nat) returns (rc: Status, ghost cmds: seq<Command>)
    requires d.Valid() && d.config.Valid() && addr + length <= d.config.size
    requires addr % d.config.sectorCmdAlign == 0 && length % d.config.sectorCmdAlign == 0
    modifies d`mem, d`log
    ensures d.Valid() && d.log == old(d.log) + cmds
    ensures Swept(old(d.mem), d.mem, cmds, d.config.sectorSize, addr)
    ensures rc in {Success, AccessError, ProtectionViolation, CommandFailure}
    ensures if rc == Success then |cmds| == Sectors(addr, length, d.config.sectorSize)
            else |cmds| < Sectors(addr, length, d.config.sectorSize)
    ensures !d.faulty ==>
              if addr + length != 0 then rc == Success
              else rc == AccessError && |cmds| == d.config.size / d.config.sectorSize
  {
    ConfigWords(d.config);
    var endAddress: nat;
    ghost var last: nat;
    endAddress, last := EndAddress(addr, length, d.config.sectorSize, d.config.sectorCmdAlign);
    rc, cmds := EraseLoop(d, addr, endAddress, last);
    Outcome(addr, length, d.config.sectorSize, d.config.size, |cmds|);
  }

  /** Within the flash the loop cannot run off it; from a wrapped end address it must. */
  lemma Outcome(addr: nat, length: nat, sectorSize: nat, size: nat, n: nat)
    requires 0 < sectorSize && size % sectorSize == 0 && addr + length <= size < U32 && U32 % sectorSize == 0
    requires addr / sectorSize + n <= size / sectorSize
    ensures addr + length != 0 && addr / sectorSize + n == size / sectorSize ==> n >= Sectors(addr, length, sectorSize)
    ensures addr + length == 0 ==> n < Sectors(addr, length, sectorSize) && addr / sectorSize == 0
  {
    LastAgainstSize(addr, length, sectorSize, size);
  }

  /**
   * FLASH_Erase.  Success erases the sectors from that of the first byte to that of the last, each by one
   * command; a failing command leaves exactly a prefix of them erased.  A device without faults fails in one
   * case: zero bytes at the start of flash, where the end address wraps and the loop runs off the flash.
   */
  method EraseCall(d: Device, start: nat, length: nat, key: nat)
    returns (status: Status, ghost cmds: seq<Command>)
    requires d.Valid() && d.config.Valid() && start + length < U32
    modifies d`mem, d`log
    ensures d.Valid() && d.log == old(d.log) + cmds
    ensures status in {AlignmentError, AddressError, EraseKeyError} ==> d.mem == old(d.mem) && cmds == []
    ensures start % d.config.sectorCmdAlign != 0 || length % d.config.sectorCmdAlign != 0 <==> status == AlignmentError
    ensures status == AddressError <==>
              && start % d.config.sectorCmdAlign == 0 && length % d.config.sectorCmdAlign == 0
              && (start < d.config.base || start + length > d.config.base + d.config.size)
    ensures status == EraseKeyError <==>
              && start % d.config.sectorCmdAlign == 0 && length % d.config.sectorCmdAlign == 0
              && d.config.base <= start && start + length <= d.config.base + d.config.size
              && key != 0x6B65_666B
    ensures status !in {AlignmentError, AddressError, EraseKeyError} ==>
              var addr, sectorSize := start - d.config.base, d.config.sectorSize;
              && status in {Success, AccessError, ProtectionViolation, CommandFailure}
              && Swept(old(d.mem), d.mem, cmds, sectorSize, addr)
              && (status == Success && 0 < length ==> ErasedExactly(old(d.mem), d.mem, sectorSize, addr, length))
              && (if status == Success then |cmds| == Sectors(addr, length, sectorSize)
                  else |cmds| < Sectors(addr, length, sectorSize))
              && (!d.faulty ==>
                    if addr + length != 0 then status == Success
                    else status == AccessError && |cmds| == d.config.size / sectorSize)
  {
    cmds := [];
    status := CheckRange(d.config, start, length, d.config.sectorCmdAlign);
    if status != Success {
      return;
    }
    if key != ERASE_KEY {
      return EraseKeyError, cmds;
    }
    MultipleSum(start, d.config.base, d.config.sectorCmdAlign);
    status, cmds := EraseChecked(d, start - d.config.base, length);
    if status == Success && 0 < length {
      SweptExactly(old(d.mem), d.mem, cmds, d.config.sectorSize, start - d.config.base, length);
    }
  }

  /** The end address lies in the flash, or it has wrapped and lies beyond. */
  lemma LastAgainstSize(addr: nat, length: nat, sectorSize: nat, size: nat)
    requires 0 < sectorSize && size % sectorSize == 0 && addr + length <= size && U32 % sectorSize == 0 && size < U32
    ensures addr + length != 0 ==> LastAddress(addr, length) / sectorSize < size / sectorSize
    ensures addr + length == 0 ==> LastAddress(addr, length) / sectorSize + 1 == U32 / sectorSize > size / sectorSize
    ensures addr == 0 ==> addr / sectorSize == 0
  {
    LastAddressIs(addr, length);
    if addr + length != 0 {
      UnitEndWithin(addr + length - 1, sectorSize, size);
    } else {
      LastOfAll(sectorSize);
      UnitEndWithin(size, sectorSize, U32);
    }
    if addr == 0 { QuotientIs(0, sectorSize, 0); }
  }

  lemma LastOfAll(sectorSize: nat)
    requires 0 < sectorSize && U32 % sectorSize == 0
    ensures (U32 - 1) / sectorSize + 1 == U32 / sectorSize
  {
    QuotientBounds(U32, sectorSize);
    var m := U32 / sectorSize;
    assert (m - 1) * sectorSize == m * sectorSize - sectorSize;
    QuotientIs(U32 - 1, sectorSize, m - 1);
  }

  /** Exactly the sectors that meet the range are erased; all other bytes are as before. */
  ghost predicate ErasedExactly(mem0: seq<Byte>, mem: seq<Byte>, sectorSize: nat, addr: nat, length: nat) {
    && 0 < sectorSize && |mem| == |mem0|
    && forall i: nat :: i < |mem| ==>
         mem[i] == if Meets(i / sectorSize, sectorSize, addr, length) then ERASED else mem0[i]
  }

  /** Sweeping to the sector of the last byte of a nonempty range erases exactly the sectors that meet it. */
  lemma {:induction false} SweptExactly(mem0: seq<Byte>, mem: seq<Byte>, cmds: seq<Command>, sectorSize: nat,
                                        addr: nat, length: nat)
    requires Swept(mem0, mem, cmds, sectorSize, addr) && 0 < length && addr + length < U32
    requires |cmds| == Sectors(addr, length, sectorSize)
    ensures ErasedExactly(mem0, mem, sectorSize, addr, length)
  {
    LastAddressIs(addr, length);
    forall i: nat | i < |mem|
      ensures mem[i] == if Meets(i / sectorSize, sectorSize, addr, length) then ERASED else mem0[i]
    {
      MeetsIffBetween(i / sectorSize, sectorSize, addr, length);
    }
  }

  lemma {:induction false} ExactlyIsErased(mem0: seq<Byte>, mem: seq<Byte>, sectorSize: nat, addr: nat, length: nat)
    requires ErasedExactly(mem0, mem, sectorSize, addr, length) && addr + length <= |mem|
    ensures IsErased(mem, addr, length)
  {
    forall i: nat | addr <= i < addr + length ensures mem[i] == ERASED {
      assert Meets(i / sectorSize, sectorSize, addr, length);
    }
  }

  /** Each sector that meets the range is erased by exactly one command, and no other sector by any. */
  lemma {:induction false} EachSectorOnce(mem0: seq<Byte>, mem: seq<Byte>, cmds: seq<Command>, sectorSize: nat,
                                          addr: nat, length: nat, j: nat)
    requires Swept(mem0, mem, cmds, sectorSize, addr) && 0 < length && addr + length < U32
    requires |cmds| == Sectors(addr, length, sectorSize)
    ensures Meets(j, sectorSize, addr, length) <==> exists k: nat :: k < |cmds| && cmds[k].addr / sectorSize == j
    ensures forall k: nat, m: nat :: k < m < |cmds| ==> cmds[k].addr / sectorSize != cmds[m].addr / sectorSize
  {
    LastAddressIs(addr, length);
    MeetsIffBetween(j, sectorSize, addr, length);
    if Meets(j, sectorSize, addr, length) {
      assert cmds[j - addr / sectorSize].addr / sectorSize == j;
    }
  }

  /**
   * For an empty range the driver has no sector to go through exactly when the address is sector aligned
   * and not 0.  At an unaligned address it has one, that nobody named, and at 0 all of the address space.
   */
  lemma EmptyEraseHarmless(sectorSize: nat, addr: nat)
    requires 0 < sectorSize && U32 % sectorSize == 0 && addr < U32
    ensures Sectors(addr, 0, sectorSize) == 0 <==> addr % sectorSize == 0 && addr != 0
    ensures addr % sectorSize != 0 ==> Sectors(addr, 0, sectorSize) == 1
    ensures addr == 0 ==> Sectors(addr, 0, sectorSize) == U32 / sectorSize
  {
    LastAddressIs(addr, 0);
    QuotientBounds(addr, sectorSize);
    if addr == 0 {
      LastOfAll(sectorSize);
      QuotientIs(0, sectorSize, 0);
      QuotientPositive(U32, sectorSize);
    } else {
      StepBack(addr, sectorSize);
    }
  }

  lemma QuotientPositive(x: nat, k: nat)
    requires 0 < k && 0 < x && x % k == 0
    ensures 0 < x / k
  {
    QuotientBounds(x, k);
  }

  lemma StepBack(x: nat, k: nat)
    requires 0 < k && 0 < x
    ensures (x - 1) / k == if x % k == 0 then x / k - 1 else x / k
  {
    QuotientBounds(x, k);
    var q := x / k;
    if x % k == 0 {
      assert (q - 1) * k == q * k - k;
      QuotientIs(x - 1, k, q - 1);
    } else {
      QuotientIs(x - 1, k, q);
    }
  }

  /**
   * FLASH_Erase of zero bytes on a device without faults: nothing happens if and only if the address is
   * sector aligned and not the start of flash.  An address inside a sector loses that sector; the start of
   * flash loses everything, and the call then fails.
   */
  method EraseZeroBytes(d: Device, start: nat) returns (status: Status, ghost cmds: seq<Command>)
    requires d.Valid() && d.config.Valid() && !d.faulty && start < U32
    requires start % d.config.sectorCmdAlign == 0
    requires d.config.base <= start <= d.config.base + d.config.size
    modifies d`mem, d`log
    ensures d.Valid() && d.log == old(d.log) + cmds
    ensures var addr, sectorSize := start - d.config.base, d.config.sectorSize;
            && (cmds == [] <==> addr % sectorSize == 0 && addr != 0)
            && (cmds == [] ==> status == Success && d.mem == old(d.mem))
            && (addr == 0 ==> status == AccessError && forall i :: 0 <= i < |d.mem| ==> d.mem[i] == ERASED)
            && (addr % sectorSize != 0 ==>
                  && status == Success
                  && d.mem == EraseSectors(old(d.mem), sectorSize, addr / sectorSize, addr / sectorSize))
  {
    ConfigWords(d.config);
    EmptyEraseHarmless(d.config.sectorSize, start - d.config.base);
    status, cmds := EraseCall(d, start, 0, ERASE_KEY);
    ZeroSweep(old(d.mem), d.mem, cmds, d.config.sectorSize, start - d.config.base);
    QuotientPositive(d.config.size, d.config.sectorSize);
  }

  /** What sweeps of no sector, of one and of all leave. */
  lemma {:induction false} ZeroSweep(mem0: seq<Byte>, mem: seq<Byte>, cmds: seq<Command>, sectorSize: nat, addr: nat)
    requires Swept(mem0, mem, cmds, sectorSize, addr) && |mem0| % sectorSize == 0
    ensures cmds == [] ==> mem == mem0
    ensures |cmds| == 1 ==> mem == EraseSectors(mem0, sectorSize, addr / sectorSize, addr / sectorSize)
    ensures addr == 0 && |cmds| == |mem0| / sectorSize ==> forall i :: 0 <= i < |mem| ==> mem[i] == ERASED
  {
    if cmds == [] { SweptNothing(mem0, sectorSize, addr); }
    if addr == 0 && |cmds| == |mem0| / sectorSize {
      QuotientIs(0, sectorSize, 0);
      forall i: nat | i < |mem| ensures mem[i] == ERASED { UnitEndWithin(i, sectorSize, |mem0|); }
    }
  }

  // ---------------------------------------------------------------- verify

  /** Section checks that follow one another from `start` to `end`. */
  ghost predicate Checks(cmds: seq<Command>, start: nat, end: nat) {
    if cmds == [] then start == end
    else
      var c := cmds[|cmds| - 1];
      c.VerifySection? && c.addr + c.length == end && Checks(cmds[..|cmds| - 1], start, c.addr)
  }

  lemma {:induction false} ChecksAppend(cmds: seq<Command>, start: nat, end: nat, c: Command)
    requires Checks(cmds, start, end) && c.VerifySection? && c.addr == end
    ensures Checks(cmds + [c], start, end + c.length)
  {
    assert (cmds + [c])[..|cmds + [c]| - 1] == cmds;
  }

  /** Nonempty, within one block, and of exactly the phrases announced. */
  ghost predicate GoodCheck(c: Config, cmd: Command) {
    && cmd.VerifySection? && 0 < cmd.length && 0 < c.blockSize
    && cmd.addr + cmd.length <= UnitEnd(cmd.addr, c.blockSize)
    && cmd.phrases * c.sectionCmdAlign == cmd.length
  }

  ghost predicate Checking(d: Device, log0: seq<Command>, cmds: seq<Command>, addr: nat, pos: nat)
    reads d
  {
    && d.Valid() && d.log == log0 + cmds && Checks(cmds, addr, pos) && addr <= pos
    && IsErased(d.mem, addr, pos - addr) && forall cmd :: cmd in cmds ==> GoodCheck(d.config, cmd)
  }

  lemma PhraseCount(length: nat, blockSize: nat, alignment: nat)
    requires 0 < alignment && length <= blockSize && length % alignment == 0 && blockSize / alignment < 0x1_0000
    ensures var phrases := length / alignment % 0x1_0000; 0 <= phrases && phrases * alignment == length
  {
    QuotientMonotone(length, blockSize, alignment);
    QuotientBounds(length, alignment);
  }

  /** The 16-bit phrase count is exact if and only if the check is shorter than 2^16 phrases. */
  lemma PhraseCountIff(length: nat, alignment: nat)
    requires 0 < alignment && length % alignment == 0
    ensures length / alignment % 0x1_0000 * alignment == length <==> length < 0x1_0000 * alignment
  {
    QuotientBounds(length, alignment);
    PhraseCore(length, alignment, length / alignment, length / alignment % 0x1_0000);
  }

  lemma PhraseCore(length: nat, alignment: nat, n: nat, kept: nat)
    requires 0 < alignment && length == n * alignment && kept == n % 0x1_0000
    ensures kept * alignment == length <==> length < 0x1_0000 * alignment
  {
    MulLe(0x1_0000, n, alignment);
    MulLe(n + 1, 0x1_0000, alignment);
    MulLe(kept + 1, n, alignment);
    assert (n + 1) * alignment == n * alignment + alignment && (kept + 1) * alignment == kept * alignment + alignment;
  }

  /** On a device whose blocks are shorter than that, the count of every check is exact. */
  lemma PhrasesExact(c: Config, start: nat, length: nat)
    requires c.Valid() && 0 < length && length % c.sectionCmdAlign == 0 && start + length <= UnitEnd(start, c.blockSize)
    ensures var phrases := length / c.sectionCmdAlign % 0x1_0000;
            phrases * c.sectionCmdAlign == length && GoodCheck(c, VerifySection(start, length, phrases))
  {
    UnitEndBounds(start, c.blockSize);
    PhraseCount(length, c.blockSize, c.sectionCmdAlign);
  }

  /** One turn of the loop of FLASH_VerifyErase. */
  method VerifyPart(d: Device, start: nat, remaining: nat, nextBlockStart: nat, ghost log0: seq<Command>,
                    ghost cmds: seq<Command>, ghost addr: nat)
    returns (rc: Status, start': nat, remaining': nat, ghost cmds': seq<Command>)
    requires d.config.Valid() && Checking(d, log0, cmds, addr, start)
    requires 0 < remaining && start + remaining <= d.config.size
    requires nextBlockStart == UnitEnd(start, d.config.blockSize)
    requires start % d.config.sectionCmdAlign == 0 && remaining % d.config.sectionCmdAlign == 0
    modifies d`mem, d`log
    ensures d.Valid() && d.mem == old(d.mem) && start' + remaining' == start + remaining && remaining' < remaining
    ensures start' % d.config.sectionCmdAlign == 0 && remaining' % d.config.sectionCmdAlign == 0
    ensures remaining' > 0 ==> nextBlockStart + d.config.blockSize == UnitEnd(start', d.config.blockSize)
    ensures rc in {Success, AccessError, ProtectionViolation, CommandFailure}
    ensures if rc == Success then Checking(d, log0, cmds', addr, start')
            else d.faulty || !IsErased(d.mem, start, remaining)
  {
    UnitEndBounds(start, d.config.blockSize);
    ShareOfUnit(start, remaining, d.config.blockSize, d.config.sectionCmdAlign);
    var verifyLength: nat := nextBlockStart - start;
    if verifyLength > remaining {
      verifyLength := remaining;
    }
    PhrasesExact(d.config, start, verifyLength);
    var cmd := VerifySection(start, verifyLength, verifyLength / d.config.sectionCmdAlign % 0x1_0000);
    rc := d.CommandSequence(cmd);
    cmds' := cmds + [cmd];
    ChecksAppend(cmds, addr, start, cmd);
    start', remaining' := start + verifyLength, remaining - verifyLength;
    if remaining' > 0 {
      UnitEndOfMultiple(nextBlockStart, d.config.blockSize);
    }
  }

  method VerifyLoop(d: Device, addr: nat, length: nat) returns (rc: Status, ghost cmds: seq<Command>)
    requires d.config.Valid() && d.Valid() && addr + length <= d.config.size
    requires addr % d.config.sectionCmdAlign == 0 && length % d.config.sectionCmdAlign == 0
    modifies d`mem, d`log
    ensures d.Valid() && d.mem == old(d.mem)
    ensures rc in {Success, AccessError, ProtectionViolation, CommandFailure}
    ensures if rc == Success then Checking(d, old(d.log), cmds, addr, addr + length)
            else d.faulty || !IsErased(d.mem, addr, length)
  {
    var blockSize := d.config.blockSize;
    ConfigWords(d.config);
    var nextBlockStart := AlignUpBits(addr, blockSize);
    if nextBlockStart == addr {
      nextBlockStart := nextBlockStart + blockSize;
    }
    AlignUpToUnitEnd(addr, blockSize);
    var start: nat, remaining: nat := addr, length;
    rc, cmds := Success, [];
    while remaining != 0
      invariant start + remaining == addr + length && d.mem == old(d.mem)
      invariant Checking(d, old(d.log), cmds, addr, start)
      invariant start % d.config.sectionCmdAlign == 0 && remaining % d.config.sectionCmdAlign == 0
      invariant remaining > 0 ==> nextBlockStart == UnitEnd(start, blockSize)
      decreases remaining
    {
      rc, start, remaining, cmds := VerifyPart(d, start, remaining, nextBlockStart, old(d.log), cmds, addr);
      if rc != Success {
        return;
      }
      nextBlockStart := nextBlockStart + blockSize;
    }
    return Success, cmds;
  }

  /**
   * FLASH_VerifyErase.  On a device without faults it answers whether the whole range is erased, and what it
   * asked are checks that follow one another through the range, none across a block boundary.
   */
  method VerifyEraseCall(d: Device, start: nat, length: nat) returns (status: Status, ghost cmds: seq<Command>)
    requires d.Valid() && d.config.Valid() && start + length < U32
    modifies d`mem, d`log
    ensures d.Valid() && d.mem == old(d.mem)
    ensures status in {AlignmentError, AddressError} ==> d.log == old(d.log)
    ensures status == AlignmentError <==>
              start % d.config.sectionCmdAlign != 0 || length % d.config.sectionCmdAlign != 0
    ensures status == AddressError <==>
              && start % d.config.sectionCmdAlign == 0 && length % d.config.sectionCmdAlign == 0
              && (start < d.config.base || start + length > d.config.base + d.config.size)
    ensures status !in {AlignmentError, AddressError} ==>
              var addr := start - d.config.base;
              && status in {Success, AccessError, ProtectionViolation, CommandFailure}
              && (status == Success ==> Checking(d, old(d.log), cmds, addr, addr + length))
              && (status != Success ==> d.faulty || !IsErased(d.mem, addr, length))
  {
    cmds := [];
    status := CheckRange(d.config, start, length, d.config.sectionCmdAlign);
    if status != Success {
      return;
    }
    MultipleSum(start, d.config.base, d.config.sectionCmdAlign);
    status, cmds := VerifyLoop(d, start - d.config.base, length);
  }

  ghost predicate Covers(cmd: Command, x: nat) {
    cmd.VerifySection? && cmd.addr <= x < cmd.addr + cmd.length
  }

  /** Every byte of the range is covered by exactly one of the checks. */
  lemma {:induction false} ChecksPartition(c: Config, cmds: seq<Command>, start: nat, end: nat, x: nat)
    returns (k: nat)
    requires Checks(cmds, start, end) && (forall cmd :: cmd in cmds ==> GoodCheck(c, cmd)) && start <= x < end
    ensures k < |cmds| && forall m: nat :: m < |cmds| ==> (Covers(cmds[m], x) <==> m == k)
    decreases |cmds|
  {
    var n := |cmds| - 1;
    var before := cmds[..n];
    assert forall cmd :: cmd in before ==> cmd in cmds;
    assert forall m: nat :: m < n ==> cmds[m] == before[m] && before[m] in before;
    ChecksWithin(c, before, start, cmds[n].addr);
    if x >= cmds[n].addr {
      k := n;
    } else {
      k := ChecksPartition(c, before, start, cmds[n].addr, x);
    }
  }

  lemma {:induction false} ChecksWithin(c: Config, cmds: seq<Command>, start: nat, end: nat)
    requires Checks(cmds, start, end) && forall cmd :: cmd in cmds ==> GoodCheck(c, cmd)
    ensures start <= end && forall cmd :: cmd in cmds ==> cmd.VerifySection? && cmd.addr + cmd.length <= end
    decreases |cmds|
  {
    if cmds != [] {
      var n := |cmds| - 1;
      assert cmds[n] in cmds;
      var before := cmds[..n];
      assert cmds == before + [cmds[n]];
      assert forall cmd :: cmd in before ==> cmd in cmds;
      ChecksWithin(c, before, start, cmds[n].addr);
    }
  }

  /** An accepted erase followed by an accepted verify of the same range, on a device without faults. */
  method EraseThenVerify(d: Device, start: nat, length: nat) returns (erased: Status, verified: Status)
    requires d.Valid() && d.config.Valid() && !d.faulty && start + length < U32 && 0 < length
    requires start % d.config.sectorCmdAlign == 0 && length % d.config.sectorCmdAlign == 0
    requires start % d.config.sectionCmdAlign == 0 && length % d.config.sectionCmdAlign == 0
    requires d.config.base <= start && start + length <= d.config.base + d.config.size
    modifies d`mem, d`log
    ensures erased == Success && verified == Success
    ensures ErasedExactly(old(d.mem), d.mem, d.config.sectorSize, start - d.config.base, length)
  {
    ghost var cmds: seq<Command>;
    erased, cmds := EraseCall(d, start, length, ERASE_KEY);
    ExactlyIsErased(old(d.mem), d.mem, d.config.sectorSize, start - d.config.base, length);
    verified, cmds := VerifyEraseCall(d, start, length);
  }
}
