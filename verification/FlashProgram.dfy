/**
 * FLASH_ProgramSection and FLASH_Program split a write into hardware commands.  Both have the effect of
 * one plain write, or on failure of one plain write of a prefix.
 */
module FlashProgram {
  import opened Multiples
  import opened Words
  import opened FlashDevice

  /** The commands write `data` from `start` on, each where the one before ended. */
  ghost predicate Tiles(cmds: seq<Command>, start: nat, data: seq<Byte>) {
    if cmds == [] then data == []
    else
      var c := cmds[|cmds| - 1];
      && (c.ProgramSection? || c.ProgramUnit?)
      && |c.data| <= |data| && data[|data| - |c.data|..] == c.data
      && c.addr == start + |data| - |c.data|
      && Tiles(cmds[..|cmds| - 1], start, data[..|data| - |c.data|])
  }

  lemma {:induction false} TilesMore(cmds: seq<Command>, start: nat, src: seq<Byte>, n: nat, c: Command)
    requires c.ProgramSection? || c.ProgramUnit?
    requires n + |c.data| <= |src| && Tiles(cmds, start, src[..n])
    requires c.addr == start + n && c.data == src[n..n + |c.data|]
    ensures Tiles(cmds + [c], start, src[..n + |c.data|])
  {
    var all, whole := cmds + [c], src[..n + |c.data|];
    assert all[..|all| - 1] == cmds && whole[..|whole| - |c.data|] == src[..n];
  }

  /** Programming a prefix of `src` and then what follows is programming the longer prefix. */
  lemma {:induction false} ProgramMore(mem: seq<Byte>, addr: nat, src: seq<Byte>, n: nat, data: seq<Byte>)
    requires n + |data| <= |src| && data == src[n..n + |data|]
    ensures Program(Program(mem, addr, src[..n]), addr + n, data) == Program(mem, addr, src[..n + |data|])
  {
    var done := src[..n];
    assert src[..n + |data|] == done + data && |done| == n;
    ProgramJoins(mem, addr, done, data);
  }

  /**
   * A section command stays in one sector, fits the acceleration RAM and has an exact phrase count; a unit
   * command writes one aligned unit.
   */
  ghost predicate GoodCommand(c: Config, cmd: Command) {
    match cmd
    case ProgramSection(addr, data, phrases) =>
      && 0 < |data| <= ACCELERATION_RAM_SIZE
      && 0 < c.sectorSize && addr + |data| <= UnitEnd(addr, c.sectorSize)
      && phrases * c.sectionCmdAlign == |data|
      && 0 < c.sectionCmdAlign && addr % c.sectionCmdAlign == 0
    case ProgramUnit(addr, data) =>
      |data| == c.writeUnit && ((|data| == 4 && addr % 4 == 0) || (|data| == 8 && addr % 8 == 0))
    case _ => false
  }

  ghost predicate AllGood(c: Config, cmds: seq<Command>) {
    forall cmd :: cmd in cmds ==> GoodCommand(c, cmd)
  }

  lemma {:induction false} AllGoodAppend(c: Config, cmds: seq<Command>, cmd: Command)
    requires AllGood(c, cmds) && GoodCommand(c, cmd)
    ensures AllGood(c, cmds + [cmd])
  {}

  /** What a programming call achieved: the first `n` bytes, by commands that tile them. */
  ghost predicate Wrote(mem0: seq<Byte>, mem: seq<Byte>, cmds: seq<Command>, addr: nat, src: seq<Byte>, n: nat)
  {
    && n <= |src|
    && mem == Program(mem0, addr, src[..n])
    && Tiles(cmds, addr, src[..n])
  }

  lemma {:induction false} WroteNothing(mem: seq<Byte>, addr: nat, src: seq<Byte>)
    ensures Wrote(mem, mem, [], addr, src, 0)
  {
    assert src[..0] == [] && Program(mem, addr, []) == mem;
  }

  /** One more command that takes the next bytes. */
  lemma {:induction false} WroteMore(mem0: seq<Byte>, mem: seq<Byte>, cmds: seq<Command>, addr: nat, src: seq<Byte>,
                                     n: nat, cmd: Command)
    requires Wrote(mem0, mem, cmds, addr, src, n) && (cmd.ProgramSection? || cmd.ProgramUnit?)
    requires n + |cmd.data| <= |src| && cmd.addr == addr + n && cmd.data == src[n..n + |cmd.data|]
    ensures Wrote(mem0, Program(mem, cmd.addr, cmd.data), cmds + [cmd], addr, src, n + |cmd.data|)
  {
    ProgramMore(mem0, addr, src, n, cmd.data);
    TilesMore(cmds, addr, src, n, cmd);
  }

  /** The pass size: what is left of the sector, at most the acceleration RAM. */
  lemma PassIsGood(c: Config, addr: nat, left: nat, data: seq<Byte>)
    requires c.Valid() && addr % c.sectionCmdAlign == 0 && left % c.sectionCmdAlign == 0
    requires 0 < left && addr + left <= UnitEnd(addr, c.sectorSize)
    requires |data| == if left > ACCELERATION_RAM_SIZE then ACCELERATION_RAM_SIZE else left
    ensures GoodCommand(c, ProgramSection(addr, data, |data| / c.sectionCmdAlign)) && |data| % 4 == 0
    ensures (addr + |data|) % c.sectionCmdAlign == 0 && (left - |data|) % c.sectionCmdAlign == 0
    ensures left - |data| > 0 ==> UnitEnd(addr + |data|, c.sectorSize) == UnitEnd(addr, c.sectorSize)
  {
    var size := |data|;
    QuotientBounds(size, c.sectionCmdAlign);
    MultipleSum(addr, size, c.sectionCmdAlign);
    MultipleSum(left, size, c.sectionCmdAlign);
    MultipleOfMultiple(size / c.sectionCmdAlign, c.sectionCmdAlign, 4);
    if left > size { SameUnit(addr, addr + size, c.sectorSize); }
  }

  /** The books of a running call: flash contents and command log against those at its start. */
  ghost predicate Running(d: Device, mem0: seq<Byte>, log0: seq<Command>, cmds: seq<Command>,
                          addr: nat, src: seq<Byte>, n: nat)
    reads d
  {
    && d.Valid() && Wrote(mem0, d.mem, cmds, addr, src, n) && AllGood(d.config, cmds) && d.log == log0 + cmds
    && addr + |src| <= |d.mem|
  }

  /** The device refused a command. */
  ghost predicate DeviceFailed(d: Device, rc: Status) {
    d.faulty && rc in {AccessError, ProtectionViolation, CommandFailure}
  }

  /** One command of a running call. */
  method Issue(d: Device, cmd: Command, ghost mem0: seq<Byte>, ghost log0: seq<Command>, ghost cmds: seq<Command>,
               ghost addr: nat, ghost src: seq<Byte>, ghost n: nat)
    returns (rc: Status, ghost cmds': seq<Command>)
    requires Running(d, mem0, log0, cmds, addr, src, n) && AllGood(d.config, cmds + [cmd])
    requires cmd.ProgramSection? || cmd.ProgramUnit?
    requires n + |cmd.data| <= |src| && cmd.addr == addr + n && cmd.data == src[n..n + |cmd.data|]
    modifies d`mem, d`log
    ensures if rc == Success then Running(d, mem0, log0, cmds', addr, src, n + |cmd.data|)
            else DeviceFailed(d, rc) && Running(d, mem0, log0, cmds', addr, src, n)
  {
    WroteMore(mem0, d.mem, cmds, addr, src, n, cmd);
    rc := d.CommandSequence(cmd);
    cmds' := if rc == Success then cmds + [cmd] else cmds;
  }

  lemma FourDivides(x: nat, y: nat)
    requires x % 4 == 0 && y % 4 == 0
    ensures (x + y) % 4 == 0 && x / 4 * 4 == x
  {}

  /**
   * What the inner loop keeps: `here` and the `left` bytes to go are aligned, and these bytes are in the
   * sector of `here`.
   */
  ghost predicate InSector(c: Config, here: nat, left: nat) {
    && 1 < c.sectionCmdAlign && 0 < c.sectorSize
    && here % c.sectionCmdAlign == 0 && left % c.sectionCmdAlign == 0
    && (left > 0 ==> here + left <= UnitEnd(here, c.sectorSize))
  }

  lemma InSectorStep(c: Config, here: nat, left: nat, data: seq<Byte>)
    requires c.Valid() && InSector(c, here, left) && 0 < left
    requires |data| == if left > ACCELERATION_RAM_SIZE then ACCELERATION_RAM_SIZE else left
    ensures GoodCommand(c, ProgramSection(here, data, |data| / c.sectionCmdAlign)) && |data| % 4 == 0
    ensures InSector(c, here + |data|, left - |data|)
  {
    PassIsGood(c, here, left, data);
  }

  /** One pass of the inner loop: fill the acceleration RAM and issue one command. */
  method ProgramPass(d: Device, src: seq<Byte>, from: nat, here: nat, left: nat,
                     ghost mem0: seq<Byte>, ghost log0: seq<Command>, ghost cmds: seq<Command>, ghost addr: nat)
    returns (rc: Status, size: nat, here': nat, left': nat, ghost cmds': seq<Command>)
    requires Running(d, mem0, log0, cmds, addr, src, from) && d.config.Valid()
    requires from + left <= |src| && 0 < left && here == addr + from && InSector(d.config, here, left)
    modifies d`mem, d`log
    ensures 0 < size && size % 4 == 0 && here' == here + size && left' + size == left
    ensures InSector(d.config, here', left')
    ensures if rc == Success then Running(d, mem0, log0, cmds', addr, src, from + size)
            else DeviceFailed(d, rc) && Running(d, mem0, log0, cmds', addr, src, from)
  {
    size := if left > ACCELERATION_RAM_SIZE then ACCELERATION_RAM_SIZE else left;
    here', left' := here + size, left - size;
    var ram := src[from..from + size];
    InSectorStep(d.config, here, left, ram);
    var cmd := ProgramSection(here, ram, size / d.config.sectionCmdAlign);
    AllGoodAppend(d.config, cmds, cmd);
    rc, cmds' := Issue(d, cmd, mem0, log0, cmds, addr, src, from);
  }

  /** One turn of the inner loop, `offset` bytes into the current sector's share. */
  method ProgramNextPass(d: Device, src: seq<Byte>, srcPos: nat, offset: nat, here: nat, left: nat,
                         ghost mem0: seq<Byte>,
                         ghost log0: seq<Command>, ghost cmds: seq<Command>, ghost addr: nat)
    returns (rc: Status, offset': nat, here': nat, left': nat, ghost cmds': seq<Command>)
    requires Running(d, mem0, log0, cmds, addr, src, srcPos + offset) && d.config.Valid() && offset % 4 == 0
    requires srcPos + offset + left <= |src| && 0 < left && here == addr + srcPos + offset
              && InSector(d.config, here, left)
    modifies d`mem, d`log
    ensures offset' % 4 == 0 && here' == addr + srcPos + offset' && offset' + left' == offset + left && left' < left
    ensures InSector(d.config, here', left')
    ensures if rc == Success then Running(d, mem0, log0, cmds', addr, src, srcPos + offset')
            else DeviceFailed(d, rc) && Running(d, mem0, log0, cmds', addr, src, srcPos + offset)
  {
    FourDivides(offset, 0);
    var from: nat := srcPos + offset / 4 * 4;
    var size: nat;
    rc, size, here', left', cmds' := ProgramPass(d, src, from, here, left, mem0, log0, cmds, addr);
    FourDivides(offset, size);
    offset' := offset + size;
  }

  /** The inner loop: the part of the request in one sector. */
  method ProgramCurrentSector(d: Device, src: seq<Byte>, srcPos: nat, start: nat, length: nat, ghost mem0: seq<Byte>,
                              ghost log0: seq<Command>, ghost cmds: seq<Command>, ghost addr: nat)
    returns (rc: Status, currentOffset: nat, ghost cmds': seq<Command>)
    requires Running(d, mem0, log0, cmds, addr, src, srcPos) && d.config.Valid()
    requires srcPos + length <= |src| && start == addr + srcPos
    requires 0 < length && InSector(d.config, start, length)
    modifies d`mem, d`log
    ensures currentOffset <= length && currentOffset % 4 == 0
    ensures Running(d, mem0, log0, cmds', addr, src, srcPos + currentOffset)
    ensures if rc == Success then currentOffset == length else DeviceFailed(d, rc)
  {
    var left: nat, here: nat := length, start;
    currentOffset, cmds', rc := 0, cmds, Success;
    while left > 0
      invariant here == addr + srcPos + currentOffset && currentOffset + left == length && currentOffset % 4 == 0
      invariant InSector(d.config, here, left) && rc == Success
      invariant Running(d, mem0, log0, cmds', addr, src, srcPos + currentOffset)
    {
      var offset': nat;
      rc, offset', here, left, cmds' :=
        ProgramNextPass(d, src, srcPos, currentOffset, here, left, mem0, log0, cmds', addr);
      if rc != Success {
        return;
      }
      currentOffset := offset';
    }
  }

  /** The part of the request that lies in the sector of `start`. */
  method SectorShare(c: Config, start: nat, left: nat) returns (share: nat)
    requires c.Valid() && start + left <= c.size && 0 < left
    requires start % c.sectionCmdAlign == 0 && left % c.sectionCmdAlign == 0
    ensures 0 < share <= left && InSector(c, start, share)
    ensures share == if start + left > UnitEnd(start, c.sectorSize) then UnitEnd(start, c.sectorSize) - start else left
    ensures (start + share) % c.sectionCmdAlign == 0 && (left - share) % c.sectionCmdAlign == 0
  {
    ConfigWords(c);
    AlignUpToUnitEnd(start, c.sectorSize);
    ShareOfUnit(start, left, c.sectorSize, c.sectionCmdAlign);
    var endOfSector := AlignUpBits(start, c.sectorSize);
    if endOfSector == start {
      endOfSector := endOfSector + c.sectorSize;
    }
    UnitEndBounds(start, c.sectorSize);
    share := if left + start > endOfSector then endOfSector - start else left;
  }

  /** One turn of the outer loop. */
  method ProgramNextSector(d: Device, src: seq<Byte>, srcPos: nat, start: nat, left: nat, ghost mem0: seq<Byte>,
                           ghost log0: seq<Command>, ghost cmds: seq<Command>, ghost addr: nat)
    returns (rc: Status, currentOffset: nat, ghost cmds': seq<Command>)
    requires Running(d, mem0, log0, cmds, addr, src, srcPos) && d.config.Valid()
    requires srcPos + left <= |src| && start == addr + srcPos && 0 < left
    requires start % d.config.sectionCmdAlign == 0 && left % d.config.sectionCmdAlign == 0
    modifies d`mem, d`log
    ensures currentOffset <= left && currentOffset % 4 == 0
    ensures Running(d, mem0, log0, cmds', addr, src, srcPos + currentOffset)
    ensures if rc == Success
            then 0 < currentOffset && (start + currentOffset) % d.config.sectionCmdAlign == 0
                 && (left - currentOffset) % d.config.sectionCmdAlign == 0
            else DeviceFailed(d, rc)
  {
    var share := SectorShare(d.config, start, left);
    rc, currentOffset, cmds' := ProgramCurrentSector(d, src, srcPos, start, share, mem0, log0, cmds, addr);
  }

  /** The outer loop, sector by sector. */
  method ProgramSectors(d: Device, src: seq<Byte>, addr: nat, length: nat)
    returns (rc: Status, ghost n: nat, ghost cmds: seq<Command>)
    requires d.Valid() && d.config.Valid() && length == |src| && addr + length <= |d.mem|
    requires addr % d.config.sectionCmdAlign == 0 && length % d.config.sectionCmdAlign == 0
    modifies d`mem, d`log
    ensures n <= length && Running(d, old(d.mem), old(d.log), cmds, addr, src, n)
    ensures if rc == Success then n == length else DeviceFailed(d, rc)
  {
    WroteNothing(d.mem, addr, src);
    var start, left: nat, srcPos: nat := addr, length, 0;
    cmds, n, rc := [], 0, Success;
    while left > 0
      invariant start == addr + srcPos && srcPos + left == length && rc == Success && n == srcPos
      invariant Running(d, old(d.mem), old(d.log), cmds, addr, src, srcPos)
      invariant start % d.config.sectionCmdAlign == 0 && left % d.config.sectionCmdAlign == 0
    {
      var currentOffset: nat;
      rc, currentOffset, cmds := ProgramNextSector(d, src, srcPos, start, left, old(d.mem), old(d.log), cmds, addr);
      n := srcPos + currentOffset;
      if rc != Success {
        return;
      }
      srcPos := srcPos + currentOffset / 4 * 4;
      start := start + currentOffset;
      left := left - currentOffset;
    }
  }

  lemma ConvertedAligned(c: Config, start: nat, alignment: nat)
    requires 0 < alignment && c.base % alignment == 0 && start % alignment == 0 && c.base <= start
    ensures (start - c.base) % alignment == 0
  {
    MultipleSum(start, c.base, alignment);
  }

  /** FLASH_ProgramSection once the arguments are found good: FlexRAM becomes RAM for the time of the writes. */
  method ProgramWithRam(d: Device, src: seq<Byte>, addr: nat, length: nat)
    returns (status: Status, ghost n: nat, ghost cmds: seq<Command>)
    requires d.Valid() && d.config.Valid() && length == |src| && addr + length <= |d.mem|
    requires addr % d.config.sectionCmdAlign == 0 && length % d.config.sectionCmdAlign == 0
    modifies d
    ensures n <= length && Running(d, old(d.mem), old(d.log), cmds, addr, src, n)
    ensures status in {Success, RecoverFlexramAsEepromError} ==> n == length
    ensures status !in {InvalidArgument, AlignmentError, AddressError}
    ensures status == Success ==> d.ramReady == old(d.ramReady)
    ensures status !in {Success, SetFlexramAsRamError} ==> d.ramReady
    ensures status == SetFlexramAsRamError ==> !d.ramReady && n == 0
    ensures !d.faulty ==> status == Success
  {
    n, cmds := 0, [];
    WroteNothing(d.mem, addr, src);
    var needSwitch := false;
    if !d.ramReady {
      needSwitch := true;
      var rc := d.SetFlexramFunction(true);
      if rc != Success {
        return SetFlexramAsRamError, n, cmds;
      }
    }
    status, n, cmds := ProgramSectors(d, src, addr, length);
    if status != Success {
      return;
    }
    if needSwitch {
      var rc := d.SetFlexramFunction(false);
      if rc != Success {
        status := RecoverFlexramAsEepromError;
      }
    }
  }

  /**
   * FLASH_ProgramSection.  Bad arguments change nothing.  Otherwise the flash afterwards is as after one
   * plain write of the first n bytes: of all of them on success, and also when only the FlexRAM could not
   * be switched back; a failing command leaves FlexRAM as RAM.
   */
  method ProgramSectionCall(d: Device, start: nat, src: array?<Byte>, length: nat)
    returns (status: Status, ghost n: nat, ghost cmds: seq<Command>)
    requires d.Valid() && d.config.Valid() && start + length < U32 && (src != null ==> length <= src.Length)
    modifies d
    ensures d.Valid() && d.log == old(d.log) + cmds
    ensures status in {InvalidArgument, AlignmentError, AddressError} ==>
              d.mem == old(d.mem) && d.ramReady == old(d.ramReady) && cmds == []
    ensures status == InvalidArgument <==> src == null
    ensures status == AlignmentError <==>
              src != null && (start % d.config.sectionCmdAlign != 0 || length % d.config.sectionCmdAlign != 0)
    ensures status == AddressError <==>
              && src != null && start % d.config.sectionCmdAlign == 0 && length % d.config.sectionCmdAlign == 0
              && (start < d.config.base || start + length > d.config.base + d.config.size)
    ensures status !in {InvalidArgument, AlignmentError, AddressError} ==>
              && Wrote(old(d.mem), d.mem, cmds, start - d.config.base, src[..length], n) && AllGood(d.config, cmds)
              && (status in {Success, RecoverFlexramAsEepromError} ==> n == length)
              && (status == Success ==> d.ramReady == old(d.ramReady))
              && (status !in {Success, SetFlexramAsRamError} ==> d.ramReady)
              && (status == Success ==> d.mem == Program(old(d.mem), start - d.config.base, src[..length]))
              && (!d.faulty ==> status == Success)
  {
    n, cmds := 0, [];
    if src == null {
      return InvalidArgument, n, cmds;
    }
    status := CheckRange(d.config, start, length, d.config.sectionCmdAlign);
    if status != Success {
      return;
    }
    ConvertedAligned(d.config, start, d.config.sectionCmdAlign);
    status, n, cmds := ProgramWithRam(d, src[..length], start - d.config.base, length);
    assert src[..length][..length] == src[..length];
  }

  lemma UnitStep(addr: nat, left: nat, unit: nat)
    requires (unit == 4 || unit == 8) && addr % unit == 0 && left % unit == 0 && 0 < left
    ensures unit <= left && (addr + unit) % unit == 0 && (left - unit) % unit == 0
  {
    if unit == 4 {
      assert addr % 4 == 0 && left % 4 == 0;
    } else {
      assert addr % 8 == 0 && left % 8 == 0;
    }
  }

  /** The loop of FLASH_Program. */
  method ProgramUnits(d: Device, src: seq<Byte>, addr: nat)
    returns (rc: Status, ghost n: nat, ghost cmds: seq<Command>)
    requires d.Valid() && addr + |src| <= |d.mem| && (d.config.writeUnit == 4 || d.config.writeUnit == 8)
    requires addr % d.config.writeUnit == 0 && |src| % d.config.writeUnit == 0
    modifies d`mem, d`log
    ensures n <= |src| && Running(d, old(d.mem), old(d.log), cmds, addr, src, n)
    ensures if rc == Success then n == |src| else DeviceFailed(d, rc)
  {
    WroteNothing(d.mem, addr, src);
    var unit := d.config.writeUnit;
    var pos: nat, left: nat := 0, |src|;
    rc, n, cmds := Success, 0, [];
    while left > 0
      invariant pos + left == |src| && rc == Success && n == pos
      invariant left % unit == 0 && (addr + pos) % unit == 0
      invariant Running(d, old(d.mem), old(d.log), cmds, addr, src, pos)
    {
      UnitStep(addr + pos, left, unit);
      var cmd := ProgramUnit(addr + pos, src[pos..pos + unit]);
      AllGoodAppend(d.config, cmds, cmd);
      rc, cmds := Issue(d, cmd, old(d.mem), old(d.log), cmds, addr, src, pos);
      if rc != Success {
        break;
      }
      pos := pos + unit;
      left := left - unit;
      n := pos;
    }
  }

  /** FLASH_Program: one command per write unit. */
  method ProgramCall(d: Device, start: nat, src: array?<Byte>, length: nat)
    returns (status: Status, ghost n: nat, ghost cmds: seq<Command>)
    requires d.Valid() && d.config.Valid() && start + length < U32 && (src != null ==> length <= src.Length)
    modifies d`mem, d`log
    ensures d.Valid() && d.log == old(d.log) + cmds
    ensures status in {InvalidArgument, AlignmentError, AddressError} ==> d.mem == old(d.mem) && cmds == []
    ensures status == InvalidArgument <==> src == null
    ensures status == AlignmentError <==>
              src != null && (start % d.config.writeUnit != 0 || length % d.config.writeUnit != 0)
    ensures status == AddressError <==>
              && src != null && start % d.config.writeUnit == 0 && length % d.config.writeUnit == 0
              && (start < d.config.base || start + length > d.config.base + d.config.size)
    ensures status !in {InvalidArgument, AlignmentError, AddressError} ==>
              && Wrote(old(d.mem), d.mem, cmds, start - d.config.base, src[..length], n) && AllGood(d.config, cmds)
              && (status == Success ==> n == length)
              && (status == Success ==> d.mem == Program(old(d.mem), start - d.config.base, src[..length]))
              && (!d.faulty ==> status == Success)
  {
    n, cmds := 0, [];
    if src == null {
      return InvalidArgument, n, cmds;
    }
    status := CheckRange(d.config, start, length, d.config.writeUnit);
    if status != Success {
      return;
    }
    ConvertedAligned(d.config, start, d.config.writeUnit);
    status, n, cmds := ProgramUnits(d, src[..length], start - d.config.base);
    assert src[..length][..length] == src[..length];
  }

  /** On an erased range a complete write leaves exactly the data there, and everything else as it was. */
  lemma {:induction false} WroteOnErased(mem0: seq<Byte>, mem: seq<Byte>, cmds: seq<Command>, addr: nat, src: seq<Byte>)
    requires Wrote(mem0, mem, cmds, addr, src, |src|) && IsErased(mem0, addr, |src|)
    ensures mem == mem0[..addr] + src + mem0[addr + |src|..]
  {
    assert src[..|src|] == src;
    PlacedOnErased(mem0, addr, src);
  }

  lemma {:induction false} PlacedOnErased(mem: seq<Byte>, addr: nat, src: seq<Byte>)
    requires IsErased(mem, addr, |src|)
    ensures Program(mem, addr, src) == mem[..addr] + src + mem[addr + |src|..]
  {
    ProgramErased(mem, addr, src);
    var after := Program(mem, addr, src);
    assert after[..addr] == mem[..addr] && after[addr + |src|..] == mem[addr + |src|..];
    assert after == after[..addr] + after[addr..addr + |src|] + after[addr + |src|..];
  }
}
