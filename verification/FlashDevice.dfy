/**
 * The flash controller as the driver sees it: one command at a time, which either takes effect or fails
 * without effect, and the argument checks shared by the driver calls.
 */
module FlashDevice {
  import opened Multiples
  import opened Words

  type Byte = bv8

  const ERASED: Byte := 0xFF
  const ACCELERATION_RAM_SIZE: nat := 0x400
  const ERASE_KEY: nat := 0x6B65_666B  // 'kfek'

  datatype Status = Success | InvalidArgument | AlignmentError | AddressError | EraseKeyError
                  | AccessError | ProtectionViolation | CommandFailure
                  | SetFlexramAsRamError | RecoverFlexramAsEepromError
                  | SetFlexramAsEepromError | RecoverFlexramAsRamError
                  | SwapIndicatorAddressError | SwapSystemNotInUninitialized

  /** The program flash of one device. */
  datatype Config = Config(base: nat, size: nat, sectorSize: nat, blockSize: nat,
                           sectorCmdAlign: nat, sectionCmdAlign: nat, writeUnit: nat) {
    ghost predicate Valid() {
      && 0 < sectorSize <= size && 0 < blockSize <= size && IsPow2(sectorSize) && IsPow2(blockSize)
      && 1 < sectorCmdAlign && 1 < sectionCmdAlign
      && sectionCmdAlign % 4 == 0 && (writeUnit == 4 || writeUnit == 8)
      && size <= 0x80_0000 && blockSize / sectionCmdAlign < 0x1_0000  // what the command registers hold
      && size % sectorSize == 0 && size % blockSize == 0
      && sectorSize % sectorCmdAlign == 0 && sectorSize % sectionCmdAlign == 0 && blockSize % sectionCmdAlign == 0
      && ACCELERATION_RAM_SIZE % sectionCmdAlign == 0
      && base % sectorCmdAlign == 0 && base % sectionCmdAlign == 0 && base % writeUnit == 0
    }
  }

  /** Sector and block sizes are words, and so is every address up to the end of flash plus one of them. */
  lemma ConfigWords(c: Config)
    requires c.Valid()
    ensures c.sectorSize < U32 && c.blockSize < U32 && c.size <= U32 - c.sectorSize && c.size <= U32 - c.blockSize
    ensures U32 % c.sectorSize == 0
  {
    DividesU32(c.sectorSize);
  }

  /** flash_check_range; the alignments are powers of two, so masking is taking the remainder. */
  function CheckRange(c: Config, start: nat, length: nat, alignment: nat): Status
    requires 0 < alignment
  {
    if start % alignment != 0 || length % alignment != 0 then AlignmentError
    else if c.base <= start && start + length <= c.base + c.size then Success
    else AddressError
  }

  // ---------------------------------------------------------------- effects

  /** Programming only clears bits. */
  function Program(mem: seq<Byte>, addr: nat, data: seq<Byte>): (mem': seq<Byte>)
    ensures |mem'| == |mem|
    ensures forall i :: 0 <= i < |mem| ==>
              mem'[i] == if addr <= i < addr + |data| then mem[i] & data[i - addr] else mem[i]
  {
    seq(|mem|, i requires 0 <= i < |mem| => if addr <= i < addr + |data| then mem[i] & data[i - addr] else mem[i])
  }

  /** Programming two adjacent stretches is programming them as one. */
  lemma {:induction false} ProgramJoins(mem: seq<Byte>, addr: nat, a: seq<Byte>, b: seq<Byte>)
    ensures Program(Program(mem, addr, a), addr + |a|, b) == Program(mem, addr, a + b)
  {
    var first := Program(mem, addr, a);
    var twice, once := Program(first, addr + |a|, b), Program(mem, addr, a + b);
    forall i | 0 <= i < |mem| ensures twice[i] == once[i] {
      if addr <= i < addr + |a| {
        assert (a + b)[i - addr] == a[i - addr];
      } else if addr + |a| <= i < addr + |a| + |b| {
        assert (a + b)[i - addr] == b[i - addr - |a|];
      }
    }
  }

  /** On erased memory programming writes the data as it is. */
  lemma ProgramErased(mem: seq<Byte>, addr: nat, data: seq<Byte>)
    requires addr + |data| <= |mem| && forall i :: addr <= i < addr + |data| ==> mem[i] == ERASED
    ensures Program(mem, addr, data)[addr..addr + |data|] == data
  {
    forall i | 0 <= i < |data| ensures Program(mem, addr, data)[addr + i] == data[i] {
      assert mem[addr + i] == ERASED;
      AllOnes(data[i]);
    }
  }

  lemma AllOnes(b: Byte)
    ensures ERASED & b == b
  {}

  /** Erasing sets every byte of the sectors first..last. */
  function EraseSectors(mem: seq<Byte>, sectorSize: nat, first: int, last: int): (mem': seq<Byte>)
    requires 0 < sectorSize
    ensures |mem'| == |mem|
    ensures forall i :: 0 <= i < |mem| ==> mem'[i] == if first <= i / sectorSize <= last then ERASED else mem[i]
  {
    seq(|mem|, i requires 0 <= i < |mem| => if first <= i / sectorSize <= last then ERASED else mem[i])
  }

  // ---------------------------------------------------------------- commands

  datatype Command =
    | ProgramUnit(addr: nat, data: seq<Byte>)
    | ProgramSection(addr: nat, data: seq<Byte>, phrases: nat)
    | EraseSector(addr: nat)
    | VerifySection(addr: nat, length: nat, phrases: nat)

  ghost predicate IsErased(mem: seq<Byte>, addr: nat, length: nat) {
    addr + length <= |mem| && forall i :: addr <= i < addr + length ==> mem[i] == ERASED
  }

  function Effect(c: Config, mem: seq<Byte>, cmd: Command): seq<Byte>
    requires 0 < c.sectorSize
  {
    match cmd
    case ProgramUnit(addr, data) => Program(mem, addr, data)
    case ProgramSection(addr, data, _) => Program(mem, addr, data)
    case EraseSector(addr) => EraseSectors(mem, c.sectorSize, addr / c.sectorSize, addr / c.sectorSize)
    case VerifySection(_, _, _) => mem
  }

  /** The command addresses flash that exists; the device refuses any other. */
  predicate InFlash(size: nat, cmd: Command) {
    match cmd
    case ProgramUnit(addr, data) => addr + |data| <= size
    case ProgramSection(addr, data, _) => addr + |data| <= size
    case EraseSector(addr) => addr < size
    case VerifySection(addr, length, _) => addr + length <= size
  }

  class Device {
    const config: Config
    /** A faulty device may fail any command. */
    const faulty: bool
    var mem: seq<Byte>
    var ramReady: bool
    /** The commands that took effect. */
    ghost var log: seq<Command>

    constructor (config: Config, faulty: bool, mem: seq<Byte>)
      requires config.Valid() && |mem| == config.size
      ensures Valid() && this.config == config && this.mem == mem && log == [] && this.faulty == faulty
    {
      this.config, this.faulty, this.mem, ramReady, log := config, faulty, mem, true, [];
    }

    ghost predicate Valid()
      reads this
    {
      0 < config.sectorSize && |mem| == config.size
    }

    /** flash_command_sequence: the command takes effect, or an error bit is set and it does not. */
    method CommandSequence(cmd: Command) returns (rc: Status)
      requires Valid()
      modifies this`mem, this`log
      ensures Valid()
      ensures rc == Success ==> InFlash(|mem|, cmd) && mem == Effect(config, old(mem), cmd) && log == old(log) + [cmd]
      ensures rc == Success && cmd.VerifySection? ==> IsErased(mem, cmd.addr, cmd.length)
      ensures rc != Success ==>
                && mem == old(mem) && log == old(log)
                && rc in {AccessError, ProtectionViolation, CommandFailure}
      ensures rc != Success ==>
                faulty || !InFlash(|mem|, cmd)
                || (cmd.VerifySection? && !IsErased(mem, cmd.addr, cmd.length))
      ensures !faulty && !InFlash(|mem|, cmd) ==> rc == AccessError
    {
      if faulty {
        if * { return AccessError; }
        if * { return ProtectionViolation; }
        if * { return CommandFailure; }
      }
      if !InFlash(|mem|, cmd) {
        return AccessError;
      }
      if cmd.VerifySection? && exists i :: cmd.addr <= i < cmd.addr + cmd.length && mem[i] != ERASED {
        return CommandFailure;
      }
      mem := Effect(config, mem, cmd);
      log := log + [cmd];
      return Success;
    }

    /** FLASH_SetFlexramFunction. */
    method SetFlexramFunction(asRam: bool) returns (rc: Status)
      requires Valid()
      modifies this`ramReady
      ensures rc == Success ==> ramReady == asRam
      ensures rc != Success ==> ramReady == old(ramReady) && faulty
    {
      if faulty {
        if * { return CommandFailure; }
      }
      ramReady := asRam;
      return Success;
    }
  }
}
