/**
 * FLASH_Swap: the driver asks the swap system for its state and pushes it one state further, until the
 * exchange of the two flash halves is complete (or the system is disabled).
 */
module FlashSwap {
  import opened Multiples
  import opened Words
  import opened FlashDevice
  import FlashErase

  datatype SwapState = Uninitialized | Ready | Update | UpdateErased | Complete | Disabled | Unknown {
    function Rank(): (r: nat)
      ensures r <= 5
    {
      match this
      case Uninitialized => 0 case Ready => 1 case Update => 2 case UpdateErased => 3
      case Complete => 4 case Disabled => 5 case Unknown => 0
    }
  }

  datatype Control = Initialize | SetInUpdate | SetInComplete | ReportStatus | DisableSystem
  datatype Option = Enable | Disable

  const CONFIG_AREA_START: nat := 0x400
  const CONFIG_AREA_END: nat := 0x40F

  /** A state change asked of the swap system, with what held when it was asked. */
  datatype Request = Request(control: Control, state: SwapState, address: nat, indicator: nat)

  ghost predicate Legal(r: Request) {
    match r.control
    case Initialize => r.state == Uninitialized
    case SetInUpdate => r.state == Ready && r.address == r.indicator
    case SetInComplete => r.state == UpdateErased
    case DisableSystem => r.state == Uninitialized
    case ReportStatus => false
  }

  /** The state change that a control takes; initialising and updating may find the indicator erased already. */
  ghost predicate Takes(control: Control, address: nat, from: SwapState, indicator: nat, to: SwapState,
                        indicator': nat) {
    && (if control == Initialize then indicator' == address else indicator' == indicator)
    && match control
       case ReportStatus => to == from
       case Initialize => from == Uninitialized && to in {Ready, UpdateErased}
       case SetInUpdate => from == Ready && to in {Update, UpdateErased}
       case SetInComplete => from == UpdateErased && to == Complete
       case DisableSystem => from == Uninitialized && to == Disabled
  }

  ghost predicate AllLegal(rs: seq<Request>) { forall r :: r in rs ==> Legal(r) }

  /** The argument checks of FLASH_SwapControl.  What a swap ensures is said of the arguments themselves. */
  function CheckSwap(c: Config, alignment: nat, address: nat): Status
    requires 0 < alignment
  {
    if address % alignment != 0 then AlignmentError
    else if address >= c.size / 2 || CONFIG_AREA_START <= address <= CONFIG_AREA_END then SwapIndicatorAddressError
    else Success
  }

  /** Only the sector of the indicator in the upper half may differ. */
  ghost predicate OnlyIndicatorSector(c: Config, address: nat, mem0: seq<Byte>, mem: seq<Byte>) {
    && 0 < c.sectorSize && |mem| == |mem0|
    && forall i :: 0 <= i < |mem| && i / c.sectorSize != (address + c.size / 2) / c.sectorSize ==> mem[i] == mem0[i]
  }

  /** Two lower-half addresses whose counterparts in the upper half share a sector. */
  predicate SameSector(c: Config, a: nat, b: nat)
    requires 0 < c.sectorSize
  {
    (a + c.size / 2) / c.sectorSize == (b + c.size / 2) / c.sectorSize
  }

  lemma DivisorAtMost(x: nat, k: nat)
    requires 0 < x && 0 < k && x % k == 0
    ensures k <= x
  {}

  /** An aligned unit of `k` bytes stays within one sector. */
  lemma OneSector(addr: nat, k: nat, sectorSize: nat)
    requires 0 < k && 0 < sectorSize && sectorSize % k == 0 && addr % k == 0
    ensures (addr + k - 1) / sectorSize == addr / sectorSize
  {
    ShareOfUnit(addr, k, sectorSize, k);
    SameUnit(addr, addr + k - 1, sectorSize);
  }

  lemma UpperHalf(address: nat, half: nat, alignment: nat, k: nat)
    requires 0 < alignment && 0 < k && alignment % k == 0 && address % alignment == 0 && half % k == 0
    requires address < half
    ensures (address + half) % k == 0 && address + k <= half
  {
    QuotientBounds(address, alignment);
    MultipleOfMultiple(address / alignment, alignment, k);
    MultipleSum(address, half, k);
    MultipleSum(half, address, k);
    DivisorAtMost(half - address, k);
  }

  /** Where the swap control arguments are good, so are those of the erase of the indicator sector. */
  lemma IndicatorErasable(c: Config, alignment: nat, address: nat)
    requires c.Valid() && c.base == 0 && 0 < alignment && alignment % c.sectorCmdAlign == 0
    requires c.size / 2 % c.sectorCmdAlign == 0 && CheckSwap(c, alignment, address) == Success
    ensures (address + c.size / 2) % c.sectorCmdAlign == 0
    ensures address + c.size / 2 + c.sectorCmdAlign <= c.size
    ensures address + c.size / 2 + c.sectorCmdAlign < U32
    ensures var addr := address + c.size / 2;
            (addr + c.sectorCmdAlign - 1) / c.sectorSize == addr / c.sectorSize
  {
    var half := c.size / 2;
    UpperHalf(address, half, alignment, c.sectorCmdAlign);
    OneSector(address + half, c.sectorCmdAlign, c.sectorSize);
  }

  lemma SelfMultiple(k: nat)
    requires 0 < k
    ensures k % k == 0
  {}

  /** Whether it ends well or not, that erase touches one sector. */
  lemma IndicatorSwept(c: Config, mem0: seq<Byte>, mem: seq<Byte>, cmds: seq<Command>, address: nat)
    requires FlashErase.Swept(mem0, mem, cmds, c.sectorSize, address + c.size / 2) && |cmds| <= 1
    ensures OnlyIndicatorSector(c, address, mem0, mem)
  {}

  class SwapSystem {
    const flash: Device
    /** The alignment of swap control addresses. */
    const alignment: nat
    var state: SwapState
    /** The swap indicator address kept by the device. */
    var indicator: nat
    /** The state changes asked for. */
    ghost var requests: seq<Request>

    constructor (flash: Device, alignment: nat, state: SwapState, indicator: nat)
      ensures this.flash == flash && this.alignment == alignment && this.state == state
      ensures this.indicator == indicator && requests == []
    {
      this.flash, this.alignment, this.state, this.indicator, requests := flash, alignment, state, indicator, [];
    }

    /** Among others: no state change was ever asked for out of order. */
    ghost predicate Valid()
      reads this, flash
    {
      && AllLegal(requests)
      && flash.Valid() && flash.config.Valid() && flash.config.base == 0
      && 0 < alignment && alignment % flash.config.sectorCmdAlign == 0
      && flash.config.size / 2 % flash.config.sectorCmdAlign == 0
    }

    /** Erasing at `address` in the upper half erases the device's indicator. */
    ghost predicate Hits(address: nat)
      reads this
      requires 0 < flash.config.sectorSize
    {
      SameSector(flash.config, address, indicator)
    }

    /** In the update state, the wrong address leaves the swap system where it is. */
    ghost predicate Stuck(address: nat, option: Option)
      reads this
      requires 0 < flash.config.sectorSize
    {
      option == Enable && state == Update && !Hits(address)
    }

    /** The device's side of the swap command; what it reports is its state before or after a change. */
    method SwapCommand(address: nat, control: Control) returns (rc: Status, reported: SwapState)
      modifies this`state, this`indicator, this`requests
      ensures requests == old(requests)
                          + if control == ReportStatus then []
                            else [Request(control, old(state), address, old(indicator))]
      ensures rc == Success || (rc == AccessError && state == old(state) && indicator == old(indicator))
      ensures rc != Success ==>
                flash.faulty
                || (control != ReportStatus && !Legal(Request(control, state, address, indicator)))
      ensures rc == Success ==>
                && Takes(control, address, old(state), old(indicator), state, indicator)
                && reported in {old(state), state}
    {
      reported := state;
      if control != ReportStatus {
        requests := requests + [Request(control, state, address, indicator)];
      }
      if flash.faulty {
        if * { return AccessError, Unknown; }
      }
      var early: bool := *;
      match control {
        case ReportStatus =>
        case Initialize =>
          if state != Uninitialized { return AccessError, state; }
          indicator := address;
          if * { state := Ready; } else { state := UpdateErased; }
        case SetInUpdate =>
          if state != Ready { return AccessError, state; }
          if * { state := Update; } else { state := UpdateErased; }
        case SetInComplete =>
          if state != UpdateErased { return AccessError, state; }
          state := Complete;
        case DisableSystem =>
          if state != Uninitialized { return AccessError, state; }
          state := Disabled;
      }
      return Success, if early then reported else state;
    }

    /** FLASH_SwapControl. */
    method SwapControl(address: nat, control: Control) returns (rc: Status, reported: SwapState)
      requires 0 < alignment
      modifies this`state, this`indicator, this`requests
      ensures address % alignment != 0 <==> rc == AlignmentError
      ensures rc == SwapIndicatorAddressError <==>
                address % alignment == 0 && (address >= flash.config.size / 2 || 0x400 <= address <= 0x40F)
      ensures rc in {AlignmentError, SwapIndicatorAddressError} ==>
                state == old(state) && indicator == old(indicator) && requests == old(requests)
      ensures rc !in {AlignmentError, SwapIndicatorAddressError} ==>
                && requests == old(requests)
                               + (if control == ReportStatus then []
                                  else [Request(control, old(state), address, old(indicator))])
                && (rc == Success || (rc == AccessError && state == old(state) && indicator == old(indicator)))
                && (rc != Success ==>
                      flash.faulty
                      || (control != ReportStatus && !Legal(Request(control, state, address, indicator))))
      ensures rc == Success ==>
                && Takes(control, address, old(state), old(indicator), state, indicator)
                && reported in {old(state), state}
    {
      reported := Unknown;
      rc := CheckSwap(flash.config, alignment, address);
      if rc != Success {
        return;
      }
      rc, reported := SwapCommand(address, control);
    }

    /** flash_validate_swap_indicator_address. */
    method ValidateIndicator(address: nat) returns (rc: Status)
      ensures rc in {Success, AccessError, SwapIndicatorAddressError}
      ensures rc == Success ==> address == indicator
      ensures !flash.faulty ==> rc == if address == indicator then Success else SwapIndicatorAddressError
    {
      if flash.faulty {
        if * { return AccessError; }
      }
      return if address == indicator then Success else SwapIndicatorAddressError;
    }

    /** FLASH_Erase of one aligned unit at `addr`. */
    method EraseUnit(addr: nat) returns (rc: Status, ghost cmds: seq<Command>)
      requires flash.Valid() && flash.config.Valid() && flash.config.base == 0
      requires addr % flash.config.sectorCmdAlign == 0
      requires addr + flash.config.sectorCmdAlign <= flash.config.size < U32
      requires (addr + flash.config.sectorCmdAlign - 1) / flash.config.sectorSize == addr / flash.config.sectorSize
      modifies flash`mem, flash`log
      ensures flash.Valid() && |cmds| <= 1
      ensures FlashErase.Swept(old(flash.mem), flash.mem, cmds, flash.config.sectorSize, addr)
      ensures rc in {Success, AccessError, ProtectionViolation, CommandFailure}
      ensures rc != Success ==> flash.faulty
    {
      FlashErase.LastAddressIs(addr, flash.config.sectorCmdAlign);
      SelfMultiple(flash.config.sectorCmdAlign);
      rc, cmds := FlashErase.EraseCall(flash, addr, flash.config.sectorCmdAlign, ERASE_KEY);
    }

    /** FLASH_Erase of the sector of `address` in the upper half; the swap system notices its own indicator. */
    method EraseIndicator(address: nat) returns (rc: Status)
      requires Valid() && CheckSwap(flash.config, alignment, address) == Success
      modifies this`state, flash`mem, flash`log
      ensures Valid() && OnlyIndicatorSector(flash.config, address, old(flash.mem), flash.mem)
      ensures if rc == Success
              then state == (if old(state) == Update && Hits(address) then UpdateErased else old(state))
              else flash.faulty && rc !in {AlignmentError, SwapIndicatorAddressError} && state == old(state)
    {
      IndicatorErasable(flash.config, alignment, address);
      ghost var cmds: seq<Command>;
      rc, cmds := EraseUnit(address + flash.config.size / 2);
      IndicatorSwept(flash.config, old(flash.mem), flash.mem, cmds, address);
      if rc == Success && state == Update && SameSector(flash.config, address, indicator) {
        state := UpdateErased;
      }
    }

    /** What FLASH_Swap answers on a device without faults, for good arguments. */
    ghost function Expected(address: nat, option: Option): Status
      reads this
    {
      match option
      case Enable =>
        (match state
         case Uninitialized | Update | UpdateErased | Complete => Success
         case Ready => if address == indicator then Success else SwapIndicatorAddressError
         case Disabled => SwapSystemNotInUninitialized
         case Unknown => InvalidArgument)
      case Disable => if state in {Uninitialized, Disabled} then Success else SwapSystemNotInUninitialized
    }

    /** The enable branch, once the state is reported. */
    method EnableStep(address: nat, info: SwapState) returns (rc: Status, reported: SwapState)
      requires Valid() && CheckSwap(flash.config, alignment, address) == Success && info == state
      modifies this, flash`mem, flash`log
      ensures Valid() && OnlyIndicatorSector(flash.config, address, old(flash.mem), flash.mem)
      ensures rc != Success ==> rc != AlignmentError && state == old(state) && indicator == old(indicator)
      ensures rc == Success && reported == Complete ==> state == Complete
      ensures old(state) == Update ==> reported == Update
      ensures state.Rank() >= old(state).Rank()
      ensures rc == Success && reported != Complete ==>
                if old(Stuck(address, Enable)) then state == old(state) && indicator == old(indicator)
                else state.Rank() > old(state).Rank() && !Stuck(address, Enable)
      ensures !flash.faulty && rc == Success ==> old(Expected(address, Enable)) == Success == Expected(address, Enable)
      ensures !flash.faulty && rc != Success ==> rc == old(Expected(address, Enable))
    {
      rc, reported := Success, info;
      match info {
        case Uninitialized =>
          rc, reported := SwapControl(address, Initialize);
        case Ready =>
          rc := ValidateIndicator(address);
          if rc == Success {
            rc, reported := SwapControl(address, SetInUpdate);
          }
        case Update =>
          rc := EraseIndicator(address);
        case UpdateErased =>
          rc, reported := SwapControl(address, SetInComplete);
        case Complete =>
        case Disabled =>
          rc := SwapSystemNotInUninitialized;
        case Unknown =>
          rc := InvalidArgument;
      }
    }

    /** The disable branch, once the state is reported; `done` if it returns at once. */
    method DisableStep(address: nat, info: SwapState) returns (rc: Status, done: bool)
      requires Valid() && CheckSwap(flash.config, alignment, address) == Success && info == state
      modifies this
      ensures Valid()
      ensures rc != Success ==> rc != AlignmentError && state == old(state) && indicator == old(indicator)
      ensures rc == Success ==>
                && state == Disabled && done == (old(state) == Disabled)
                && state.Rank() >= old(state).Rank()
      ensures !flash.faulty ==> rc == old(Expected(address, Disable))
    {
      rc, done := Success, false;
      if info == Disabled {
        done := true;
      } else if info == Uninitialized {
        var reported;
        rc, reported := SwapControl(address, DisableSystem);
      } else {
        rc := SwapSystemNotInUninitialized;
      }
    }

    /** One turn of the loop; `again` if the loop goes round once more. */
    method Turn(address: nat, option: Option) returns (rc: Status, again: bool)
      requires Valid()
      modifies this, flash`mem, flash`log
      ensures Valid() && OnlyIndicatorSector(flash.config, address, old(flash.mem), flash.mem)
      ensures option == Disable ==> flash.mem == old(flash.mem)
      ensures again ==> rc == Success
      ensures rc != Success ==> state == old(state) && indicator == old(indicator)
      ensures rc == Success && !again ==> state == if option == Enable then Complete else Disabled
      ensures again ==>
                if old(Stuck(address, option)) then state == old(state) && indicator == old(indicator)
                else state.Rank() > old(state).Rank() && !Stuck(address, option)
      ensures state.Rank() >= old(state).Rank()
      ensures CheckSwap(flash.config, alignment, address) != Success ==>
                rc == CheckSwap(flash.config, alignment, address) && !again
      ensures rc == AlignmentError ==> address % alignment != 0
      ensures !flash.faulty && CheckSwap(flash.config, alignment, address) == Success ==>
                if rc == Success then old(Expected(address, option)) == Success == Expected(address, option)
                else rc == old(Expected(address, option))
      ensures !flash.faulty && old(Stuck(address, option)) ==>
                (CheckSwap(flash.config, alignment, address) == Success ==> again)
    {
      again := false;
      var reported: SwapState;
      rc, reported := SwapControl(address, ReportStatus);
      if rc != Success {
        return;
      }
      var done := false;
      if option == Disable {
        rc, done := DisableStep(address, reported);
      } else {
        rc, reported := EnableStep(address, reported);
      }
      again := rc == Success && !done && !(reported == Complete && option == Enable);
    }

    /**
     * FLASH_Swap.  Its end depends on one condition: in the update state an address that passes the checks
     * must be that of the indicator.
     */
    method Swap(address: nat, option: Option) returns (rc: Status)
      requires Valid()
      requires Stuck(address, option) ==>
                 address % alignment != 0 || address >= flash.config.size / 2 || 0x400 <= address <= 0x40F
      modifies this, flash`mem, flash`log
      ensures Valid() && OnlyIndicatorSector(flash.config, address, old(flash.mem), flash.mem)
      ensures option == Disable ==> flash.mem == old(flash.mem)
      ensures rc == Success ==> state == if option == Enable then Complete else Disabled
      ensures state.Rank() >= old(state).Rank()
      ensures rc == AlignmentError <==> address % alignment != 0
      ensures address % alignment == 0 && (address >= flash.config.size / 2 || 0x400 <= address <= 0x40F) ==>
                rc == SwapIndicatorAddressError
      ensures !flash.faulty && option == Enable
              && address % alignment == 0 && address < flash.config.size / 2 && !(0x400 <= address <= 0x40F) ==>
                match old(state)
                case Uninitialized | Update | UpdateErased | Complete => rc == Success
                case Ready => rc == if address == old(indicator) then Success else SwapIndicatorAddressError
                case Disabled => rc == SwapSystemNotInUninitialized
                case Unknown => rc == InvalidArgument
      ensures !flash.faulty && option == Disable
              && address % alignment == 0 && address < flash.config.size / 2 && !(0x400 <= address <= 0x40F) ==>
                rc == if old(state) in {Uninitialized, Disabled} then Success else SwapSystemNotInUninitialized
    {
      var again := true;
      rc := Success;
      while again
        invariant Valid() && OnlyIndicatorSector(flash.config, address, old(flash.mem), flash.mem)
        invariant option == Disable ==> flash.mem == old(flash.mem)
        invariant again ==> !Stuck(address, option) || CheckSwap(flash.config, alignment, address) != Success
        invariant !again && rc == Success ==> state == if option == Enable then Complete else Disabled
        invariant state.Rank() >= old(state).Rank()
        invariant rc == AlignmentError ==> address % alignment != 0
        invariant again ==> rc == Success
        invariant !again && CheckSwap(flash.config, alignment, address) != Success ==>
                    rc == CheckSwap(flash.config, alignment, address)
        invariant !flash.faulty && again ==> Expected(address, option) == old(Expected(address, option))
        invariant !flash.faulty && !again ==>
                    var bad := CheckSwap(flash.config, alignment, address);
                    rc == if bad != Success then bad else old(Expected(address, option))
        decreases again, 5 - state.Rank()
      {
        rc, again := Turn(address, option);
      }
    }

    /**
     * With another address in the update state the loop goes round for ever: after any number of turns each
     * one has asked for another, and the state is what it was.
     */
    method NeverEnds(address: nat, turns: nat) returns (ghost rounds: nat)
      requires Valid() && Stuck(address, Enable) && !flash.faulty
      requires address % alignment == 0 && address < flash.config.size / 2 && !(0x400 <= address <= 0x40F)
      modifies this, flash`mem, flash`log
      ensures Valid() && Stuck(address, Enable) && state == old(state) && indicator == old(indicator)
      ensures rounds == turns
    {
      var turn := 0;
      rounds := 0;
      while turn < turns
        invariant turn <= turns && rounds == turn
        invariant Valid() && Stuck(address, Enable) && state == old(state) && indicator == old(indicator)
      {
        var rc, again := Turn(address, Enable);
        rounds := rounds + if again then 1 else 0;
        turn := turn + 1;
      }
    }
  }
}
