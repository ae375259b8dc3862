/**
 * The clock generator's mode switch.  Control fields are written by the driver; the hardware lets each
 * status field follow its control field, at any time, and the driver's wait loops end when it has.
 *
 * The rules for changing clocks are preconditions of the register writes, so verifying the driver calls
 * proves that no run breaks them:
 *  - OSCSEL changes only while the FLL reference is internal;
 *  - the internal reference in use (IRCS, and FCRDIV of the fast one) does not change under the system
 *    clock, and CLOCK_SetMcgConfig touches neither while the system runs on the internal reference;
 *  - the FLL reference switches only while the low bit of DRST_DRS is inverted (ERR007993), and the bit
 *    is put back only after the switch.  Only CLOCK_SetPbeMode writes without regard to this one; a ghost
 *    flag records it, and CLOCK_SetMcgConfig keeps that flag clear.
 */
module McgModes {

  datatype Mode = FEI | FBI | BLPI | FEE | FBE | BLPE | PBE | PEE

  datatype ClkSource = SrcOut | SrcInternal | SrcExternal
  datatype ClkStatus = StatFll | StatInt | StatExt | StatPll

  datatype Status = Success | ModeUnreachable | ModeInvalid | SourceUsed

  datatype Config = Config(mode: Mode, oscsel: nat, frdiv: nat, dmx32: bool, drs: nat,
                           irclkEnable: bool, ircsFast: bool, fcrdiv: nat,
                           pllEnable: bool, prdiv: nat, vdiv: nat)

  /** The control fields that neither make up the mode nor follow the rule of ERR007993. */
  datatype Settings = Settings(frdiv: nat, dmx32: bool, oscsel: nat, irclkEnable: bool, ircsFast: bool,
                               fcrdiv: nat, pllEnable: bool, prdiv: nat, vdiv: nat)

  /** What CLKST will show for these control fields. */
  function Follows(clks: ClkSource, plls: bool): ClkStatus {
    match clks
    case SrcOut => if plls then StatPll else StatFll
    case SrcInternal => StatInt
    case SrcExternal => StatExt
  }

  function FlipLow(drs: nat): nat {
    if drs % 2 == 0 then drs + 1 else drs - 1
  }

  // ---------------------------------------------------------------- the transition table

  /** mcgModeMatrix: the next mode on the way from `from` to `target`. */
  function NextMode(from: Mode, target: Mode): Mode {
    match from
    case FEI =>
      if target == BLPI then FBI else if target in {BLPE, PBE, PEE} then FBE else target
    case FBI =>
      if target in {BLPE, PBE, PEE} then FBE else target
    case BLPI =>
      if target == BLPI then BLPI else FBI
    case FEE =>
      if target == BLPI then FBI else if target in {BLPE, PBE, PEE} then FBE else target
    case FBE =>
      if target == BLPI then FBI else if target == PEE then PBE else target
    case BLPE =>
      if target == BLPE then BLPE else if target in {PBE, PEE} then PBE else FBE
    case PBE =>
      if target in {BLPE, PBE, PEE} then target else FBE
    case PEE => PBE
  }

  function Index(m: Mode): (i: nat)
    ensures i < 8
  {
    match m
    case FEI => 0 case FBI => 1 case BLPI => 2 case FEE => 3
    case FBE => 4 case BLPE => 5 case PBE => 6 case PEE => 7
  }

  /** The table as it is laid out: a row per current mode, a column per target. */
  const MODE_MATRIX: seq<seq<Mode>> := [
    [FEI, FBI, FBI, FEE, FBE, FBE, FBE, FBE],
    [FEI, FBI, BLPI, FEE, FBE, FBE, FBE, FBE],
    [FBI, FBI, BLPI, FBI, FBI, FBI, FBI, FBI],
    [FEI, FBI, FBI, FEE, FBE, FBE, FBE, FBE],
    [FEI, FBI, FBI, FEE, FBE, BLPE, PBE, PBE],
    [FBE, FBE, FBE, FBE, FBE, BLPE, PBE, PBE],
    [FBE, FBE, FBE, FBE, FBE, BLPE, PBE, PEE],
    [PBE, PBE, PBE, PBE, PBE, PBE, PBE, PBE]]

  lemma NextModeIsMatrix(from: Mode, target: Mode)
    ensures |MODE_MATRIX| == 8 && |MODE_MATRIX[Index(from)]| == 8
    ensures NextMode(from, target) == MODE_MATRIX[Index(from)][Index(target)]
  {
    match from { case FEI => case FBI => case BLPI => case FEE => case FBE => case BLPE => case PBE => case PEE => }
  }

  /** Distance in the table, counting at least one step. */
  function Hops(from: Mode, target: Mode): nat {
    var next := NextMode(from, target);
    if next == target then 1
    else
      var next2 := NextMode(next, target);
      if next2 == target then 2
      else
        var next3 := NextMode(next2, target);
        if next3 == target then 3 else 4
  }

  /** Every step of the table brings the target nearer, for all 64 pairs; no path is longer than four. */
  lemma TableProgress(from: Mode, target: Mode)
    ensures 1 <= Hops(from, target) <= 4
    ensures NextMode(from, target) == target <==> Hops(from, target) == 1
    ensures NextMode(from, target) != target ==> Hops(NextMode(from, target), target) == Hops(from, target) - 1
    ensures Hops(from, target) == 4 ==>
              NextMode(NextMode(NextMode(NextMode(from, target), target), target), target) == target
  {}

  /** The modes the optional parameter checks of the setters accept. */
  predicate Accepts(target: Mode, from: Mode) {
    match target
    case FEI => from in {FEI, FBI, FBE, FEE}
    case FEE => from in {FEE, FBI, FBE, FEI}
    case FBI => from in {FEE, FBI, FBE, FEI, BLPI}
    case FBE => from in {FEE, FBI, FBE, FEI, PBE, BLPE}
    case BLPI => from in {FBI, BLPI}
    case BLPE => from in {FBE, PBE, BLPE}
    case PBE => from in {FBE, PBE, BLPE, PEE}
    case PEE => from == PBE
  }

  /** The table only asks for steps the setters accept. */
  lemma TableAccepted(from: Mode, target: Mode)
    ensures Accepts(NextMode(from, target), from)
    ensures NextMode(from, target) == PBE && target != PBE && target != PEE ==> from == PEE
  {}

  // ---------------------------------------------------------------- the generator

  class Mcg {
    /** MCG_CONFIG_CHECK_PARAM. */
    const checkParam: bool

    // control fields
    var clks: ClkSource
    var irefsInternal: bool
    var lp: bool
    var drs: nat
    var plls: bool
    var settings: Settings

    // status fields
    var clkst: ClkStatus
    var irefstInternal: bool
    var pllst: bool
    var ircstFast: bool
    var lock: bool

    /** The DRST_DRS value to return to while its low bit is inverted. */
    ghost var savedDrs: nat
    /** A reference switch was started without the inversion. */
    ghost var unguardedSwitch: bool

    /** Reset state: FEI. */
    constructor (checkParam: bool)
      ensures Consistent() && CurrentMode() == FEI && this.checkParam == checkParam
    {
      this.checkParam := checkParam;
      clks, irefsInternal, lp, drs, plls := SrcOut, true, false, 0, false;
      settings := Settings(0, false, 0, false, false, 0, false, 0, 0);
      clkst, irefstInternal, pllst, ircstFast, lock := StatFll, true, false, false, false;
      savedDrs, unguardedSwitch := 0, false;
    }

    ghost predicate Inverted()
      reads this
    {
      drs == FlipLow(savedDrs)
    }

    /** ERR007993: a reference switch is under way only with the low DRST_DRS bit inverted. */
    ghost predicate Safe()
      reads this
    {
      && (irefstInternal != irefsInternal ==> Inverted())
      && (drs == savedDrs || Inverted())
    }

    /** One of the eight modes, settled, and reached without breaking the rule of ERR007993. */
    ghost predicate Consistent()
      reads this
    {
      Settled() && !unguardedSwitch
    }

    /** One of the eight modes, with every status settled and no inversion pending. */
    ghost predicate Settled()
      reads this
    {
      && clkst == Follows(clks, plls) && irefstInternal == irefsInternal && pllst == plls
      && drs == savedDrs
      && (irefsInternal ==> !plls && clks != SrcExternal)
      && (!irefsInternal ==> clks != SrcInternal)
      && (clks == SrcOut && plls ==> !lp)
    }

    /** CLOCK_GetMode. */
    function CurrentMode(): Mode
      reads this
    {
      match clkst
      case StatFll => if irefstInternal then FEI else FEE
      case StatInt => if lp then BLPI else FBI
      case StatExt => if lp then BLPE else if pllst then PBE else FBE
      case StatPll => PEE
    }

    // -------------------------------------------------------------- register writes and waits

    /** Some status fields catch up with their control fields. */
    method Drift()
      requires Safe()
      modifies this`clkst, this`irefstInternal, this`pllst, this`ircstFast, this`lock
      ensures clkst == old(clkst) || clkst == Follows(clks, plls)
      ensures irefstInternal == old(irefstInternal) || irefstInternal == irefsInternal
      ensures pllst == old(pllst) || pllst == plls
      ensures Safe()
    {
      DriftReference();
      if * { clkst := Follows(clks, plls); }
      if * { pllst := plls; }
      ircstFast, lock := *, *;
    }

    method DriftReference()
      requires Safe()
      modifies this`irefstInternal
      ensures irefstInternal == old(irefstInternal) || irefstInternal == irefsInternal
      ensures Safe()
    {
      if * { irefstInternal := irefsInternal; }
    }

    method WriteC1(clks: ClkSource, irefsInternal: bool)
      requires Safe() && this.irefsInternal == irefstInternal
      requires irefsInternal != irefstInternal ==> Inverted()
      modifies this`clks, this`irefsInternal
      ensures Safe() && this.clks == clks && this.irefsInternal == irefsInternal
    {
      this.clks := clks;
      this.irefsInternal := irefsInternal;
    }

    method InvertDrs()
      requires Safe() && drs == savedDrs
      modifies this`drs
      ensures Safe() && Inverted()
    {
      drs := if drs % 2 == 0 then drs + 1 else drs - 1;
    }

    /** Writing the saved C4 back ends an inversion. */
    method RestoreDrs(saved: nat)
      requires irefstInternal == irefsInternal && saved == savedDrs
      modifies this`drs
      ensures Safe() && drs == savedDrs
    {
      drs := saved;
    }

    method WriteC4(dmx32: bool, drs: nat)
      requires irefstInternal == irefsInternal && this.drs == savedDrs
      modifies this`drs, this`settings, this`savedDrs
      ensures Safe() && this.drs == drs == savedDrs && settings == old(settings).(dmx32 := dmx32)
    {
      this.drs, savedDrs := drs, drs;
      settings := settings.(dmx32 := dmx32);
    }

    method WriteOscsel(oscsel: nat)
      requires oscsel != settings.oscsel ==> irefstInternal && irefsInternal
      modifies this`settings
      ensures settings == old(settings).(oscsel := oscsel)
    {
      settings := settings.(oscsel := oscsel);
    }

    method WriteIrcs(fast: bool)
      requires fast != ircstFast ==> clkst != StatInt
      modifies this`settings
      ensures settings == old(settings).(ircsFast := fast)
    {
      settings := settings.(ircsFast := fast);
    }

    method WriteFcrdiv(div: nat)
      requires div != settings.fcrdiv ==> clkst != StatInt || !ircstFast
      modifies this`settings
      ensures settings == old(settings).(fcrdiv := div)
    {
      settings := settings.(fcrdiv := div);
    }

    method AwaitIrefst(internal: bool)
      requires Safe() && irefsInternal == internal
      modifies this`clkst, this`irefstInternal, this`pllst, this`ircstFast, this`lock
      ensures Safe() && irefstInternal == internal
      ensures clkst == old(clkst) || clkst == Follows(clks, plls)
      ensures pllst == old(pllst) || pllst == plls
    {
      Drift();
      irefstInternal := irefsInternal;
    }

    method AwaitClkst(st: ClkStatus)
      requires Safe() && Follows(clks, plls) == st
      modifies this`clkst, this`irefstInternal, this`pllst, this`ircstFast, this`lock
      ensures Safe() && clkst == st
      ensures irefstInternal == old(irefstInternal) || irefstInternal == irefsInternal
      ensures pllst == old(pllst) || pllst == plls
    {
      Drift();
      clkst := Follows(clks, plls);
    }

    method AwaitPllst(st: bool)
      requires Safe() && plls == st
      modifies this`clkst, this`irefstInternal, this`pllst, this`ircstFast, this`lock
      ensures Safe() && pllst == st
      ensures clkst == old(clkst) || clkst == Follows(clks, plls)
      ensures irefstInternal == old(irefstInternal) || irefstInternal == irefsInternal
    {
      Drift();
      pllst := plls;
    }

    // -------------------------------------------------------------- the setters

    /** The ERR007993 part shared by the four FLL mode setters: switch CLKS and IREFS together. */
    method SwitchReference(clks: ClkSource, internal: bool)
      requires Consistent() && !plls
      modifies this`clks, this`irefsInternal, this`drs,
               this`clkst, this`irefstInternal, this`pllst, this`ircstFast, this`lock
      ensures Safe() && drs == savedDrs && this.clks == clks && irefsInternal == irefstInternal == internal && !pllst
      ensures clkst == old(clkst) || clkst == Follows(clks, plls)
    {
      var saved := drs;
      var changeDrs := false;
      if irefstInternal != internal {
        changeDrs := true;
        InvertDrs();
      }
      WriteC1(clks, internal);
      AwaitIrefst(internal);
      if changeDrs {
        RestoreDrs(saved);
      }
    }

    method SetFeiMode(dmx32: bool, drs: nat) returns (status: Status)
      requires Consistent() && (checkParam || Accepts(FEI, CurrentMode()))
      modifies this
      ensures Consistent() && this.drs == if status == Success then drs else old(this.drs)
      ensures settings == if status == Success then old(settings).(dmx32 := dmx32) else old(settings)
      ensures status == if Accepts(FEI, old(CurrentMode())) then Success else ModeUnreachable
      ensures status == Success ==> CurrentMode() == FEI
      ensures status != Success ==> CurrentMode() == old(CurrentMode())
    {
      if checkParam && !Accepts(FEI, CurrentMode()) {
        return ModeUnreachable;
      }
      SwitchReference(SrcOut, true);
      WriteC4(dmx32, drs);
      AwaitClkst(StatFll);
      return Success;
    }

    method SetFeeMode(frdiv: nat, dmx32: bool, drs: nat) returns (status: Status)
      requires Consistent() && (checkParam || Accepts(FEE, CurrentMode()))
      modifies this
      ensures Consistent() && this.drs == if status == Success then drs else old(this.drs)
      ensures settings == if status == Success then old(settings).(dmx32 := dmx32, frdiv := frdiv) else old(settings)
      ensures status == if Accepts(FEE, old(CurrentMode())) then Success else ModeUnreachable
      ensures status == Success ==> CurrentMode() == FEE
      ensures status != Success ==> CurrentMode() == old(CurrentMode())
    {
      if checkParam && !Accepts(FEE, CurrentMode()) {
        return ModeUnreachable;
      }
      settings := settings.(frdiv := frdiv);
      SwitchReference(SrcOut, false);
      WriteC4(dmx32, drs);
      AwaitClkst(StatFll);
      return Success;
    }

    method SetFbiMode(dmx32: bool, drs: nat) returns (status: Status)
      requires Consistent() && (checkParam || Accepts(FBI, CurrentMode()))
      modifies this
      ensures Consistent() && this.drs == if status == Success then drs else old(this.drs)
      ensures settings == if status == Success then old(settings).(dmx32 := dmx32) else old(settings)
      ensures status == if Accepts(FBI, old(CurrentMode())) then Success else ModeUnreachable
      ensures status == Success ==> CurrentMode() == FBI
      ensures status != Success ==> CurrentMode() == old(CurrentMode())
    {
      if checkParam && !Accepts(FBI, CurrentMode()) {
        return ModeUnreachable;
      }
      lp := false;
      SwitchReference(SrcInternal, true);
      AwaitClkst(StatInt);
      WriteC4(dmx32, drs);
      return Success;
    }

    /** The DRST_DRS and DMX32 arguments have no effect: the new C4 is computed but not written. */
    method SetFbeMode(frdiv: nat, dmx32: bool, drs: nat) returns (status: Status)
      requires Consistent() && (checkParam || Accepts(FBE, CurrentMode()))
      modifies this
      ensures Consistent() && this.drs == old(this.drs)
      ensures settings == if status == Success then old(settings).(frdiv := frdiv) else old(settings)
      ensures status == if Accepts(FBE, old(CurrentMode())) then Success else ModeUnreachable
      ensures status == Success ==> CurrentMode() == FBE
      ensures status != Success ==> CurrentMode() == old(CurrentMode())
    {
      if checkParam && !Accepts(FBE, CurrentMode()) {
        return ModeUnreachable;
      }
      plls := false;
      AwaitPllst(false);
      lp := false;
      settings := settings.(frdiv := frdiv);
      SwitchReference(SrcExternal, false);
      AwaitClkst(StatExt);
      return Success;
    }

    method SetBlpiMode() returns (status: Status)
      requires Consistent() && (checkParam || Accepts(BLPI, CurrentMode()))
      modifies this
      ensures Consistent() && drs == old(drs) && settings == old(settings)
      ensures status == if Accepts(BLPI, old(CurrentMode())) then Success else ModeUnreachable
      ensures CurrentMode() == if status == Success then BLPI else old(CurrentMode())
    {
      if checkParam && clkst != StatInt {
        return ModeUnreachable;
      }
      lp := true;
      return Success;
    }

    method SetBlpeMode() returns (status: Status)
      requires Consistent() && (checkParam || Accepts(BLPE, CurrentMode()))
      modifies this
      ensures Consistent() && drs == old(drs) && settings == old(settings)
      ensures status == if Accepts(BLPE, old(CurrentMode())) then Success else ModeUnreachable
      ensures CurrentMode() == if status == Success then BLPE else old(CurrentMode())
    {
      if checkParam && clkst != StatExt {
        return ModeUnreachable;
      }
      lp := true;
      return Success;
    }

    /**
     * It has no guard and no ERR007993 step: from the internal reference it reaches PBE all the same, but
     * by a switch that breaks the rule, and only then.
     */
    method SetPbeMode(prdiv: nat, vdiv: nat) returns (status: Status)
      requires Consistent()
      modifies this
      ensures Settled() && drs == old(drs)
      ensures settings == old(settings).(prdiv := prdiv, vdiv := vdiv, pllEnable := true)
      ensures status == Success && CurrentMode() == PBE && lock
      ensures unguardedSwitch <==> old(irefsInternal)
    {
      lp := false;
      WriteC1Unguarded(SrcExternal, false);
      AwaitExternal();
      SelectPll(prdiv, vdiv);
      return Success;
    }

    /** The second half: configure the PLL while it is deselected, then select it. */
    method SelectPll(prdiv: nat, vdiv: nat)
      requires Safe() && !irefsInternal && !irefstInternal && clks == SrcExternal && clkst == StatExt
      modifies this`plls, this`settings, this`clkst, this`irefstInternal, this`pllst, this`ircstFast, this`lock
      ensures settings == old(settings).(prdiv := prdiv, vdiv := vdiv, pllEnable := true)
      ensures Safe() && plls && pllst && lock && clkst == StatExt && !irefstInternal
    {
      plls := false;
      AwaitPllst(false);
      EnablePll(prdiv, vdiv);
      plls := true;
      AwaitPllst(true);
      lock := true;
    }

    /** A write of C1 that does not care about the rule. */
    method WriteC1Unguarded(clks: ClkSource, irefsInternal: bool)
      modifies this`clks, this`irefsInternal, this`unguardedSwitch
      ensures this.clks == clks && this.irefsInternal == irefsInternal
      ensures unguardedSwitch <==> old(unguardedSwitch) || (irefsInternal != irefstInternal && !Inverted())
    {
      unguardedSwitch := unguardedSwitch || (irefsInternal != irefstInternal && !Inverted());
      this.clks := clks;
      this.irefsInternal := irefsInternal;
    }

    /** The wait for IREFST and CLKST together. */
    method AwaitExternal()
      modifies this`clkst, this`irefstInternal, this`pllst, this`ircstFast, this`lock
      ensures clkst == Follows(clks, plls) && irefstInternal == irefsInternal
      ensures pllst == old(pllst) || pllst == plls
    {
      if * { pllst := plls; }
      if * { ircstFast := settings.ircsFast; }
      if * { lock := plls; }
      clkst := Follows(clks, plls);
      irefstInternal := irefsInternal;
    }

    /** CLOCK_EnablePll0: write the dividers, enable, wait for the lock. */
    method EnablePll(prdiv: nat, vdiv: nat)
      modifies this`settings, this`lock
      ensures settings == old(settings).(prdiv := prdiv, vdiv := vdiv, pllEnable := true) && lock
    {
      settings := settings.(prdiv := prdiv, pllEnable := false);
      settings := settings.(vdiv := vdiv);
      settings := settings.(pllEnable := true);
      lock := true;
    }

    method SetPeeMode() returns (status: Status)
      requires Consistent() && (checkParam || Accepts(PEE, CurrentMode()))
      modifies this
      ensures Consistent() && drs == old(drs) && settings == old(settings)
      ensures status == if Accepts(PEE, old(CurrentMode())) then Success else ModeUnreachable
      ensures CurrentMode() == if status == Success then PEE else old(CurrentMode())
    {
      if checkParam && CurrentMode() != PBE {
        return ModeUnreachable;
      }
      WriteC1(SrcOut, irefsInternal);
      AwaitClkst(StatPll);
      return Success;
    }

    /** CLOCK_ExternalModeToFbeModeQuick. */
    method ExternalModeToFbeModeQuick() returns (status: Status)
      requires Consistent() && (checkParam || !irefstInternal)
      modifies this
      ensures Consistent() && drs == old(drs) && settings == old(settings)
      ensures status == if old(irefstInternal) then ModeInvalid else Success
      ensures CurrentMode() == if status == Success then FBE else old(CurrentMode())
    {
      if checkParam && irefstInternal {
        return ModeInvalid;
      }
      lp := false;
      WriteC1(SrcExternal, irefsInternal);
      AwaitClkst(StatExt);
      plls := false;
      AwaitPllst(false);
      return Success;
    }

    method SetExternalRefClkConfig(oscsel: nat) returns (status: Status)
      requires Consistent() && (checkParam || irefstInternal || oscsel == settings.oscsel)
      modifies this`settings
      ensures Consistent() && CurrentMode() == old(CurrentMode())
      ensures status == if old(irefstInternal) || oscsel == old(settings.oscsel) then Success else SourceUsed
      ensures settings == if status == Success then old(settings).(oscsel := oscsel) else old(settings)
    {
      if checkParam && settings.oscsel != oscsel && !irefstInternal {
        return SourceUsed;
      }
      WriteOscsel(oscsel);
      return Success;
    }

    /** With the internal reference as system clock, settings may not touch what is in use. */
    predicate IrcFree(ircs: bool, div: nat)
      reads this
    {
      clkst != StatInt || (ircs == ircstFast && (ircstFast ==> div == settings.fcrdiv))
    }

    method SetInternalRefClkConfig(enable: bool, ircs: bool, div: nat) returns (status: Status)
      requires Consistent() && (checkParam || IrcFree(ircs, div))
      modifies this`settings, this`ircstFast
      ensures Consistent() && CurrentMode() == old(CurrentMode())
      ensures status == if old(IrcFree(ircs, div)) then Success else SourceUsed
      ensures settings == if status == Success
                          then old(settings).(irclkEnable := enable, ircsFast := ircs, fcrdiv := div)
                          else old(settings)
      ensures status == Success && (enable || clkst == StatInt) ==> ircstFast == ircs
      ensures status != Success ==> ircstFast == old(ircstFast)
    {
      if checkParam && clkst == StatInt {
        if (ircstFast && div != settings.fcrdiv) || ircs != ircstFast {
          return SourceUsed;
        }
      }
      if div != settings.fcrdiv {
        if ircstFast && (clkst == StatInt || settings.irclkEnable) {
          WriteIrcs(false);
          ircstFast := false;
        }
        WriteFcrdiv(div);
      }
      WriteIrcs(ircs);
      settings := settings.(irclkEnable := enable);
      if clkst == StatInt || enable {
        ircstFast := ircs;
      }
      return Success;
    }

    /** One step of the loop of CLOCK_SetMcgConfig. */
    method StepTo(next: Mode, config: Config) returns (status: Status)
      requires Consistent() && next == NextMode(CurrentMode(), config.mode)
      modifies this
      ensures Consistent() && CurrentMode() == next && status == Success
      ensures settings == Touched(old(settings), {next}, config) && drs == TouchedDrs(old(drs), {next}, config)
    {
      TableAccepted(CurrentMode(), config.mode);
      status := Success;
      match next {
        case FEI => status := SetFeiMode(config.dmx32, config.drs);
        case FEE => status := SetFeeMode(config.frdiv, config.dmx32, config.drs);
        case FBI => status := SetFbiMode(config.dmx32, config.drs);
        case FBE => status := SetFbeMode(config.frdiv, config.dmx32, config.drs);
        case BLPI => status := SetBlpiMode();
        case BLPE => status := SetBlpeMode();
        case PBE =>
          if config.mode == PEE || config.mode == PBE {
            status := SetPbeMode(config.prdiv, config.vdiv);
          } else {
            WriteC1(SrcExternal, irefsInternal);
            AwaitClkst(StatExt);
          }
        case PEE => status := SetPeeMode();
      }
    }

    /** CLOCK_SetMcgConfig first goes to FEI if what is in use must change, or may. */
    predicate LeavesFirst(config: Config)
      reads this
    {
      (settings.oscsel != config.oscsel && !irefstInternal) || clkst == StatInt
    }

    /** OSCSEL changes only after the external reference is no longer in use. */
    method ChangeOscsel(config: Config)
      requires Consistent()
      modifies this
      ensures Consistent()
      ensures var leaves := old(settings.oscsel != config.oscsel && !irefstInternal);
              && CurrentMode() == (if leaves then FEI else old(CurrentMode()))
              && settings == old(settings).(oscsel := config.oscsel,
                                            dmx32 := if leaves then config.dmx32 else old(settings.dmx32))
              && drs == if leaves then config.drs else old(drs)
    {
      if settings.oscsel != config.oscsel {
        if !irefstInternal {
          var st := ExternalModeToFbeModeQuick();
          st := SetFeiMode(config.dmx32, config.drs);
        }
        var st := SetExternalRefClkConfig(config.oscsel);
      }
    }

    /** The internal reference is not the system clock when it is configured. */
    method LeaveInternal(config: Config)
      requires Consistent()
      modifies this
      ensures Consistent() && clkst != StatInt
      ensures var leaves := old(clkst) == StatInt;
              && CurrentMode() == (if leaves then FEI else old(CurrentMode()))
              && settings == (if leaves then old(settings).(dmx32 := config.dmx32) else old(settings))
              && drs == if leaves then config.drs else old(drs)
    {
      if clkst == StatInt {
        lp := false;
        var st := SetFeiMode(config.dmx32, config.drs);
      }
    }

    /** First part of CLOCK_SetMcgConfig: leave what is in use, then select the reference clocks. */
    method SelectReferences(config: Config)
      requires Consistent()
      modifies this
      ensures Consistent() && clkst != StatInt
      ensures CurrentMode() == if old(LeavesFirst(config)) then FEI else old(CurrentMode())
      ensures settings == Selected(old(settings), old(LeavesFirst(config)), config)
      ensures drs == if old(LeavesFirst(config)) then config.drs else old(drs)
    {
      ChangeOscsel(config);
      LeaveInternal(config);
      var st := SetInternalRefClkConfig(config.irclkEnable, config.ircsFast, config.fcrdiv);
    }

    /**
     * CLOCK_SetMcgConfig, from any of the eight consistent modes: it ends, it ends successfully, then
     * CLOCK_GetMode reports the requested mode, the clock sources are the requested ones, and every other
     * setting is the requested one exactly if a mode on the way sets it.
     */
    method SetMcgConfig(config: Config) returns (status: Status)
      requires Consistent()
      modifies this
      ensures status == Success && Consistent() && CurrentMode() == config.mode
      ensures settings.oscsel == config.oscsel && settings.ircsFast == config.ircsFast
      ensures settings.fcrdiv == config.fcrdiv && settings.irclkEnable == config.irclkEnable
      ensures settings.pllEnable == config.pllEnable
      ensures config.mode in {FEI, FEE, FBI, BLPI} ==> drs == config.drs && settings.dmx32 == config.dmx32
      ensures config.mode in {FEE, FBE} ==> settings.frdiv == config.frdiv
      ensures config.pllEnable || config.mode == PBE || (config.mode == PEE && old(CurrentMode()) != PBE) ==>
                settings.prdiv == config.prdiv && settings.vdiv == config.vdiv
      ensures var leaves := old(LeavesFirst(config));
              var route := Route(if leaves then FEI else old(CurrentMode()), config.mode);
              && settings == Finished(Touched(Selected(old(settings), leaves, config), route, config), config)
              && drs == TouchedDrs(if leaves then config.drs else old(drs), route, config)
    {
      SelectReferences(config);
      RouteSets(CurrentMode(), config.mode);
      if config.mode in {PBE, PEE} { PllReconfigured(CurrentMode(), config.mode); }
      status := WalkTable(config);
      if config.pllEnable {
        EnablePll(config.prdiv, config.vdiv);
      } else {
        settings := settings.(pllEnable := false);
      }
    }

    /** The loop of CLOCK_SetMcgConfig. */
    method WalkTable(config: Config) returns (status: Status)
      requires Consistent()
      modifies this
      ensures status == Success && Consistent() && CurrentMode() == config.mode
      ensures var route := Route(old(CurrentMode()), config.mode);
              settings == Touched(old(settings), route, config) && drs == TouchedDrs(old(drs), route, config)
    {
      status := Success;
      ghost var route, visited: set<Mode> := Route(CurrentMode(), config.mode), {};
      var nextMode := CurrentMode();
      var first := true;
      while first || nextMode != config.mode
        invariant Consistent() && CurrentMode() == nextMode && status == Success
        invariant settings == Touched(old(settings), visited, config) && drs == TouchedDrs(old(drs), visited, config)
        invariant route == visited + if first || nextMode != config.mode then Route(nextMode, config.mode) else {}
        decreases first || nextMode != config.mode, Hops(nextMode, config.mode)
      {
        TableProgress(nextMode, config.mode);
        first := false;
        nextMode := NextMode(nextMode, config.mode);
        TouchedMore(old(settings), old(drs), visited, nextMode, config);
        status := StepTo(nextMode, config);
        visited := visited + {nextMode};
        if status != Success {
          return;
        }
      }
    }
  }

  /** The modes the table leads through, the target included. */
  function Route(from: Mode, target: Mode): set<Mode>
    decreases Hops(from, target)
  {
    TableProgress(from, target);
    var next := NextMode(from, target);
    {next} + if next == target then {} else Route(next, target)
  }

  /** What the first part of the switch leaves; going to FEI takes DMX32 with it. */
  function Selected(s: Settings, leaves: bool, config: Config): Settings {
    s.(oscsel := config.oscsel, irclkEnable := config.irclkEnable, ircsFast := config.ircsFast, fcrdiv := config.fcrdiv,
       dmx32 := if leaves then config.dmx32 else s.dmx32)
  }

  /** Modes that set DRS and DMX32; FBE does not. */
  predicate SetsDrs(modes: set<Mode>) {
    FEI in modes || FEE in modes || FBI in modes
  }

  function TouchedDrs(drs: nat, modes: set<Mode>, config: Config): nat {
    if SetsDrs(modes) then config.drs else drs
  }

  /** What passing through these modes leaves: each mode sets its own fields. */
  function Touched(s: Settings, modes: set<Mode>, config: Config): Settings {
    var frdiv := FEE in modes || FBE in modes;
    var pll := PBE in modes && config.mode in {PBE, PEE};
    s.(dmx32 := if SetsDrs(modes) then config.dmx32 else s.dmx32,
       frdiv := if frdiv then config.frdiv else s.frdiv,
       prdiv := if pll then config.prdiv else s.prdiv, vdiv := if pll then config.vdiv else s.vdiv,
       pllEnable := pll || s.pllEnable)
  }

  /** What the last part leaves: the PLL on by itself, newly configured, or only as the mode needs it. */
  function Finished(s: Settings, config: Config): Settings {
    s.(pllEnable := config.pllEnable,
       prdiv := if config.pllEnable then config.prdiv else s.prdiv,
       vdiv := if config.pllEnable then config.vdiv else s.vdiv)
  }

  lemma TouchedMore(s: Settings, drs: nat, modes: set<Mode>, next: Mode, config: Config)
    ensures Touched(Touched(s, modes, config), {next}, config) == Touched(s, modes + {next}, config)
    ensures TouchedDrs(TouchedDrs(drs, modes, config), {next}, config) == TouchedDrs(drs, modes + {next}, config)
  {}

  /** The target is on its own route, and a route to BLPI passes FBI unless it starts in BLPI. */
  lemma RouteSets(from: Mode, target: Mode)
    ensures target in Route(from, target)
    ensures target == BLPI && from != FBI && from != BLPI ==> FBI in Route(from, target)
    decreases Hops(from, target)
  {
    TableProgress(from, target);
    if NextMode(from, target) != target { RouteSets(NextMode(from, target), target); }
  }

  /**
   * A PLL configuration takes effect in every switch to PBE or PEE but one: from PBE to PEE the table goes
   * straight, and the PLL runs on as it was unless it is asked for independently of the mode.
   */
  lemma PllReconfigured(from: Mode, target: Mode)
    requires target in {PBE, PEE}
    ensures PBE in Route(from, target) <==> !(from == PBE && target == PEE)
    decreases Hops(from, target)
  {
    TableProgress(from, target);
    if NextMode(from, target) != target && NextMode(from, target) != PBE {
      PllReconfigured(NextMode(from, target), target);
    }
  }

  /** The table of modes and registers in the driver's documentation, for settled states. */
  lemma ModeRegisters(m: Mcg)
    requires m.Consistent()
    ensures m.CurrentMode() == FEI <==> m.clks == SrcOut && m.irefsInternal
    ensures m.CurrentMode() == FEE <==> m.clks == SrcOut && !m.irefsInternal && !m.plls
    ensures m.CurrentMode() == PEE <==> m.clks == SrcOut && m.plls
    ensures m.CurrentMode() == FBI <==> m.clks == SrcInternal && !m.lp
    ensures m.CurrentMode() == BLPI <==> m.clks == SrcInternal && m.lp
    ensures m.CurrentMode() == FBE <==> m.clks == SrcExternal && !m.plls && !m.lp
    ensures m.CurrentMode() == PBE <==> m.clks == SrcExternal && m.plls && !m.lp
    ensures m.CurrentMode() == BLPE <==> m.clks == SrcExternal && m.lp
  {}

  /** The one way round: from PEE to PEE the table goes through PBE, so the PLL is reconfigured. */
  lemma PeeToPee()
    ensures NextMode(PEE, PEE) == PBE && NextMode(PBE, PEE) == PEE && Hops(PEE, PEE) == 2
  {}
}
