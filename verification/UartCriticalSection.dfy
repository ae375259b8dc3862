/**
 * UART_TransferReceiveNonBlocking in ring mode, step by step.  Between any two of its steps the receive
 * interrupt may run, unless RIE is masked, and bytes may arrive.  The fine-grained run has the effect of
 * an atomic call at the moment RIE is masked.
 */
module UartCriticalSection {
  import opened UartReceive
  import opened UartReceiveRuns

  /** Where the user thread stands. */
  datatype Pc =
    | CheckBusy
    | MaskRie
    | Measure
    | CopyByte(left: nat, toReceive: nat)
    | AdvanceTail(left: nat, toReceive: nat)
    | SetSize(toReceive: nat)
    | SetBusy
    | UnmaskRie
    | Done

  datatype Thread = Thread(rx: Rx, pc: Pc, want: nat)

  datatype Move = User | Byte(b: Byte) | Isr(count: nat, replies: seq<seq<nat>>)

  function UserStep(t: Thread): Thread {
    var s := t.rx;
    match t.pc
    case CheckBusy => t.(pc := if s.busy then Done else MaskRie)
    case MaskRie => t.(rx := s.(rie := false), pc := Measure)
    case Measure =>
      var k := Min(t.want, |s.ring|);
      t.(pc := if k != 0 then CopyByte(k, t.want - k) else SetSize(t.want))
    case CopyByte(left, rest) =>
      t.(rx := if s.ring == [] then s else s.(delivered := s.delivered + [s.ring[0]]), pc := AdvanceTail(left, rest))
    case AdvanceTail(left, rest) =>
      t.(rx := if s.ring == [] then s else s.(ring := s.ring[1..]),
         pc := if left > 1 then CopyByte(left - 1, rest) else if rest != 0 then SetSize(rest) else UnmaskRie)
    case SetSize(rest) => t.(rx := s.(pending := rest, asked := rest), pc := SetBusy)
    case SetBusy => t.(rx := s.(busy := true), pc := UnmaskRie)
    case UnmaskRie => t.(rx := s.(rie := true), pc := Done)
    case Done => t
  }

  /** What happens around the user thread; the interrupt needs RIE. */
  function Around(s: Rx, m: Move): Rx {
    match m
    case User => s
    case Byte(b) => s.(fifo := s.fifo + [b])
    case Isr(count, replies) =>
      if s.rie && count <= |s.fifo| && count <= |replies| then Interrupt(s, count, replies) else s
  }

  function FineStep(t: Thread, m: Move): Thread {
    if m.User? then UserStep(t) else t.(rx := Around(t.rx, m))
  }

  predicate Masked(pc: Pc) {
    !pc.CheckBusy? && !pc.MaskRie? && !pc.Done?
  }

  /** What the masked steps produce from this state; they no longer look at the busy flag. */
  function Forced(s: Rx, want: nat): Rx {
    var k := Min(want, |s.ring|);
    s.(delivered := s.delivered + s.ring[..k], ring := s.ring[k..], rie := true,
       pending := if k < want then want - k else s.pending, asked := if k < want then want - k else s.asked,
       busy := s.busy || k < want)
  }

  /** The state the masked steps will have produced once they are all done. */
  function Finish(t: Thread): Rx {
    var s := t.rx;
    match t.pc
    case Measure => Forced(s, t.want)
    case CopyByte(left, rest) =>
      if left <= |s.ring| then
        s.(delivered := s.delivered + s.ring[..left], ring := s.ring[left..],
           pending := if rest != 0 then rest else s.pending,
           asked := if rest != 0 then rest else s.asked, busy := s.busy || rest != 0, rie := true)
      else s
    case AdvanceTail(left, rest) =>
      if 0 < left <= |s.ring| then
        s.(delivered := s.delivered + s.ring[1..left], ring := s.ring[left..],
           pending := if rest != 0 then rest else s.pending,
           asked := if rest != 0 then rest else s.asked, busy := s.busy || rest != 0, rie := true)
      else s
    case SetSize(rest) => s.(pending := rest, asked := rest, busy := true, rie := true)
    case SetBusy => s.(busy := true, rie := true)
    case UnmaskRie => s.(rie := true)
    case _ => s
  }

  /** The atomic run beside it: the whole call happens when RIE is masked. */
  function AtomicStep(t: Thread, a: Rx, m: Move): Rx {
    if m.User? then (if t.pc.MaskRie? then Receive(a, t.want) else a)
    else if Masked(t.pc) && m.Isr? then a
    else Around(a, m)
  }

  /** What the thread's own state keeps. */
  ghost predicate Shape(t: Thread) {
    && t.rx.ringed && 0 < t.want
    && (t.pc.CheckBusy? || t.pc.MaskRie? ==> (t.rx.busy <==> 0 < t.rx.pending))
    && (Masked(t.pc) ==> !t.rx.rie)
    && (t.pc.CopyByte? ==> 0 < t.pc.left <= |t.rx.ring|)
    && (t.pc.AdvanceTail? ==> 0 < t.pc.left <= |t.rx.ring|)
    && (t.pc.SetSize? ==> 0 < t.pc.toReceive)
  }

  /** The thread beside the atomic run; `same` tells whether it is heading for the same state. */
  ghost predicate Follows(t: Thread, a: Rx, same: bool) {
    && Shape(t) && Finish(t).fifo == a.fifo && (same <==> Finish(t) == a)
    && (t.pc.CheckBusy? || t.pc.MaskRie? ==> same)
  }

  /** While RIE is masked nothing around the thread touches ring, request or delivered bytes. */
  lemma MaskedIsQuiet(t: Thread, m: Move)
    requires Shape(t) && Masked(t.pc) && !m.User?
    ensures var t' := FineStep(t, m);
            t'.rx.ring == t.rx.ring && t'.rx.delivered == t.rx.delivered && t'.rx.pending == t.rx.pending
  {}

  /**
   * Masking in this state does no harm: the driver is idle, or it has no byte to give, RIE is on and the
   * pending request is untouched and of the very size that will be written over it.
   */
  predicate HarmlessAt(s: Rx, want: nat) {
    !s.busy || (s.ring == [] && s.pending == s.asked == want && s.rie)
  }

  /** The steps that do not look do what the call does exactly in a harmless state. */
  lemma {:induction false} ForcedIffHarmless(s: Rx, want: nat)
    requires s.ringed && 0 < want
    ensures Forced(s, want) == Receive(s, want) <==> HarmlessAt(s, want)
  {
    if s.busy {
      var k := Min(want, |s.ring|);
      assert |Forced(s, want).delivered| == |s.delivered| + k;
      if k == 0 { assert s.delivered + s.ring[..0] == s.delivered && s.ring[0..] == s.ring; }
    }
  }

  /**
   * On an idle handle an interrupt starts no request if and only if its overrun callbacks ask for at most
   * what the ring holds.
   */
  lemma {:induction false} IdleIffCapped(s: Rx, count: nat, replies: seq<seq<nat>>)
    requires Ordered(s) && s.pending == 0 && 0 < s.capacity && count <= |s.fifo| && count <= |replies|
    ensures !Interrupt(s, count, replies).busy <==> InterruptCapped(s, count, replies)
  {
    if count > 0 { RingPhaseIdle(s, count, replies); }
  }

  lemma {:induction false} RingPhaseIdle(s: Rx, count: nat, replies: seq<seq<nat>>)
    requires Ordered(s) && s.pending == 0 && 0 < s.capacity && count <= |s.fifo| && count <= |replies|
    ensures !RingPhase(s, count, replies).busy <==> RingPhaseCapped(s, count, replies)
    decreases count
  {
    if count > 0 {
      var s0 := s.(fifo := s.fifo[1..]);
      var t := RingByte(s0, s.fifo[0], replies[0]);
      RingByteOrdered(s0, s.fifo[0], replies[0]);
      if Ordered(t) {
        RingPhaseIdle(t, count - 1, replies[1..]);
      } else {
        BrokenStays(t, count - 1, replies[1..]);
      }
    }
  }

  lemma {:induction false} CallbackKeepsBusy(s: Rx, reply: seq<nat>)
    requires s.ringed && (s.busy <==> 0 < s.pending)
    ensures var t := Callback(s, reply); t.ringed && (t.busy <==> 0 < t.pending)
    decreases |reply|
  {
    if reply != [] { CallbackKeepsBusy(if reply[0] == 0 then s else Receive(s, reply[0]), reply[1..]); }
  }

  lemma {:induction false} RingPhaseKeepsBusy(s: Rx, count: nat, replies: seq<seq<nat>>)
    requires s.ringed && (s.busy <==> 0 < s.pending) && count <= |s.fifo| && count <= |replies|
    ensures var t := RingPhase(s, count, replies); t.ringed && (t.busy <==> 0 < t.pending)
    decreases count
  {
    if count > 0 {
      CallbackKeepsBusy(s.(fifo := s.fifo[1..]), replies[0]);
      CallbackKeepsFifo(s.(fifo := s.fifo[1..]), replies[0]);
      RingPhaseKeepsBusy(RingByte(s.(fifo := s.fifo[1..]), s.fifo[0], replies[0]), count - 1, replies[1..]);
    }
  }

  lemma {:induction false} InterruptKeepsBusy(s: Rx, count: nat, replies: seq<seq<nat>>)
    requires s.ringed && (s.busy <==> 0 < s.pending) && count <= |s.fifo| && count <= |replies|
    ensures var t := Interrupt(s, count, replies); t.ringed && (t.busy <==> 0 < t.pending)
    decreases count
  {
    if count > 0 && s.pending > 0 {
      var s1 := s.(fifo := s.fifo[1..], delivered := s.delivered + [s.fifo[0]], pending := 0, busy := false,
                   completed := s.completed + 1);
      CallbackKeepsBusy(s1, replies[0]);
      DirectKeepsFifo(s, replies[0]);
      InterruptKeepsBusy(DirectByte(s.(fifo := s.fifo[1..]), s.fifo[0], replies[0]), count - 1, replies[1..]);
    } else {
      RingPhaseKeepsBusy(s, count, replies);
    }
  }

  lemma {:induction false} InterruptKeepsRinged(s: Rx, count: nat, replies: seq<seq<nat>>)
    requires s.ringed && count <= |s.fifo| && count <= |replies|
    ensures Interrupt(s, count, replies).ringed
    decreases count
  {
    if count > 0 && s.pending > 0 {
      DirectKeepsFifo(s, replies[0]);
      InterruptKeepsRinged(DirectByte(s.(fifo := s.fifo[1..]), s.fifo[0], replies[0]), count - 1, replies[1..]);
    } else {
      RingPhaseKeepsRinged(s, count, replies);
    }
  }

  lemma {:induction false} RingPhaseKeepsRinged(s: Rx, count: nat, replies: seq<seq<nat>>)
    requires s.ringed && count <= |s.fifo| && count <= |replies|
    ensures RingPhase(s, count, replies).ringed
    decreases count
  {
    if count > 0 {
      CallbackKeepsFifo(s.(fifo := s.fifo[1..]), replies[0]);
      RingPhaseKeepsRinged(RingByte(s.(fifo := s.fifo[1..]), s.fifo[0], replies[0]), count - 1, replies[1..]);
    }
  }

  lemma {:induction false} CopyFirst(delivered: seq<Byte>, ring: seq<Byte>, left: nat)
    requires 0 < left <= |ring|
    ensures (delivered + [ring[0]]) + ring[1..left] == delivered + ring[..left]
  {
    assert ring[..left] == [ring[0]] + ring[1..left];
  }

  lemma {:induction false} AdvanceFirst(delivered: seq<Byte>, ring: seq<Byte>, left: nat)
    requires 0 < left <= |ring|
    ensures ring[1..][..left - 1] == ring[1..left] && ring[1..][left - 1..] == ring[left..]
    ensures left == 1 ==> delivered + ring[1..left] == delivered
  {}

  lemma {:induction false} MeasureStep(t: Thread)
    requires Shape(t) && t.pc.Measure?
    ensures Shape(UserStep(t)) && Finish(UserStep(t)) == Finish(t)
  {
    var s := t.rx;
    assert s.ring[..0] == [] && s.ring[0..] == s.ring && s.delivered + [] == s.delivered;
  }

  lemma {:induction false} CopyStep(t: Thread)
    requires Shape(t) && t.pc.CopyByte?
    ensures Shape(UserStep(t)) && Finish(UserStep(t)) == Finish(t)
  {
    CopyFirst(t.rx.delivered, t.rx.ring, t.pc.left);
  }

  lemma {:induction false} AdvanceStep(t: Thread)
    requires Shape(t) && t.pc.AdvanceTail?
    ensures Shape(UserStep(t)) && Finish(UserStep(t)) == Finish(t)
  {
    AdvanceFirst(t.rx.delivered, t.rx.ring, t.pc.left);
  }

  /** A step of the masked part heads for the same end. */
  lemma {:induction false} MaskedStep(t: Thread)
    requires Shape(t) && Masked(t.pc)
    ensures Shape(UserStep(t)) && Finish(UserStep(t)) == Finish(t)
  {
    match t.pc
    case Measure => MeasureStep(t);
    case CopyByte(left, rest) => CopyStep(t);
    case AdvanceTail(left, rest) => AdvanceStep(t);
    case _ =>
  }

  lemma {:induction false} UserFollows(t: Thread, a: Rx, same: bool) returns (same': bool)
    requires Follows(t, a, same)
    ensures same' == if t.pc.MaskRie? then HarmlessAt(t.rx, t.want) else same
    ensures Follows(UserStep(t), AtomicStep(t, a, User), same')
  {
    same' := same;
    if t.pc.MaskRie? {
      same' := HarmlessAt(t.rx, t.want);
      ForcedIffHarmless(t.rx, t.want);
      assert Finish(UserStep(t)) == Forced(t.rx, t.want);
    } else if Masked(t.pc) {
      MaskedStep(t);
    }
  }

  lemma {:induction false} ArrivalFollows(t: Thread, a: Rx, same: bool, b: UartReceive.Byte)
    requires Follows(t, a, same)
    ensures Follows(FineStep(t, Byte(b)), Around(a, Byte(b)), same)
  {
    var t', a' := FineStep(t, Byte(b)), Around(a, Byte(b));
    assert Finish(t') == Finish(t).(fifo := Finish(t).fifo + [b]);
    if Finish(t') == a' {
      assert Finish(t) == Finish(t').(fifo := a.fifo) == a'.(fifo := a.fifo) == a;
    }
  }

  /** Arrivals and interrupts change both alike; after the return only if they were the same. */
  lemma {:induction false} AroundFollows(t: Thread, a: Rx, same: bool, m: Move)
    requires Follows(t, a, same) && !m.User? && (t.pc.Done? ==> same)
    ensures Follows(FineStep(t, m), AtomicStep(t, a, m), same)
  {
    if m.Byte? {
      ArrivalFollows(t, a, same, m.b);
    } else if !Masked(t.pc) && t.rx.rie && m.count <= |t.rx.fifo| && m.count <= |m.replies| {
      InterruptKeepsRinged(t.rx, m.count, m.replies);
      if t.pc.CheckBusy? || t.pc.MaskRie? { InterruptKeepsBusy(t.rx, m.count, m.replies); }
    }
  }

  function FineRun(t: Thread, moves: seq<Move>): Thread
    decreases |moves|
  {
    if moves == [] then t else FineRun(FineStep(t, moves[0]), moves[1..])
  }

  function AtomicRun(t: Thread, a: Rx, moves: seq<Move>): Rx
    decreases |moves|
  {
    if moves == [] then a
    else AtomicRun(FineStep(t, moves[0]), AtomicStep(t, a, moves[0]), moves[1..])
  }

  /** Wherever the thread masks RIE, it does no harm. */
  predicate Harmless(t: Thread, moves: seq<Move>)
    decreases |moves|
  {
    moves == [] ||
    ((moves[0].User? && t.pc.MaskRie? ==> HarmlessAt(t.rx, t.want)) && Harmless(FineStep(t, moves[0]), moves[1..]))
  }

  /** The call returns with the last of these moves. */
  predicate Returns(t: Thread, moves: seq<Move>)
    decreases |moves|
  {
    && moves != [] && !t.pc.Done?
    && if |moves| == 1 then FineStep(t, moves[0]).pc.Done? else Returns(FineStep(t, moves[0]), moves[1..])
  }

  lemma {:induction false} StepFollows(t: Thread, a: Rx, same: bool, m: Move) returns (same': bool)
    requires Follows(t, a, same) && (t.pc.Done? ==> same)
    ensures same' == if m.User? && t.pc.MaskRie? then HarmlessAt(t.rx, t.want) else same
    ensures Follows(FineStep(t, m), AtomicStep(t, a, m), same')
  {
    same' := same;
    if m.User? {
      same' := UserFollows(t, a, same);
    } else {
      AroundFollows(t, a, same, m);
    }
  }

  lemma {:induction false} RunsMatch(t: Thread, a: Rx, moves: seq<Move>)
    requires Follows(t, a, true) && Harmless(t, moves)
    ensures Follows(FineRun(t, moves), AtomicRun(t, a, moves), true)
    decreases |moves|
  {
    if moves != [] {
      var same := StepFollows(t, a, true, moves[0]);
      RunsMatch(FineStep(t, moves[0]), AtomicStep(t, a, moves[0]), moves[1..]);
    }
  }

  lemma {:induction false} RunsExact(t: Thread, a: Rx, same: bool, moves: seq<Move>)
    requires Follows(t, a, same) && Returns(t, moves)
    ensures FineRun(t, moves).rx == AtomicRun(t, a, moves) <==> same && Harmless(t, moves)
    decreases |moves|
  {
    var t', a' := FineStep(t, moves[0]), AtomicStep(t, a, moves[0]);
    var same' := StepFollows(t, a, same, moves[0]);
    if |moves| == 1 {
      assert FineRun(t', moves[1..]) == t' && AtomicRun(t', a', moves[1..]) == a';
    } else {
      RunsExact(t', a', same', moves[1..]);
    }
  }

  /**
   * Adequacy of the critical section: whatever is interleaved, as long as the masking does no harm, once
   * the call has returned the driver is in the state of the atomic run, in which the call took
   * min(want, available) bytes in one go, and stays with it.
   */
  lemma {:induction false} CriticalSectionAdequate(s: Rx, want: nat, moves: seq<Move>)
    requires s.ringed && 0 < want && (s.busy <==> 0 < s.pending)
    requires Harmless(Thread(s, CheckBusy, want), moves)
    ensures var t := Thread(s, CheckBusy, want);
            FineRun(t, moves).pc.Done? ==> FineRun(t, moves).rx == AtomicRun(t, s, moves)
  {
    RunsMatch(Thread(s, CheckBusy, want), s, moves);
  }

  /** The condition is exact: the call returns in the state of the atomic run if and only if it holds. */
  lemma {:induction false} CriticalSectionExact(s: Rx, want: nat, moves: seq<Move>)
    requires s.ringed && 0 < want && (s.busy <==> 0 < s.pending)
    requires Returns(Thread(s, CheckBusy, want), moves)
    ensures var t := Thread(s, CheckBusy, want);
            FineRun(t, moves).rx == AtomicRun(t, s, moves) <==> Harmless(t, moves)
  {
    RunsExact(Thread(s, CheckBusy, want), s, true, moves);
  }

  // ---------------------------------------------------------------- the window before the masking

  /** Masking on an idle driver is harmless, so a window in which every request is also completed is too. */
  predicate IdleAtMask(t: Thread, moves: seq<Move>)
    decreases |moves|
  {
    moves == [] || ((moves[0].User? && t.pc.MaskRie? ==> !t.rx.busy) && IdleAtMask(FineStep(t, moves[0]), moves[1..]))
  }

  lemma {:induction false} IdleIsHarmless(t: Thread, moves: seq<Move>)
    requires IdleAtMask(t, moves)
    ensures Harmless(t, moves)
    decreases |moves|
  {
    if moves != [] { IdleIsHarmless(FineStep(t, moves[0]), moves[1..]); }
  }

  /**
   * On an idle driver one interrupt between the busy check and the masking, with an overrun callback that
   * asks for more than the ring holds, spoils every call that masks next, however it goes on.
   */
  lemma {:induction false} UncappedSpoils(s: Rx, want: nat, count: nat, replies: seq<seq<nat>>, rest: seq<Move>)
    requires Ordered(s) && s.pending == 0 && 0 < s.capacity && s.rie && 0 < want
    requires count <= |s.fifo| && count <= |replies| && !InterruptCapped(s, count, replies)
    requires Returns(Thread(s, CheckBusy, want), [User, Isr(count, replies), User] + rest)
    ensures var t, moves := Thread(s, CheckBusy, want), [User, Isr(count, replies), User] + rest;
            FineRun(t, moves).rx != AtomicRun(t, s, moves)
  {
    var t, moves := Thread(s, CheckBusy, want), [User, Isr(count, replies), User] + rest;
    var t1 := FineStep(t, User);
    var t2 := FineStep(t1, Isr(count, replies));
    assert t1 == Thread(s, MaskRie, want);
    RingPhaseSpoilt(s, count, replies);
    assert Broken(t2.rx);
    assert moves[1..] == [Isr(count, replies), User] + rest && moves[1..][1..] == [User] + rest;
    assert !Harmless(t2, [User] + rest);
    assert !Harmless(t1, moves[1..]);
    CriticalSectionExact(s, want, moves);
  }

  /** An idle driver that such a callback disturbs has a request pending behind bytes in the ring. */
  lemma {:induction false} RingPhaseSpoilt(s: Rx, count: nat, replies: seq<seq<nat>>)
    requires Ordered(s) && s.pending == 0 && 0 < s.capacity && count <= |s.fifo| && count <= |replies|
    requires !RingPhaseCapped(s, count, replies)
    ensures Broken(RingPhase(s, count, replies))
    decreases count
  {
    var s0 := s.(fifo := s.fifo[1..]);
    var t := RingByte(s0, s.fifo[0], replies[0]);
    RingByteOrdered(s0, s.fifo[0], replies[0]);
    if Ordered(t) {
      RingPhaseSpoilt(t, count - 1, replies[1..]);
    } else {
      BrokenStays(t, count - 1, replies[1..]);
    }
  }

  function Users(n: nat): seq<Move> {
    seq(n, _ => User)
  }

  lemma {:induction false} UsersNext(n: nat)
    requires 0 < n
    ensures |Users(n)| == n && Users(n)[0] == User && Users(n)[1..] == Users(n - 1)
  {}

  /** One such run from the start: a receive call for one byte, spoilt by a callback that asks for two. */
  lemma {:induction false} SpoiltCall(a: UartReceive.Byte, b: UartReceive.Byte)
    ensures var s := Rx(true, 1, [a], 0, 0, false, true, [b], [], 0);
            var t, moves := Thread(s, CheckBusy, 1), [User, Isr(1, [[2]]), User] + Users(4);
            Returns(t, moves) && FineRun(t, moves).rx != AtomicRun(t, s, moves)
  {
    var s := Rx(true, 1, [a], 0, 0, false, true, [b], [], 0);
    var t0, moves := Thread(s, CheckBusy, 1), [User, Isr(1, [[2]]), User] + Users(4);
    Overtaken(a, b, b);
    var s2 := Interrupt(s, 1, [[2]]);
    var t2 := Thread(s2, MaskRie, 1);
    assert FineStep(Thread(s, MaskRie, 1), Isr(1, [[2]])) == t2;
    UsersNext(5);
    UsersNext(4);
    UsersNext(3);
    UsersNext(2);
    UsersNext(1);
    assert moves[1..] == [Isr(1, [[2]]), User] + Users(4);
    assert moves[1..][1..] == Users(5);
    MaskToReturn(t2);
    assert Returns(Thread(s, MaskRie, 1), moves[1..]);
    assert [2][1..] == [] && Asked([2]) == 2;
    assert !RingPhaseCapped(s, 1, [[2]]);
    UncappedSpoils(s, 1, 1, [[2]], Users(4));
  }

  /** From the masking, a request for one byte that the ring holds takes five steps. */
  lemma {:induction false} MaskToReturn(t: Thread)
    requires t.pc.MaskRie? && t.want == 1 && t.rx.ring != []
    ensures Returns(t, Users(5))
  {
    UsersNext(5);
    UsersNext(4);
    UsersNext(3);
    UsersNext(2);
    var t1 := UserStep(t);
    var t2 := UserStep(t1);
    var t3 := UserStep(t2);
    var t4 := UserStep(t3);
    assert t2.pc == CopyByte(1, 0) && t4.pc == UnmaskRie && UserStep(t4).pc == Done;
    assert Returns(t4, Users(1));
    assert Returns(t3, Users(2));
    assert Returns(t2, Users(3));
    assert Returns(t1, Users(4));
  }

  /**
   * The other way to fail, from a busy state with an empty ring: the five steps of the call write their own
   * request over the pending one.
   */
  lemma {:induction false} RequestOverwritten(t: Thread)
    requires Shape(t) && t.pc.MaskRie? && t.rx.busy && t.rx.ring == []
    ensures Returns(t, Users(5))
    ensures FineRun(t, Users(5)).rx == t.rx.(pending := t.want, asked := t.want, rie := true)
    ensures AtomicRun(t, t.rx, Users(5)) == t.rx
  {
    UsersNext(5);
    UsersNext(4);
    UsersNext(3);
    UsersNext(2);
    UsersNext(1);
    var t1 := UserStep(t);
    var t2 := UserStep(t1);
    var t3 := UserStep(t2);
    var t4 := UserStep(t3);
    var t5 := UserStep(t4);
    assert t2.pc == SetSize(t.want) && t4.pc == UnmaskRie && t5.pc == Done;
    assert Returns(t4, Users(1));
    assert Returns(t3, Users(2));
    assert Returns(t2, Users(3));
    assert Returns(t1, Users(4));
    assert Users(0) == [];
    assert FineRun(t4, Users(1)) == t5 && FineRun(t3, Users(2)) == t5 && FineRun(t2, Users(3)) == t5;
    assert FineRun(t1, Users(4)) == t5 && FineRun(t, Users(5)) == t5;
    AtomicStaysPut(t1, t.rx, 4);
    assert AtomicStep(t, t.rx, User) == t.rx;
  }

  lemma {:induction false} AtomicStaysPut(t: Thread, a: Rx, n: nat)
    requires Masked(t.pc) || t.pc.Done?
    ensures AtomicRun(t, a, Users(n)) == a
    decreases n
  {
    if n > 0 {
      UsersNext(n);
      AtomicStaysPut(UserStep(t), a, n - 1);
    }
  }
}
