/**
 * Whole runs of ring-mode reception: bytes arrive in the FIFO, interrupts, receive calls and aborts come
 * in any order, and callbacks ask for more.
 */
module UartReceiveRuns {
  import opened UartReceive

  datatype Event = Arrive(b: Byte) | Irq(count: nat, replies: seq<seq<nat>>) | Ask(n: nat, reply: seq<nat>) | StopAsking

  function Step(s: Rx, e: Event): Rx {
    match e
    case Arrive(b) => s.(fifo := s.fifo + [b])
    case Irq(count, replies) =>
      if s.rie && count <= |s.fifo| && count <= |replies| then Interrupt(s, count, replies) else s
    case Ask(n, reply) => if n == 0 then s else ReceiveCall(s, n, reply)
    case StopAsking => Abort(s)
  }

  function Run(s: Rx, events: seq<Event>): Rx
    decreases |events|
  {
    if events == [] then s else Run(Step(s, events[0]), events[1..])
  }

  function Arrival(e: Event): seq<Byte> {
    if e.Arrive? then [e.b] else []
  }

  function Arrivals(events: seq<Event>): seq<Byte> {
    if events == [] then [] else Arrival(events[0]) + Arrivals(events[1..])
  }

  // ---------------------------------------------------------------- the books

  /** The bytes whose mark says they were kept. */
  function Kept(bytes: seq<Byte>, fate: seq<bool>): seq<Byte>
    requires |bytes| == |fate|
  {
    if bytes == [] then []
    else Kept(bytes[..|bytes| - 1], fate[..|fate| - 1]) + (if fate[|fate| - 1] then [bytes[|bytes| - 1]] else [])
  }

  /** How many marks say lost. */
  function Lost(fate: seq<bool>): nat {
    if fate == [] then 0 else Lost(fate[..|fate| - 1]) + (if fate[|fate| - 1] then 0 else 1)
  }

  /**
   * The books: the arrived stream is an initial part, each byte of which was either delivered or dropped
   * as `fate` says, then the ring, then the FIFO.  So order is kept, nothing is duplicated, and whatever
   * was dropped is older than everything still undelivered.
   */
  ghost predicate Accounts(s: Rx, arrived: seq<Byte>, fate: seq<bool>) {
    && |fate| <= |arrived|
    && arrived[|fate|..] == s.ring + s.fifo
    && s.delivered == Kept(arrived[..|fate|], fate)
  }

  /** A pending request and bytes in the ring exclude each other, so direct delivery never overtakes the ring. */
  ghost predicate Ordered(s: Rx) {
    && s.ringed && |s.ring| <= s.capacity
    && (s.busy <==> 0 < s.pending)
    && (0 < s.pending ==> s.ring == [])
  }

  function Marks(n: nat, kept: bool): seq<bool> {
    seq(n, _ => kept)
  }

  lemma {:induction false} KeptAppend(bytes: seq<Byte>, fate: seq<bool>, more: seq<Byte>, kept: bool)
    requires |bytes| == |fate|
    ensures Kept(bytes + more, fate + Marks(|more|, kept)) == Kept(bytes, fate) + (if kept then more else [])
  {
    var all, marks := bytes + more, fate + Marks(|more|, kept);
    if more == [] {
      assert all == bytes && marks == fate;
    } else {
      var front := more[..|more| - 1];
      KeptAppend(bytes, fate, front, kept);
      assert all[..|all| - 1] == bytes + front && marks[..|marks| - 1] == fate + Marks(|front|, kept);
      assert more == front + [more[|more| - 1]];
    }
  }

  lemma {:induction false} Joined(a: seq<bool>, b: seq<bool>, c: seq<bool>)
    ensures (a + b) + c == a + (b + c)
  {}

  lemma {:induction false} TakeTwice(ring: seq<Byte>, n: nat, k: nat)
    requires n + k <= |ring|
    ensures ring[n..][k..] == ring[n + k..] && ring[..n] + ring[n..][..k] == ring[..n + k]
  {}

  lemma {:induction false} LostAppend(a: seq<bool>, b: seq<bool>)
    ensures Lost(a + b) == Lost(a) + Lost(b)
  {
    if b == [] {
      assert a + b == a;
    } else {
      var front := b[..|b| - 1];
      LostAppend(a, front);
      assert (a + b)[..|a + b| - 1] == a + front;
    }
  }

  lemma {:induction false} LostMarks(n: nat, kept: bool)
    ensures Lost(Marks(n, kept)) == if kept then 0 else n
  {
    if n > 0 {
      LostMarks(n - 1, kept);
      assert Marks(n, kept)[..n - 1] == Marks(n - 1, kept);
    }
  }

  /** Marks that lose nothing keep everything, and each lost mark loses one byte. */
  lemma {:induction false} KeptLength(bytes: seq<Byte>, fate: seq<bool>)
    requires |bytes| == |fate|
    ensures |Kept(bytes, fate)| + Lost(fate) == |bytes|
    ensures Lost(fate) == 0 ==> Kept(bytes, fate) == bytes
  {
    if bytes != [] { KeptLength(bytes[..|bytes| - 1], fate[..|fate| - 1]); }
  }

  // ---------------------------------------------------------------- which bytes a step delivers and drops

  function Asked(reply: seq<nat>): nat {
    if reply == [] then 0 else reply[0] + Asked(reply[1..])
  }

  /** A byte is dropped exactly where the ring is still full after its callback. */
  predicate Overrun(s: Rx, reply: seq<nat>) {
    |MayTake(s, reply).ring| == s.capacity
  }

  /** Requests deliver the oldest bytes of the ring, and drop nothing. */
  function CallbackMarks(s: Rx, reply: seq<nat>): seq<bool> {
    if s.busy then [] else Marks(Min(Asked(reply), |s.ring|), true)
  }

  function RingByteMarks(s: Rx, reply: seq<nat>): seq<bool> {
    (if |s.ring| == s.capacity then CallbackMarks(s, reply) else []) + Marks(if Overrun(s, reply) then 1 else 0, false)
  }

  function RingPhaseMarks(s: Rx, count: nat, replies: seq<seq<nat>>): seq<bool>
    requires count <= |s.fifo| && count <= |replies|
    decreases count
  {
    if count == 0 then []
    else
      CallbackKeepsFifo(s.(fifo := s.fifo[1..]), replies[0]);
      RingByteMarks(s, replies[0])
        + RingPhaseMarks(RingByte(s.(fifo := s.fifo[1..]), s.fifo[0], replies[0]), count - 1, replies[1..])
  }

  /** Serving a request delivers the byte. */
  function InterruptMarks(s: Rx, count: nat, replies: seq<seq<nat>>): seq<bool>
    requires count <= |s.fifo| && count <= |replies|
    decreases count
  {
    if count > 0 && s.pending > 0 then
      DirectKeepsFifo(s, replies[0]);
      [true] + InterruptMarks(DirectByte(s.(fifo := s.fifo[1..]), s.fifo[0], replies[0]), count - 1, replies[1..])
    else if s.ringed then RingPhaseMarks(s, count, replies)
    else []
  }

  function StepMarks(s: Rx, e: Event): seq<bool> {
    match e
    case Arrive(b) => []
    case Irq(count, replies) =>
      if s.rie && count <= |s.fifo| && count <= |replies| then InterruptMarks(s, count, replies) else []
    case Ask(n, reply) => if n == 0 then [] else CallbackMarks(s, [n] + reply)
    case StopAsking => []
  }

  function RunMarks(s: Rx, events: seq<Event>): seq<bool>
    decreases |events|
  {
    if events == [] then [] else StepMarks(s, events[0]) + RunMarks(Step(s, events[0]), events[1..])
  }

  // ---------------------------------------------------------------- counting the overruns of a run

  function RingPhaseOverruns(s: Rx, count: nat, replies: seq<seq<nat>>): nat
    requires count <= |s.fifo| && count <= |replies|
    decreases count
  {
    if count == 0 then 0
    else
      CallbackKeepsFifo(s.(fifo := s.fifo[1..]), replies[0]);
      (if Overrun(s, replies[0]) then 1 else 0)
        + RingPhaseOverruns(RingByte(s.(fifo := s.fifo[1..]), s.fifo[0], replies[0]), count - 1, replies[1..])
  }

  function InterruptOverruns(s: Rx, count: nat, replies: seq<seq<nat>>): nat
    requires count <= |s.fifo| && count <= |replies|
    decreases count
  {
    if count > 0 && s.pending > 0 then
      DirectKeepsFifo(s, replies[0]);
      InterruptOverruns(DirectByte(s.(fifo := s.fifo[1..]), s.fifo[0], replies[0]), count - 1, replies[1..])
    else if s.ringed then RingPhaseOverruns(s, count, replies)
    else 0
  }

  /** Only the interrupt overruns: receive calls, aborts and arrivals drop nothing. */
  function RunOverruns(s: Rx, events: seq<Event>): nat
    decreases |events|
  {
    if events == [] then 0
    else
      var e := events[0];
      (if e.Irq? && s.rie && e.count <= |s.fifo| && e.count <= |e.replies|
       then InterruptOverruns(s, e.count, e.replies) else 0)
        + RunOverruns(Step(s, e), events[1..])
  }

  lemma DirectKeepsFifo(s: Rx, reply: seq<nat>)
    requires s.fifo != [] && 0 < s.pending
    ensures DirectByte(s.(fifo := s.fifo[1..]), s.fifo[0], reply).fifo == s.fifo[1..]
    ensures DirectByte(s.(fifo := s.fifo[1..]), s.fifo[0], reply).ringed == s.ringed
  {
    var s1 := s.(fifo := s.fifo[1..], delivered := s.delivered + [s.fifo[0]], pending := 0, busy := false,
                 completed := s.completed + 1);
    CallbackKeepsFifo(s1, reply);
  }

  lemma {:induction false} RingPhaseLosses(s: Rx, count: nat, replies: seq<seq<nat>>)
    requires count <= |s.fifo| && count <= |replies|
    ensures Lost(RingPhaseMarks(s, count, replies)) == RingPhaseOverruns(s, count, replies)
    decreases count
  {
    if count > 0 {
      CallbackKeepsFifo(s.(fifo := s.fifo[1..]), replies[0]);
      var t := RingByte(s.(fifo := s.fifo[1..]), s.fifo[0], replies[0]);
      RingPhaseLosses(t, count - 1, replies[1..]);
      RingByteLosses(s, replies[0]);
      LostAppend(RingByteMarks(s, replies[0]), RingPhaseMarks(t, count - 1, replies[1..]));
    }
  }

  lemma {:induction false} RingByteLosses(s: Rx, reply: seq<nat>)
    ensures Lost(RingByteMarks(s, reply)) == if Overrun(s, reply) then 1 else 0
  {
    var kept := if |s.ring| == s.capacity then CallbackMarks(s, reply) else [];
    LostMarks(|kept|, true);
    assert kept == Marks(|kept|, true);
    LostMarks(if Overrun(s, reply) then 1 else 0, false);
    LostAppend(kept, Marks(if Overrun(s, reply) then 1 else 0, false));
  }

  lemma {:induction false} InterruptLosses(s: Rx, count: nat, replies: seq<seq<nat>>)
    requires count <= |s.fifo| && count <= |replies|
    ensures Lost(InterruptMarks(s, count, replies)) == InterruptOverruns(s, count, replies)
    decreases count
  {
    if count > 0 && s.pending > 0 {
      DirectKeepsFifo(s, replies[0]);
      var t := DirectByte(s.(fifo := s.fifo[1..]), s.fifo[0], replies[0]);
      InterruptLosses(t, count - 1, replies[1..]);
      LostMarks(1, true);
      assert [true] == Marks(1, true);
      LostAppend([true], InterruptMarks(t, count - 1, replies[1..]));
    } else if s.ringed {
      RingPhaseLosses(s, count, replies);
    }
  }

  /** The lost marks of a run are exactly its overruns. */
  lemma {:induction false} LossesAreOverruns(s: Rx, events: seq<Event>)
    ensures Lost(RunMarks(s, events)) == RunOverruns(s, events)
    decreases |events|
  {
    if events != [] {
      var e := events[0];
      LossesAreOverruns(Step(s, e), events[1..]);
      LostAppend(StepMarks(s, e), RunMarks(Step(s, e), events[1..]));
      if e.Irq? && s.rie && e.count <= |s.fifo| && e.count <= |e.replies| {
        InterruptLosses(s, e.count, e.replies);
      } else {
        assert StepMarks(s, e) == Marks(|StepMarks(s, e)|, true);
        LostMarks(|StepMarks(s, e)|, true);
      }
    }
  }

  // ---------------------------------------------------------------- the condition on overrun callbacks

  /** The callback of a full ring asks for no more than the ring holds; a ring without room never matters. */
  predicate Capped(s: Rx, reply: seq<nat>) {
    |s.ring| < s.capacity || s.capacity == 0 || Asked(reply) <= |s.ring|
  }

  predicate RingPhaseCapped(s: Rx, count: nat, replies: seq<seq<nat>>)
    requires count <= |s.fifo| && count <= |replies|
    decreases count
  {
    count == 0 ||
    (CallbackKeepsFifo(s.(fifo := s.fifo[1..]), replies[0]);
     && Capped(s, replies[0])
     && RingPhaseCapped(RingByte(s.(fifo := s.fifo[1..]), s.fifo[0], replies[0]), count - 1, replies[1..]))
  }

  predicate InterruptCapped(s: Rx, count: nat, replies: seq<seq<nat>>)
    requires count <= |s.fifo| && count <= |replies|
    decreases count
  {
    if count > 0 && s.pending > 0 then
      DirectKeepsFifo(s, replies[0]);
      InterruptCapped(DirectByte(s.(fifo := s.fifo[1..]), s.fifo[0], replies[0]), count - 1, replies[1..])
    else s.ringed ==> RingPhaseCapped(s, count, replies)
  }

  predicate StepCapped(s: Rx, e: Event) {
    e.Irq? && s.rie && e.count <= |s.fifo| && e.count <= |e.replies| ==> InterruptCapped(s, e.count, e.replies)
  }

  predicate RunCapped(s: Rx, events: seq<Event>)
    decreases |events|
  {
    events == [] || (StepCapped(s, events[0]) && RunCapped(Step(s, events[0]), events[1..]))
  }

  ghost predicate AlwaysOrdered(s: Rx, events: seq<Event>)
    decreases |events|
  {
    Ordered(s) && (events == [] || AlwaysOrdered(Step(s, events[0]), events[1..]))
  }

  /** What a callback on an idle handle does in all: the oldest bytes go, and the excess stays pending. */
  lemma {:induction false} CallbackMeaning(s: Rx, reply: seq<nat>)
    requires s.ringed && !s.busy && s.pending == 0
    ensures var t, k := Callback(s, reply), Min(Asked(reply), |s.ring|);
            && t.delivered == s.delivered + s.ring[..k] && t.ring == s.ring[k..]
            && t.fifo == s.fifo && t.ringed && t.capacity == s.capacity
            && (t.busy <==> Asked(reply) > |s.ring|) && (0 < t.pending <==> t.busy)
    decreases |reply|
  {
    if reply != [] {
      var n := reply[0];
      if n <= |s.ring| {
        var s1 := if n == 0 then s else Receive(s, n);
        assert s1.ring == s.ring[n..] && s1.delivered == s.delivered + s.ring[..n];
        CallbackMeaning(s1, reply[1..]);
        TakeTwice(s.ring, n, Min(Asked(reply[1..]), |s1.ring|));
      } else {
        BusyRefuses(Receive(s, n), reply[1..]);
      }
    }
  }

  /** What the callback of a full ring leaves: a request stays pending exactly if it asked for too much. */
  lemma {:induction false} MayTakeMeaning(s: Rx, reply: seq<nat>)
    requires Ordered(s)
    ensures var t := MayTake(s, reply);
            && t.fifo == s.fifo && t.ringed && t.capacity == s.capacity && |t.ring| <= t.capacity
            && (t.busy <==> 0 < t.pending)
            && (t.busy <==> s.busy || (|s.ring| == s.capacity && Asked(reply) > |s.ring|))
            && (t.busy ==> t.ring == [])
            && |t.delivered| + |t.ring| == |s.delivered| + |s.ring|
  {
    if |s.ring| == s.capacity {
      if s.busy { BusyRefuses(s, reply); } else { CallbackMeaning(s, reply); }
    }
  }

  lemma StoreMeaning(s: Rx, b: Byte)
    requires |s.ring| <= s.capacity
    ensures var t := StoreByte(s, b);
            && t == s.(ring := t.ring) && |t.ring| <= t.capacity
            && (t.ring == [] <==> s.capacity == 0)
            && |t.ring| == |s.ring| + (if |s.ring| == s.capacity then 0 else 1)
  {}

  /** Storing a byte keeps the order exactly if the callback was capped. */
  lemma {:induction false} RingByteOrdered(s: Rx, b: Byte, reply: seq<nat>)
    requires Ordered(s) && (s.pending == 0 || s.capacity == 0)
    ensures var t := RingByte(s, b, reply);
            && (Ordered(t) <==> Capped(s, reply)) && t.ringed && t.capacity == s.capacity && t.fifo == s.fifo
            && (Ordered(t) ==> t.pending == 0 || t.capacity == 0)
            && (!Ordered(t) ==> Broken(t))
  {
    MayTakeMeaning(s, reply);
    StoreMeaning(MayTake(s, reply), b);
  }

  /** A request pending behind bytes in the ring. */
  ghost predicate Broken(s: Rx) {
    s.ringed && s.busy && 0 < s.pending && 0 < |s.ring| <= s.capacity
  }

  lemma {:induction false} BrokenStays(s: Rx, count: nat, replies: seq<seq<nat>>)
    requires Broken(s) && count <= |s.fifo| && count <= |replies|
    ensures Broken(RingPhase(s, count, replies))
    decreases count
  {
    if count > 0 {
      BusyRefuses(s.(fifo := s.fifo[1..]), replies[0]);
      BrokenStays(RingByte(s.(fifo := s.fifo[1..]), s.fifo[0], replies[0]), count - 1, replies[1..]);
    }
  }

  lemma {:induction false} RingPhaseOrdered(s: Rx, count: nat, replies: seq<seq<nat>>)
    requires Ordered(s) && (s.pending == 0 || s.capacity == 0) && count <= |s.fifo| && count <= |replies|
    ensures Ordered(RingPhase(s, count, replies)) <==> RingPhaseCapped(s, count, replies)
    decreases count
  {
    if count > 0 {
      var s0 := s.(fifo := s.fifo[1..]);
      var t := RingByte(s0, s.fifo[0], replies[0]);
      RingByteOrdered(s0, s.fifo[0], replies[0]);
      if Ordered(t) {
        RingPhaseOrdered(t, count - 1, replies[1..]);
      } else {
        BrokenStays(t, count - 1, replies[1..]);
      }
    }
  }

  lemma {:induction false} DirectByteOrdered(s: Rx, b: Byte, reply: seq<nat>)
    requires Ordered(s) && 0 < s.pending
    ensures var t := DirectByte(s, b, reply);
            && Ordered(t) && t.ring == [] && t.fifo == s.fifo && t.delivered == s.delivered + [b]
  {
    if s.pending == 1 {
      var s1 := s.(delivered := s.delivered + [b], pending := 0, busy := false, completed := s.completed + 1);
      CallbackMeaning(s1, reply);
    }
  }

  /**
   * An interrupt keeps the order if and only if each callback of a full ring asks for at most what the ring
   * holds.  A larger request stays pending while the same interrupt goes on filling the ring.
   */
  lemma {:induction false} InterruptOrdered(s: Rx, count: nat, replies: seq<seq<nat>>)
    requires Ordered(s) && count <= |s.fifo| && count <= |replies|
    ensures Ordered(Interrupt(s, count, replies)) <==> InterruptCapped(s, count, replies)
    decreases count
  {
    if count > 0 && s.pending > 0 {
      DirectByteOrdered(s.(fifo := s.fifo[1..]), s.fifo[0], replies[0]);
      InterruptOrdered(DirectByte(s.(fifo := s.fifo[1..]), s.fifo[0], replies[0]), count - 1, replies[1..]);
    } else if count > 0 {
      RingPhaseOrdered(s, count, replies);
    }
  }

  lemma {:induction false} StepOrdered(s: Rx, e: Event)
    requires Ordered(s)
    ensures Ordered(Step(s, e)) <==> StepCapped(s, e)
  {
    match e
    case Arrive(b) =>
    case StopAsking =>
    case Irq(count, replies) =>
      if s.rie && count <= |s.fifo| && count <= |replies| { InterruptOrdered(s, count, replies); }
    case Ask(n, reply) =>
      if n != 0 {
        CallIsSequence(s, n, reply);
        if s.busy { BusyRefuses(s, [n] + reply); } else { CallbackMeaning(s, [n] + reply); }
      }
  }

  /** A run keeps the order throughout if and only if its overrun callbacks are capped. */
  lemma {:induction false} OrderedIffCapped(s: Rx, events: seq<Event>)
    requires Ordered(s)
    ensures AlwaysOrdered(s, events) <==> RunCapped(s, events)
    decreases |events|
  {
    if events != [] {
      StepOrdered(s, events[0]);
      if Ordered(Step(s, events[0])) { OrderedIffCapped(Step(s, events[0]), events[1..]); }
    }
  }

  /** An overrun callback that asks for one byte too many lets a later byte overtake the one it stored. */
  lemma {:induction false} Overtaken(a: Byte, b: Byte, c: Byte)
    ensures var s := Interrupt(Rx(true, 1, [a], 0, 0, false, true, [b], [], 0), 1, [[2]]);
            var t := Interrupt(s.(fifo := [c]), 1, [[]]);
            s.pending == 1 && s.ring == [b] && t.delivered == [a, c] && t.ring == [b]
  {
    StoredBehind(a, b);
    ServedFirst(a, b, c);
  }

  /** The callback takes the one byte there is and leaves a request for another; then b is stored. */
  lemma {:induction false} StoredBehind(a: Byte, b: Byte)
    ensures Interrupt(Rx(true, 1, [a], 0, 0, false, true, [b], [], 0), 1, [[2]])
            == Rx(true, 1, [b], 1, 1, true, true, [], [a], 0)
  {
    var s0 := Rx(true, 1, [a], 0, 0, false, true, [], [], 0);
    assert [2][1..] == [];
    assert Callback(s0, [2]) == Receive(s0, 2);
    assert [a][..1] == [a] && [a][1..] == [];
    var s := RingByte(s0, b, [2]);
    assert s == Receive(s0, 2).(ring := [b]);
    assert [b][1..] == [] && [[2]][1..] == [];
    assert Interrupt(s0.(fifo := [b]), 1, [[2]]) == RingPhase(s, 0, []);
  }

  /** The next byte goes to the request. */
  lemma {:induction false} ServedFirst(a: Byte, b: Byte, c: Byte)
    ensures Interrupt(Rx(true, 1, [b], 1, 1, true, true, [c], [a], 0), 1, [[]])
            == Rx(true, 1, [b], 0, 1, false, true, [], [a, c], 1)
  {
    var s := Rx(true, 1, [b], 1, 1, true, true, [], [a], 0);
    var t := DirectByte(s, c, []);
    var none: seq<seq<nat>> := [[]];
    assert [c][1..] == [] && none[1..] == [];
    assert t == s.(delivered := [a, c], pending := 0, busy := false,
                 completed := s.completed + 1);
    assert Interrupt(s.(fifo := [c]), 1, none) == Interrupt(t, 0, []);
  }

  // ---------------------------------------------------------------- conservation

  /** Marking the n oldest bytes of ring and FIFO as delivered, or as dropped. */
  lemma {:induction false} TakeOldest(s: Rx, arrived: seq<Byte>, fate: seq<bool>, n: nat, kept: bool)
    requires Accounts(s, arrived, fate) && n <= |s.ring + s.fifo|
    ensures var fate' := fate + Marks(n, kept);
            && |fate'| <= |arrived| && arrived[|fate'|..] == (s.ring + s.fifo)[n..]
            && Kept(arrived[..|fate'|], fate') == s.delivered + (if kept then (s.ring + s.fifo)[..n] else [])
  {
    var fate' := fate + Marks(n, kept);
    var more := (s.ring + s.fifo)[..n];
    assert arrived[..|fate'|] == arrived[..|fate|] + more;
    KeptAppend(arrived[..|fate|], fate, more, kept);
  }

  lemma {:induction false} CallbackAccounts(s: Rx, arrived: seq<Byte>, fate: seq<bool>, reply: seq<nat>)
    requires Accounts(s, arrived, fate) && Ordered(s)
    ensures Accounts(Callback(s, reply), arrived, fate + CallbackMarks(s, reply))
  {
    if s.busy {
      BusyRefuses(s, reply);
      assert fate + [] == fate;
    } else {
      CallbackMeaning(s, reply);
      var k := Min(Asked(reply), |s.ring|);
      TakeOldest(s, arrived, fate, k, true);
      assert (s.ring + s.fifo)[k..] == s.ring[k..] + s.fifo && (s.ring + s.fifo)[..k] == s.ring[..k];
    }
  }

  /** Storing a byte drops the oldest one exactly if the ring is full. */
  lemma {:induction false} StoreAccounts(s: Rx, arrived: seq<Byte>, fate: seq<bool>)
    requires Accounts(s, arrived, fate) && |s.ring| <= s.capacity && s.fifo != []
    ensures Accounts(StoreByte(s.(fifo := s.fifo[1..]), s.fifo[0]), arrived,
                     fate + Marks(if |s.ring| == s.capacity then 1 else 0, false))
  {
    var all := s.ring + [s.fifo[0]];
    assert s.ring + s.fifo == all + s.fifo[1..];
    if |all| > s.capacity {
      TakeOldest(s, arrived, fate, 1, false);
      assert (all + s.fifo[1..])[1..] == all[1..] + s.fifo[1..];
    } else {
      assert fate + Marks(0, false) == fate;
    }
  }

  lemma {:induction false} RingByteAccounts(s: Rx, arrived: seq<Byte>, fate: seq<bool>, reply: seq<nat>)
    requires Accounts(s, arrived, fate) && Ordered(s) && s.fifo != []
    ensures Accounts(RingByte(s.(fifo := s.fifo[1..]), s.fifo[0], reply), arrived, fate + RingByteMarks(s, reply))
  {
    var taken := if |s.ring| == s.capacity then CallbackMarks(s, reply) else [];
    var s1 := MayTake(s, reply);
    CallbackKeepsFifo(s, reply);
    CallbackShrinksRing(s, reply);
    if |s.ring| == s.capacity {
      CallbackAccounts(s, arrived, fate, reply);
    } else {
      assert fate + [] == fate;
    }
    StoreAccounts(s1, arrived, fate + taken);
    assert MayTake(s.(fifo := s.fifo[1..]), reply) == s1.(fifo := s.fifo[1..]);
    assert fate + RingByteMarks(s, reply) == fate + taken + Marks(if Overrun(s, reply) then 1 else 0, false);
  }

  /** The first byte of the ring phase, and the rest. */
  lemma {:induction false} RingPhaseStep(s: Rx, count: nat, replies: seq<seq<nat>>) returns (t: Rx, rest: seq<seq<nat>>)
    requires 0 < count <= |s.fifo| && count <= |replies|
    ensures t == RingByte(s.(fifo := s.fifo[1..]), s.fifo[0], replies[0]) && t.fifo == s.fifo[1..]
              && rest == replies[1..]
    ensures RingPhase(s, count, replies) == RingPhase(t, count - 1, rest)
    ensures RingPhaseMarks(s, count, replies) == RingByteMarks(s, replies[0]) + RingPhaseMarks(t, count - 1, rest)
    ensures RingPhaseCapped(s, count, replies) <==> Capped(s, replies[0]) && RingPhaseCapped(t, count - 1, rest)
  {
    CallbackKeepsFifo(s.(fifo := s.fifo[1..]), replies[0]);
    t, rest := RingByte(s.(fifo := s.fifo[1..]), s.fifo[0], replies[0]), replies[1..];
    CappedIgnoresFifo(s, replies[0]);
  }

  lemma CappedIgnoresFifo(s: Rx, reply: seq<nat>)
    ensures forall f :: Capped(s.(fifo := f), reply) == Capped(s, reply)
  {}

  lemma {:induction false} RingByteKeeps(s: Rx, arrived: seq<Byte>, fate: seq<bool>, reply: seq<nat>, t: Rx,
                                         fate': seq<bool>)
    requires Accounts(s, arrived, fate) && Ordered(s) && (s.pending == 0 || s.capacity == 0) && s.fifo != []
    requires Capped(s, reply) && t == RingByte(s.(fifo := s.fifo[1..]), s.fifo[0], reply)
    requires fate' == fate + RingByteMarks(s, reply)
    ensures Accounts(t, arrived, fate') && Ordered(t) && (t.pending == 0 || t.capacity == 0)
  {
    RingByteAccounts(s, arrived, fate, reply);
    RingByteOrdered(s.(fifo := s.fifo[1..]), s.fifo[0], reply);
  }

  /** The books after that first byte. */
  lemma {:induction false} RingPhaseNext(s: Rx, arrived: seq<Byte>, fate: seq<bool>, count: nat,
                                         replies: seq<seq<nat>>)
    returns (t: Rx, rest: seq<seq<nat>>, fate1: seq<bool>)
    requires Accounts(s, arrived, fate) && Ordered(s) && (s.pending == 0 || s.capacity == 0)
    requires 0 < count <= |s.fifo| && count <= |replies| && RingPhaseCapped(s, count, replies)
    ensures Accounts(t, arrived, fate1) && Ordered(t) && (t.pending == 0 || t.capacity == 0)
    ensures count - 1 <= |t.fifo| && count - 1 <= |rest| && RingPhaseCapped(t, count - 1, rest)
    ensures RingPhase(s, count, replies) == RingPhase(t, count - 1, rest)
    ensures fate + RingPhaseMarks(s, count, replies) == fate1 + RingPhaseMarks(t, count - 1, rest)
  {
    t, rest := RingPhaseStep(s, count, replies);
    fate1 := fate + RingByteMarks(s, replies[0]);
    RingByteKeeps(s, arrived, fate, replies[0], t, fate1);
    Joined(fate, RingByteMarks(s, replies[0]), RingPhaseMarks(t, count - 1, rest));
  }

  lemma {:induction false} RingPhaseAccounts(s: Rx, arrived: seq<Byte>, fate: seq<bool>, count: nat,
                                             replies: seq<seq<nat>>, end: Rx, fate': seq<bool>)
    requires Accounts(s, arrived, fate) && Ordered(s) && (s.pending == 0 || s.capacity == 0)
    requires count <= |s.fifo| && count <= |replies| && RingPhaseCapped(s, count, replies)
    requires end == RingPhase(s, count, replies) && fate' == fate + RingPhaseMarks(s, count, replies)
    ensures Accounts(end, arrived, fate')
    decreases count
  {
    if count == 0 {
      assert fate' == fate;
    } else {
      var t, rest, fate1 := RingPhaseNext(s, arrived, fate, count, replies);
      RingPhaseAccounts(t, arrived, fate1, count - 1, rest, end, fate');
    }
  }

  lemma {:induction false} DirectByteAccounts(s: Rx, arrived: seq<Byte>, fate: seq<bool>, reply: seq<nat>)
    requires Accounts(s, arrived, fate) && Ordered(s) && s.fifo != [] && 0 < s.pending
    ensures Accounts(DirectByte(s.(fifo := s.fifo[1..]), s.fifo[0], reply), arrived, fate + [true])
  {
    DirectByteOrdered(s.(fifo := s.fifo[1..]), s.fifo[0], reply);
    TakeOldest(s, arrived, fate, 1, true);
    assert s.ring + s.fifo == s.fifo && [true] == Marks(1, true);
    assert s.fifo[..1] == [s.fifo[0]] && [] + s.fifo[1..] == s.fifo[1..];
  }

  lemma {:induction false} InterruptAccounts(s: Rx, arrived: seq<Byte>, fate: seq<bool>, count: nat,
                                             replies: seq<seq<nat>>)
    requires Accounts(s, arrived, fate) && Ordered(s) && count <= |s.fifo| && count <= |replies|
    requires InterruptCapped(s, count, replies)
    ensures Accounts(Interrupt(s, count, replies), arrived, fate + InterruptMarks(s, count, replies))
    decreases count
  {
    if count > 0 && s.pending > 0 {
      var t := DirectByte(s.(fifo := s.fifo[1..]), s.fifo[0], replies[0]);
      DirectByteAccounts(s, arrived, fate, replies[0]);
      DirectByteOrdered(s.(fifo := s.fifo[1..]), s.fifo[0], replies[0]);
      InterruptAccounts(t, arrived, fate + [true], count - 1, replies[1..]);
      Joined(fate, [true], InterruptMarks(t, count - 1, replies[1..]));
    } else if count > 0 {
      RingPhaseAccounts(s, arrived, fate, count, replies, RingPhase(s, count, replies),
                        fate + RingPhaseMarks(s, count, replies));
    } else {
      assert fate + [] == fate;
    }
  }

  lemma {:induction false} StepAccounts(s: Rx, arrived: seq<Byte>, fate: seq<bool>, e: Event)
    requires Accounts(s, arrived, fate) && Ordered(s) && StepCapped(s, e)
    ensures Accounts(Step(s, e), arrived + Arrival(e), fate + StepMarks(s, e)) && Ordered(Step(s, e))
  {
    StepOrdered(s, e);
    assert fate + [] == fate && arrived + [] == arrived;
    match e
    case Arrive(b) =>
      var arrived' := arrived + [b];
      assert arrived'[|fate|..] == s.ring + (s.fifo + [b]) && arrived'[..|fate|] == arrived[..|fate|];
    case StopAsking =>
    case Irq(count, replies) =>
      if s.rie && count <= |s.fifo| && count <= |replies| { InterruptAccounts(s, arrived, fate, count, replies); }
    case Ask(n, reply) =>
      if n != 0 {
        CallIsSequence(s, n, reply);
        CallbackAccounts(s, arrived, fate, [n] + reply);
      }
  }

  lemma {:induction false} ArrivalsStep(arrived: seq<Byte>, events: seq<Event>)
    requires events != []
    ensures arrived + Arrivals(events) == (arrived + Arrival(events[0])) + Arrivals(events[1..])
  {}

  /**
   * Receive order and conservation, over every run with capped overrun callbacks: the books stay balanced
   * with exactly the marks of the run's steps, so a byte is lost only where an overrun drops it, and a
   * pending request implies an empty ring.
   */
  lemma {:induction false} ReceiveOrder(s: Rx, arrived: seq<Byte>, fate: seq<bool>, events: seq<Event>)
    requires Accounts(s, arrived, fate) && Ordered(s) && RunCapped(s, events)
    ensures Accounts(Run(s, events), arrived + Arrivals(events), fate + RunMarks(s, events)) && Ordered(Run(s, events))
    ensures Lost(fate + RunMarks(s, events)) == Lost(fate) + RunOverruns(s, events)
    decreases |events|
  {
    LossesAreOverruns(s, events);
    LostAppend(fate, RunMarks(s, events));
    RunAccounts(s, arrived, fate, events);
  }

  lemma {:induction false} RunAccounts(s: Rx, arrived: seq<Byte>, fate: seq<bool>, events: seq<Event>)
    requires Accounts(s, arrived, fate) && Ordered(s) && RunCapped(s, events)
    ensures Accounts(Run(s, events), arrived + Arrivals(events), fate + RunMarks(s, events)) && Ordered(Run(s, events))
    decreases |events|
  {
    if events == [] {
      assert arrived + [] == arrived && fate + [] == fate;
    } else {
      var marks := StepMarks(s, events[0]);
      StepAccounts(s, arrived, fate, events[0]);
      ArrivalsStep(arrived, events);
      RunAccounts(Step(s, events[0]), arrived + Arrival(events[0]), fate + marks, events[1..]);
      Joined(fate, marks, RunMarks(Step(s, events[0]), events[1..]));
    }
  }

  function FreshRing(capacity: nat, rie: bool): Rx {
    Rx(true, capacity, [], 0, 0, false, rie, [], [], 0)
  }

  /** The bytes that were delivered or still wait. */
  function Total(s: Rx): nat {
    |s.delivered| + |s.ring| + |s.fifo|
  }

  lemma {:induction false} CallbackTotal(s: Rx, reply: seq<nat>)
    requires s.ringed
    ensures var t := Callback(s, reply); Total(t) == Total(s) && |t.ring| <= |s.ring|
    decreases |reply|
  {
    if reply != [] { CallbackTotal(if reply[0] == 0 then s else Receive(s, reply[0]), reply[1..]); }
  }

  lemma {:induction false} RingByteTotal(s: Rx, reply: seq<nat>)
    requires s.ringed && |s.ring| <= s.capacity && s.fifo != []
    ensures var t := RingByte(s.(fifo := s.fifo[1..]), s.fifo[0], reply);
            && t.ringed && t.capacity == s.capacity && |t.ring| <= t.capacity && t.fifo == s.fifo[1..]
            && Total(t) + (if Overrun(s, reply) then 1 else 0) == Total(s)
  {
    var s0 := s.(fifo := s.fifo[1..]);
    CallbackKeepsFifo(s, reply);
    CallbackTotal(s, reply);
    assert MayTake(s0, reply) == MayTake(s, reply).(fifo := s.fifo[1..]);
    StoreMeaning(MayTake(s0, reply), s.fifo[0]);
  }

  lemma {:induction false} RingPhaseTotal(s: Rx, count: nat, replies: seq<seq<nat>>)
    requires s.ringed && |s.ring| <= s.capacity && count <= |s.fifo| && count <= |replies|
    ensures var t := RingPhase(s, count, replies);
            && t.ringed && |t.ring| <= t.capacity && Total(t) + RingPhaseOverruns(s, count, replies) == Total(s)
    decreases count
  {
    if count > 0 {
      RingByteTotal(s, replies[0]);
      RingPhaseTotal(RingByte(s.(fifo := s.fifo[1..]), s.fifo[0], replies[0]), count - 1, replies[1..]);
    }
  }

  lemma {:induction false} InterruptTotal(s: Rx, count: nat, replies: seq<seq<nat>>)
    requires s.ringed && |s.ring| <= s.capacity && count <= |s.fifo| && count <= |replies|
    ensures var t := Interrupt(s, count, replies);
            && t.ringed && |t.ring| <= t.capacity && Total(t) + InterruptOverruns(s, count, replies) == Total(s)
    decreases count
  {
    if count > 0 && s.pending > 0 {
      DirectKeepsFifo(s, replies[0]);
      DirectTotal(s, replies[0]);
      InterruptTotal(DirectByte(s.(fifo := s.fifo[1..]), s.fifo[0], replies[0]), count - 1, replies[1..]);
    } else {
      RingPhaseTotal(s, count, replies);
    }
  }

  lemma {:induction false} DirectTotal(s: Rx, reply: seq<nat>)
    requires s.ringed && |s.ring| <= s.capacity && s.fifo != [] && 0 < s.pending
    ensures var t := DirectByte(s.(fifo := s.fifo[1..]), s.fifo[0], reply);
            t.ringed && |t.ring| <= t.capacity && Total(t) == Total(s)
  {
    var s1 := s.(fifo := s.fifo[1..], delivered := s.delivered + [s.fifo[0]], pending := 0, busy := false,
                 completed := s.completed + 1);
    CallbackTotal(s1, reply);
    CallbackKeepsFifo(s1, reply);
  }

  /** Over every run, whatever the callbacks ask, bytes are lost only to overruns, one each. */
  lemma {:induction false} RunTotal(s: Rx, events: seq<Event>)
    requires s.ringed && |s.ring| <= s.capacity
    ensures Total(Run(s, events)) + RunOverruns(s, events) == Total(s) + |Arrivals(events)|
    decreases |events|
  {
    if events != [] {
      StepTotal(s, events[0]);
      RunTotal(Step(s, events[0]), events[1..]);
    }
  }

  lemma {:induction false} StepTotal(s: Rx, e: Event)
    requires s.ringed && |s.ring| <= s.capacity
    ensures var t, irq := Step(s, e), e.Irq? && s.rie && e.count <= |s.fifo| && e.count <= |e.replies|;
            && t.ringed && |t.ring| <= t.capacity
            && Total(t) + (if irq then InterruptOverruns(s, e.count, e.replies) else 0) == Total(s) + |Arrival(e)|
  {
    match e
    case Arrive(b) =>
    case StopAsking =>
    case Irq(count, replies) =>
      if s.rie && count <= |s.fifo| && count <= |replies| { InterruptTotal(s, count, replies); }
    case Ask(n, reply) =>
      if n != 0 {
        CallIsSequence(s, n, reply);
        CallbackTotal(s, [n] + reply);
        CallbackKeepsFifo(s, [n] + reply);
      }
  }

  lemma {:induction false} NothingLost(s: Rx, arrived: seq<Byte>, fate: seq<bool>)
    requires Accounts(s, arrived, fate) && Lost(fate) == 0
    ensures s.delivered + s.ring + s.fifo == arrived
  {
    KeptLength(arrived[..|fate|], fate);
    assert arrived == arrived[..|fate|] + (s.ring + s.fifo);
  }

  /**
   * From a fresh ring, in every run: each byte that arrived was delivered, waits, or was dropped by one
   * overrun.  With capped callbacks and no overrun the delivered bytes, the ring and the FIFO are the
   * arrived stream itself.
   */
  lemma {:induction false} ReceiveConserves(capacity: nat, rie: bool, events: seq<Event>)
    ensures var s0, arrived := FreshRing(capacity, rie), Arrivals(events);
            var s, lost := Run(s0, events), RunOverruns(s0, events);
            && |s.delivered| + |s.ring| + |s.fifo| + lost == |arrived|
            && (RunCapped(s0, events) && lost == 0 ==> s.delivered + s.ring + s.fifo == arrived)
  {
    var s0, arrived := FreshRing(capacity, rie), Arrivals(events);
    RunTotal(s0, events);
    if RunCapped(s0, events) && RunOverruns(s0, events) == 0 {
      ReceiveOrder(s0, [], [], events);
      var none: seq<bool> := [];
      var nothing: seq<Byte> := [];
      assert nothing + arrived == arrived && none + RunMarks(s0, events) == RunMarks(s0, events);
      NothingLost(Run(s0, events), arrived, RunMarks(s0, events));
    }
  }

  /** A byte is lost exactly when the ring is still full after the callback, and then exactly one. */
  lemma {:induction false} OneByteLoss(s: Rx, b: Byte, reply: seq<nat>)
    requires Ordered(s)
    ensures var t := RingByte(s, b, reply);
            |t.delivered| + |t.ring| == |s.delivered| + |s.ring| + (if Overrun(s, reply) then 0 else 1)
  {
    MayTakeMeaning(s, reply);
    StoreMeaning(MayTake(s, reply), b);
  }
}
