/**
 * Reception without a ring buffer, the state in which a handle is created: a request takes its bytes
 * straight from the FIFO, over as many interrupts as it takes.
 */
module UartDirectRuns {
  import opened UartReceive
  import opened UartReceiveRuns

  /** Bytes arrive and interrupts read them; callbacks ask for nothing. */
  predicate Quiet(e: Event) {
    match e
    case Arrive(b) => true
    case Irq(count, replies) => forall i :: 0 <= i < |replies| ==> Asked(replies[i]) == 0
    case _ => false
  }

  predicate AllQuiet(events: seq<Event>) {
    forall i :: 0 <= i < |events| ==> Quiet(events[i])
  }

  /**
   * Where a request for n bytes, made in state s, stands in state t: the first k bytes of the stream are the
   * user's, the others wait in the FIFO, and n - k are pending.  Until k is n the driver is busy; then it is
   * idle, with RIE off, and has called RxIdle once.
   */
  ghost predicate Serving(s: Rx, n: nat, stream: seq<Byte>, t: Rx, k: nat) {
    && !t.ringed && k <= n && k <= |stream|
    && t.delivered == s.delivered + stream[..k] && t.fifo == stream[k..]
    && t.pending == n - k && t.asked == n
    && (t.busy <==> k < n) && (t.rie <==> k < n)
    && t.completed == s.completed + (if k == n then 1 else 0)
  }

  lemma {:induction false} SilentCallback(s: Rx, reply: seq<nat>)
    requires Asked(reply) == 0
    ensures Callback(s, reply) == s
    decreases |reply|
  {
    if reply != [] { SilentCallback(s, reply[1..]); }
  }

  lemma {:induction false} TakeMore(delivered: seq<Byte>, stream: seq<Byte>, k: nat, j: nat)
    requires k + j <= |stream|
    ensures (delivered + stream[..k]) + stream[k..][..j] == delivered + stream[..k + j]
    ensures stream[k..][j..] == stream[k + j..]
  {}

  lemma {:induction false} StreamGrows(delivered: seq<Byte>, stream: seq<Byte>, k: nat, b: Byte)
    requires k <= |stream|
    ensures (stream + [b])[..k] == stream[..k] && (stream + [b])[k..] == stream[k..] + [b]
  {}

  /** An interrupt gives the request the bytes it reads, up to the last one pending. */
  lemma {:induction false} InterruptServes(s: Rx, n: nat, stream: seq<Byte>, t: Rx, k: nat, count: nat,
                                           replies: seq<seq<nat>>)
    requires Serving(s, n, stream, t, k) && k < n && Quiet(Irq(count, replies))
    requires count <= |t.fifo| && count <= |replies|
    ensures Serving(s, n, stream, Interrupt(t, count, replies), k + Min(count, n - k))
  {
    if count < n - k {
      InterruptShort(t, count, replies);
      TakeMore(s.delivered, stream, k, count);
    } else {
      var m := n - k;
      var t' := InterruptDirect(t, count, replies, m);
      SilentCallback(Completed(t, m), replies[m - 1]);
      assert t' == Completed(t, m);
      TakeMore(s.delivered, stream, k, m);
      assert Interrupt(t', count - m, replies[m..]) == t'.(rie := false);
    }
  }

  /** Each event leaves the request where it was, or brings it on by what the interrupt reads. */
  lemma {:induction false} StepServes(s: Rx, n: nat, stream: seq<Byte>, t: Rx, k: nat, e: Event) returns (k': nat)
    requires Serving(s, n, stream, t, k) && Quiet(e)
    ensures k' == if e.Irq? && e.count <= |t.fifo| && e.count <= |e.replies| then k + Min(e.count, n - k) else k
    ensures Serving(s, n, stream + Arrival(e), Step(t, e), k')
  {
    k' := k;
    assert stream + [] == stream;
    match e
    case Arrive(b) => StreamGrows(s.delivered, stream, k, b);
    case Irq(count, replies) =>
      if count <= |t.fifo| && count <= |replies| {
        k' := k + Min(count, n - k);
        if k < n { InterruptServes(s, n, stream, t, k, count, replies); }
      }
    case _ =>
  }

  lemma {:induction false} RunServes(s: Rx, n: nat, stream: seq<Byte>, t: Rx, k: nat, events: seq<Event>)
    returns (k': nat)
    requires Serving(s, n, stream, t, k) && AllQuiet(events)
    ensures k <= k' && Serving(s, n, stream + Arrivals(events), Run(t, events), k')
    decreases |events|
  {
    k' := k;
    if events == [] {
      assert stream + [] == stream;
    } else {
      var k1 := StepServes(s, n, stream, t, k, events[0]);
      ArrivalsStep(stream, events);
      k' := RunServes(s, n, stream + Arrival(events[0]), Step(t, events[0]), k1, events[1..]);
    }
  }

  /**
   * A request for n bytes on an idle driver takes the next n bytes of the stream, in order, over every run
   * of arrivals and interrupts; what GetReceiveCount says, asked - pending, is what it has so far.
   */
  lemma {:induction false} DirectRequest(s: Rx, n: nat, reply: seq<nat>, events: seq<Event>) returns (k: nat)
    requires !s.ringed && !s.busy && s.pending == 0 && 0 < n && AllQuiet(events)
    ensures var t, stream := Run(s, [Ask(n, reply)] + events), s.fifo + Arrivals(events);
            && k <= n && k <= |stream|
            && t.delivered == s.delivered + stream[..k] && t.fifo == stream[k..]
            && t.pending == n - k && t.asked - t.pending == k
            && (t.busy <==> k < n) && (t.rie <==> k < n)
            && t.completed == s.completed + (if k == n then 1 else 0)
  {
    var t := Step(s, Ask(n, reply));
    assert s.fifo[..0] == [] && s.fifo[0..] == s.fifo && s.delivered + [] == s.delivered;
    assert Serving(s, n, s.fifo, t, 0);
    assert ([Ask(n, reply)] + events)[1..] == events;
    k := RunServes(s, n, s.fifo, t, 0, events);
  }

  /** One interrupt that reads at least the bytes still pending completes the request. */
  lemma {:induction false} DirectCompletes(s: Rx, n: nat, stream: seq<Byte>, t: Rx, k: nat, replies: seq<seq<nat>>)
    requires Serving(s, n, stream, t, k) && n <= |stream| && Quiet(Irq(|t.fifo|, replies)) && |t.fifo| <= |replies|
    ensures Serving(s, n, stream, Step(t, Irq(|t.fifo|, replies)), n)
  {
    var k' := StepServes(s, n, stream, t, k, Irq(|t.fifo|, replies));
    assert stream + [] == stream;
  }

  // ---------------------------------------------------------------- any run at all

  /** What every event keeps without a ring buffer. */
  ghost predicate Sound(s: Rx) {
    && !s.ringed && s.ring == [] && (s.busy <==> 0 < s.pending) && (s.busy ==> s.pending <= s.asked && s.rie)
  }

  lemma {:induction false} CallbackSound(s: Rx, reply: seq<nat>)
    requires Sound(s)
    ensures var t := Callback(s, reply); Sound(t) && t.fifo == s.fifo && t.delivered == s.delivered
    decreases |reply|
  {
    if reply != [] { CallbackSound(if reply[0] == 0 then s else Receive(s, reply[0]), reply[1..]); }
  }

  lemma {:induction false} InterruptSound(s: Rx, count: nat, replies: seq<seq<nat>>)
    requires Sound(s) && count <= |s.fifo| && count <= |replies|
    ensures var t := Interrupt(s, count, replies); Sound(t) && t.delivered + t.fifo == s.delivered + s.fifo
    decreases count
  {
    if count > 0 && s.pending > 0 {
      var b, s0 := s.fifo[0], s.(fifo := s.fifo[1..]);
      var s1 := s0.(delivered := s.delivered + [b], pending := s.pending - 1);
      if s1.pending == 0 { CallbackSound(s1.(busy := false, completed := s.completed + 1), replies[0]); }
      assert (s.delivered + [b]) + s.fifo[1..] == s.delivered + s.fifo;
      InterruptSound(DirectByte(s0, b, replies[0]), count - 1, replies[1..]);
    }
  }

  lemma {:induction false} StepSound(s: Rx, e: Event)
    requires Sound(s)
    ensures var t := Step(s, e); Sound(t) && t.delivered + t.fifo == (s.delivered + s.fifo) + Arrival(e)
  {
    assert (s.delivered + s.fifo) + [] == s.delivered + s.fifo;
    match e
    case Arrive(b) => assert s.delivered + (s.fifo + [b]) == (s.delivered + s.fifo) + [b];
    case StopAsking =>
    case Irq(count, replies) =>
      if s.rie && count <= |s.fifo| && count <= |replies| { InterruptSound(s, count, replies); }
    case Ask(n, reply) =>
      if n != 0 {
        CallIsSequence(s, n, reply);
        CallbackSound(s, [n] + reply);
      }
  }

  /**
   * Without a ring buffer nothing is ever lost or reordered, whatever is asked, aborted or asked by
   * callbacks: delivered bytes and FIFO are the arrived stream, and a pending request has RIE on.
   */
  lemma {:induction false} DirectConserves(s: Rx, events: seq<Event>)
    requires Sound(s)
    ensures var t := Run(s, events);
            && t.delivered + t.fifo == (s.delivered + s.fifo) + Arrivals(events)
            && (t.busy <==> 0 < t.pending) && (t.busy ==> t.rie && t.pending <= t.asked)
    ensures Sound(Run(s, events))
    decreases |events|
  {
    if events == [] {
      assert (s.delivered + s.fifo) + [] == s.delivered + s.fifo;
    } else {
      StepSound(s, events[0]);
      ArrivalsStep(s.delivered + s.fifo, events);
      DirectConserves(Step(s, events[0]), events[1..]);
    }
  }
}
