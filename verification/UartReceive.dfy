/**
 * Interrupt-driven UART reception: the receive interrupt moves bytes from the hardware FIFO to a
 * pending user request or else to a drop-oldest ring; the user thread drains the ring first and leaves
 * the rest of a request pending.
 *
 * The bytes written through the user's data pointers are kept as one log, `delivered`.
 */
module UartReceive {
  import opened CircularArray

  type Byte = bv8

  /**
   * `capacity` is one less than the ring buffer's size; without a ring buffer `ringed` is false.  Of the
   * `asked` bytes that the last request left to the interrupt, `pending` are still to come; `completed`
   * counts the RxIdle callbacks that the interrupt has made.
   */
  datatype Rx = Rx(ringed: bool, capacity: nat, ring: seq<Byte>, pending: nat, asked: nat, busy: bool, rie: bool,
                   fifo: seq<Byte>, delivered: seq<Byte>, completed: nat)

  function Min(a: nat, b: nat): nat { if a < b then a else b }

  // ---------------------------------------------------------------- what the calls compute

  /** UART_TransferReceiveNonBlocking for `n` bytes. */
  function Receive(s: Rx, n: nat): Rx {
    if s.busy then s
    else if s.ringed then
      var k := Min(n, |s.ring|);
      s.(delivered := s.delivered + s.ring[..k], ring := s.ring[k..], rie := true,
         pending := if k < n then n - k else s.pending, asked := if k < n then n - k else s.asked, busy := k < n)
    else s.(pending := n, asked := n, busy := true, rie := true)
  }

  /** UART_TransferAbortReceive. */
  function Abort(s: Rx): Rx {
    s.(pending := 0, busy := false, rie := if s.ringed then s.rie else false)
  }

  /** The call asks for `n` bytes and the ring holds them all, so the RxIdle callback runs before it returns. */
  predicate Satisfied(s: Rx, n: nat) {
    !s.busy && s.ringed && n <= |s.ring|
  }

  /**
   * The requests a callback makes, one after the other; those made while one is pending are refused.  A
   * request that the ring satisfies calls back in turn, and the rest of `reply` is what that callback asks.
   */
  function Callback(s: Rx, reply: seq<nat>): Rx
    decreases |reply|
  {
    if reply == [] then s
    else Callback(if reply[0] == 0 then s else Receive(s, reply[0]), reply[1..])
  }

  /** The whole call, with what its own RxIdle callback asks for. */
  function ReceiveCall(s: Rx, n: nat, reply: seq<nat>): Rx {
    if Satisfied(s, n) then Callback(Receive(s, n), reply) else Receive(s, n)
  }

  /** Keep the newest `capacity` bytes. */
  function StoreByte(s: Rx, b: Byte): Rx {
    var all := s.ring + [b];
    s.(ring := if |all| > s.capacity then all[1..] else all)
  }

  /** A byte for the pending request; the one that completes it calls back. */
  function DirectByte(s: Rx, b: Byte, reply: seq<nat>): Rx
    requires 0 < s.pending
  {
    var s1 := s.(delivered := s.delivered + [b], pending := s.pending - 1);
    if s1.pending == 0 then Callback(s1.(busy := false, completed := s.completed + 1), reply) else s1
  }

  /** A full ring calls back before the next byte is stored. */
  function MayTake(s: Rx, reply: seq<nat>): Rx {
    if |s.ring| == s.capacity then Callback(s, reply) else s
  }

  /** A byte for the ring: if it is still full after the callback, the oldest byte goes. */
  function RingByte(s: Rx, b: Byte, reply: seq<nat>): Rx {
    StoreByte(MayTake(s, reply), b)
  }

  /** The second loop of the receive interrupt: everything goes to the ring, even if a callback makes a request. */
  function RingPhase(s: Rx, count: nat, replies: seq<seq<nat>>): Rx
    requires count <= |s.fifo| && count <= |replies|
    decreases count
  {
    if count == 0 then s
    else
      CallbackKeepsFifo(s.(fifo := s.fifo[1..]), replies[0]);
      RingPhase(RingByte(s.(fifo := s.fifo[1..]), s.fifo[0], replies[0]), count - 1, replies[1..])
  }

  /**
   * The receive branch of UART_TransferHandleIRQ for `count` bytes of the FIFO: the first loop serves
   * requests while one is pending, the second fills the ring.  replies[i] answers the i-th byte's callback.
   */
  function Interrupt(s: Rx, count: nat, replies: seq<seq<nat>>): Rx
    requires count <= |s.fifo| && count <= |replies|
    decreases count
  {
    if count > 0 && s.pending > 0 then
      var s1 := s.(fifo := s.fifo[1..], delivered := s.delivered + [s.fifo[0]], pending := 0, busy := false,
                   completed := s.completed + 1);
      CallbackKeepsFifo(s1, replies[0]);
      Interrupt(DirectByte(s.(fifo := s.fifo[1..]), s.fifo[0], replies[0]), count - 1, replies[1..])
    else if s.ringed then RingPhase(s, count, replies)
    else if s.pending == 0 then s.(rie := false)
    else s
  }

  /** Callbacks leave the FIFO, the mode and the capacity alone, and act the same whatever the FIFO holds. */
  lemma {:induction false} CallbackKeepsFifo(s: Rx, reply: seq<nat>)
    ensures var t := Callback(s, reply); t.fifo == s.fifo && t.ringed == s.ringed && t.capacity == s.capacity
    ensures forall f :: Callback(s.(fifo := f), reply) == Callback(s, reply).(fifo := f)
    decreases |reply|
  {
    if reply != [] {
      var s1 := if reply[0] == 0 then s else Receive(s, reply[0]);
      CallbackKeepsFifo(s1, reply[1..]);
      forall f ensures Callback(s.(fifo := f), reply) == Callback(s, reply).(fifo := f) {
        assert (if reply[0] == 0 then s.(fifo := f) else Receive(s.(fifo := f), reply[0])) == s1.(fifo := f);
      }
    }
  }

  lemma {:induction false} BusyRefuses(s: Rx, reply: seq<nat>)
    requires s.busy
    ensures Callback(s, reply) == s
    decreases |reply|
  {
    if reply != [] { BusyRefuses(s, reply[1..]); }
  }

  /** A call with its nested callbacks is the sequence of its requests. */
  lemma {:induction false} CallIsSequence(s: Rx, n: nat, reply: seq<nat>)
    requires 0 < n
    ensures ReceiveCall(s, n, reply) == Callback(s, [n] + reply)
  {
    assert ([n] + reply)[1..] == reply;
    if !Satisfied(s, n) { BusyRefuses(Receive(s, n), reply); }
  }

  // ---------------------------------------------------------------- the driver

  /** The bytes of a ring buffer between tail and head. */
  function Contents(buffer: seq<Byte>, tail: nat, length: nat): (c: seq<Byte>)
    requires tail < |buffer| && length <= |buffer|
    ensures |c| == length
  {
    seq(length, j requires 0 <= j < length => buffer[At(tail, j, |buffer|)])
  }

  function RingLength(size: nat, head: nat, tail: nat): (n: nat)
    requires head < size && tail < size
    ensures n < size && head == At(tail, n, size)
  {
    if tail > head then head + size - tail else head - tail
  }

  lemma PopFront(buffer: seq<Byte>, tail: nat, length: nat)
    requires tail < |buffer| && 0 < length <= |buffer|
    ensures Contents(buffer, Next(tail, |buffer|), length - 1) == Contents(buffer, tail, length)[1..]
    ensures Contents(buffer, tail, length)[0] == buffer[tail]
  {
    forall j | 0 <= j < length - 1
      ensures At(Next(tail, |buffer|), j, |buffer|) == At(tail, j + 1, |buffer|)
    {}
  }

  lemma PushBack(buffer: seq<Byte>, tail: nat, length: nat, b: Byte)
    requires tail < |buffer| && length < |buffer|
    ensures Contents(buffer[At(tail, length, |buffer|) := b], tail, length + 1) == Contents(buffer, tail, length) + [b]
  {}

  lemma {:induction false} NextByte(ring: seq<Byte>, delivered: seq<Byte>, i: nat)
    requires i < |ring|
    ensures ring[i..] != [] && ring[i..][1..] == ring[i + 1..]
    ensures (delivered + ring[..i]) + [ring[i..][0]] == delivered + ring[..i + 1]
  {}

  datatype Status = Success | RxBusy

  class UartHandle {
    var ringBuffer: array?<Byte>
    var head: nat
    var tail: nat
    var rxDataSize: nat
    var rxDataSizeAll: nat
    var rxBusy: bool
    var rie: bool
    var fifo: seq<Byte>
    var delivered: seq<Byte>
    var completed: nat

    ghost predicate Valid()
      reads this
    {
      && (ringBuffer != null ==> head < ringBuffer.Length && tail < ringBuffer.Length)
      && (rxBusy <==> 0 < rxDataSize)
      && (rxBusy ==> rxDataSize <= rxDataSizeAll)
    }

    ghost function View(): (s: Rx)
      requires Valid()
      reads this, ringBuffer
      ensures |s.ring| <= s.capacity
    {
      if ringBuffer == null then Rx(false, 0, [], rxDataSize, rxDataSizeAll, rxBusy, rie, fifo, delivered, completed)
      else
        var n := ringBuffer.Length;
        Rx(true, n - 1, Contents(ringBuffer[..], tail, RingLength(n, head, tail)),
           rxDataSize, rxDataSizeAll, rxBusy, rie, fifo, delivered, completed)
    }

    /** UART_TransferCreateHandle: an idle handle without a ring buffer. */
    constructor ()
      ensures Valid() && View() == Rx(false, 0, [], 0, 0, false, false, [], [], 0)
    {
      ringBuffer := null;
      head, tail, rxDataSize, rxDataSizeAll := 0, 0, 0, 0;
      rxBusy, rie := false, false;
      fifo, delivered, completed := [], [], 0;
    }

    /** UART_TransferStartRingBuffer: an empty ring that keeps one byte of the buffer free. */
    method StartRingBuffer(buffer: array<Byte>)
      requires Valid() && 0 < buffer.Length
      modifies this
      ensures Valid() && ringBuffer == buffer
      ensures View() == old(View()).(ringed := true, capacity := buffer.Length - 1, ring := [], rie := true)
    {
      ringBuffer := buffer;
      head := 0;
      tail := 0;
      rie := true;
    }

    /** UART_TransferGetRxRingBufferLength. */
    method GetRxRingBufferLength() returns (size: nat)
      requires Valid() && ringBuffer != null
      ensures size == |View().ring| == RingLength(ringBuffer.Length, head, tail)
    {
      if tail > head {
        size := head + ringBuffer.Length - tail;
      } else {
        size := head - tail;
      }
    }

    /** UART_TransferIsRxRingBufferFull: one slot of the buffer always stays unused. */
    method IsRxRingBufferFull() returns (full: bool)
      requires Valid() && ringBuffer != null
      ensures full <==> |View().ring| == View().capacity
    {
      var n := GetRxRingBufferLength();
      full := n == ringBuffer.Length - 1;
    }

    /** The wrap-around step of the tail index; a buffer of one byte never holds anything. */
    method AdvanceTail()
      requires Valid() && ringBuffer != null && (View().ring == [] ==> View().capacity == 0)
      modifies this`tail
      ensures Valid()
      ensures View() == old(View()).(ring := if old(View()).ring == [] then [] else old(View()).ring[1..])
    {
      if head != tail {
        PopFront(ringBuffer[..], tail, RingLength(ringBuffer.Length, head, tail));
      }
      if tail + 1 == ringBuffer.Length {
        tail := 0;
      } else {
        tail := tail + 1;
      }
    }

    /** One turn of the copy loop. */
    method CopyByte()
      requires Valid() && ringBuffer != null && View().ring != []
      modifies this`tail, this`delivered
      ensures Valid()
      ensures var s := old(View()); View() == s.(ring := s.ring[1..], delivered := s.delivered + [s.ring[0]])
    {
      assert View().ring[0] == ringBuffer[tail];
      delivered := delivered + [ringBuffer[tail]];
      AdvanceTail();
    }

    /** Copies the oldest `n` bytes of the ring to the user and removes them. */
    method CopyFromRing(n: nat)
      requires Valid() && ringBuffer != null && n <= |View().ring|
      modifies this`tail, this`delivered
      ensures Valid()
      ensures var s := old(View()); View() == s.(ring := s.ring[n..], delivered := s.delivered + s.ring[..n])
    {
      ghost var s := View();
      var i := 0;
      while i < n
        invariant 0 <= i <= n && Valid()
        invariant View() == s.(ring := s.ring[i..], delivered := s.delivered + s.ring[..i])
      {
        NextByte(s.ring, s.delivered, i);
        CopyByte();
        i := i + 1;
      }
    }

    /** The transfer of a request from the ring, and the part left pending. */
    method StartRequest(dataSize: nat) returns (receivedBytes: nat, bytesToReceive: nat)
      requires Valid() && 0 < dataSize && !rxBusy
      modifies this
      ensures Valid() && ringBuffer == old(ringBuffer)
      ensures View() == Receive(old(View()), dataSize)
      ensures receivedBytes == Min(dataSize, |old(View()).ring|) && bytesToReceive == dataSize - receivedBytes
      ensures bytesToReceive != 0 ==> rxBusy && rxDataSize == rxDataSizeAll == bytesToReceive
    {
      bytesToReceive, receivedBytes := dataSize, 0;
      if ringBuffer != null {
        rie := false;
        var bytesToCopy := GetRxRingBufferLength();
        if bytesToCopy != 0 {
          bytesToCopy := Min(bytesToReceive, bytesToCopy);
          bytesToReceive := bytesToReceive - bytesToCopy;
          CopyFromRing(bytesToCopy);
          receivedBytes := bytesToCopy;
        }
        if bytesToReceive != 0 {
          rxDataSize := bytesToReceive;
          rxDataSizeAll := bytesToReceive;
          rxBusy := true;
        }
        rie := true;
      } else {
        rxDataSize := bytesToReceive;
        rxDataSizeAll := bytesToReceive;
        rxBusy := true;
        rie := true;
      }
    }

    /** UART_TransferReceiveNonBlocking; `reply` is what the RxIdle callback of this call asks for. */
    method ReceiveNonBlocking(dataSize: nat, reply: seq<nat>) returns (status: Status, receivedBytes: nat)
      requires Valid() && 0 < dataSize
      modifies this
      ensures Valid() && ringBuffer == old(ringBuffer)
      ensures View() == ReceiveCall(old(View()), dataSize, reply)
      ensures status == if old(rxBusy) then RxBusy else Success
      ensures receivedBytes == if old(rxBusy) then 0 else Min(dataSize, |old(View()).ring|)
      ensures old(rxBusy) ==> unchanged(this)
      ensures !old(rxBusy) && receivedBytes < dataSize ==>
                && rxBusy && rxDataSize == rxDataSizeAll == dataSize - receivedBytes
                && delivered == old(delivered) + old(View()).ring[..receivedBytes] && View().ring == []
                && rie && fifo == old(fifo) && completed == old(completed)
      decreases |reply|, 1
    {
      if rxBusy {
        return RxBusy, 0;
      }
      var bytesToReceive: nat;
      receivedBytes, bytesToReceive := StartRequest(dataSize);
      if ringBuffer != null && bytesToReceive == 0 {
        RunCallback(reply);
      }
      status := Success;
    }

    /** The application's callback: it may ask for more bytes. */
    method RunCallback(reply: seq<nat>)
      requires Valid()
      modifies this
      ensures Valid() && ringBuffer == old(ringBuffer)
      ensures View() == Callback(old(View()), reply)
      decreases |reply|, 0
    {
      if reply != [] {
        if reply[0] == 0 {
          RunCallback(reply[1..]);
        } else {
          assert [reply[0]] + reply[1..] == reply;
          CallIsSequence(View(), reply[0], reply[1..]);
          var status, n := ReceiveNonBlocking(reply[0], reply[1..]);
        }
      }
    }

    method AbortReceive()
      requires Valid()
      modifies this
      ensures Valid() && ringBuffer == old(ringBuffer)
      ensures View() == Abort(old(View()))
      ensures !rxBusy && rxDataSize == 0 && View().ring == old(View()).ring
      ensures rie == (old(rie) && ringBuffer != null)
      ensures delivered == old(delivered) && fifo == old(fifo) && completed == old(completed)
    {
      if ringBuffer == null {
        rie := false;
      }
      rxDataSize := 0;
      rxBusy := false;
    }

    /** UART_TransferGetReceiveCount: how much the interrupt has filled of what the request left to it. */
    method GetReceiveCount() returns (inProgress: bool, count: nat)
      requires Valid()
      ensures inProgress <==> rxBusy
      ensures inProgress ==> count + View().pending == View().asked
    {
      inProgress := rxBusy;
      count := if rxBusy then rxDataSizeAll - rxDataSize else 0;
    }

    /** Reads the data register into the ring at the head index. */
    method PushByte()
      requires Valid() && ringBuffer != null && fifo != []
      requires |View().ring| < View().capacity || View().capacity == 0
      modifies this`head, this`fifo, ringBuffer
      ensures Valid() && fifo == old(fifo)[1..]
      ensures View() == old(View()).(fifo := fifo,
                ring := if View().capacity == 0 then [] else old(View()).ring + [old(fifo)[0]])
    {
      if head + 1 != tail && !(tail == 0 && head + 1 == ringBuffer.Length) {
        PushBack(ringBuffer[..], tail, RingLength(ringBuffer.Length, head, tail), fifo[0]);
      }
      ringBuffer[head] := fifo[0];
      fifo := fifo[1..];
      if head + 1 == ringBuffer.Length {
        head := 0;
      } else {
        head := head + 1;
      }
    }

    /** A full ring is reported to the application; if it stays full, the oldest byte goes. */
    method MakeRoom(reply: seq<nat>)
      requires Valid() && ringBuffer != null
      modifies this
      ensures Valid() && ringBuffer == old(ringBuffer)
      ensures View() == Room(old(View()), reply)
    {
      var full := IsRxRingBufferFull();
      if full {
        RunCallback(reply);
      }
      full := IsRxRingBufferFull();
      if full {
        AdvanceTail();
      }
    }

    /** One byte stored in the ring by the interrupt. */
    method PutInRing(reply: seq<nat>)
      requires Valid() && ringBuffer != null && fifo != []
      modifies this, ringBuffer
      ensures Valid() && ringBuffer == old(ringBuffer)
      ensures View() == RingByte(old(View()).(fifo := old(fifo)[1..]), old(fifo)[0], reply)
    {
      RingByteIsRoom(View(), fifo[0], reply, fifo[1..]);
      MakeRoom(reply);
      PushByte();
    }

    /** UART_ReadNonBlocking into the pending request. */
    method ReadIntoRequest(count: nat)
      requires Valid() && count <= |fifo| && count <= rxDataSize && rxBusy
      modifies this`fifo, this`delivered, this`rxDataSize
      ensures fifo == old(fifo)[count..] && delivered == old(delivered) + old(fifo)[..count]
      ensures rxDataSize == old(rxDataSize) - count
    {
      for i := 0 to count
        invariant fifo == old(fifo)[i..] && delivered == old(delivered) + old(fifo)[..i]
        invariant rxDataSize == old(rxDataSize)
      {
        assert old(fifo)[..i + 1] == old(fifo)[..i] + [old(fifo)[i]];
        delivered := delivered + [fifo[0]];
        fifo := fifo[1..];
      }
      rxDataSize := rxDataSize - count;
    }

    /** One turn of the first loop of the receive interrupt. */
    method ServeChunk(count: nat, replies: seq<seq<nat>>) returns (tempCount: nat)
      requires Valid() && 0 < count <= |fifo| && count <= |replies| && 0 < rxDataSize
      modifies this
      ensures Valid() && ringBuffer == old(ringBuffer)
      ensures 0 < tempCount <= count && |fifo| == |old(fifo)| - tempCount
      ensures Interrupt(old(View()), count, replies) == Interrupt(View(), count - tempCount, replies[tempCount..])
    {
      ghost var s := View();
      tempCount := Min(rxDataSize, count);
      ghost var t := InterruptDirect(s, count, replies, tempCount);
      ReadIntoRequest(tempCount);
      if rxDataSize == 0 {
        rxBusy := false;
        completed := completed + 1;
        assert View() == Completed(s, tempCount);
        RunCallback(replies[tempCount - 1]);
      }
      assert View() == t;
    }

    /** First part of the receive interrupt: bytes go straight to the pending request, and to its successors. */
    method ServeRequests(rcfifo: nat, replies: seq<seq<nat>>) returns (count: nat, rest: seq<seq<nat>>)
      requires Valid() && rcfifo <= |fifo| && rcfifo <= |replies|
      modifies this
      ensures Valid() && ringBuffer == old(ringBuffer) && count <= |fifo| && count <= |rest|
      ensures count == 0 || rxDataSize == 0
      ensures Interrupt(old(View()), rcfifo, replies) == Interrupt(View(), count, rest)
    {
      count, rest := rcfifo, replies;
      while count != 0 && rxDataSize != 0
        invariant Valid() && ringBuffer == old(ringBuffer) && count <= |fifo| && count <= |rest|
        invariant Interrupt(old(View()), rcfifo, replies) == Interrupt(View(), count, rest)
        decreases count
      {
        var tempCount := ServeChunk(count, rest);
        count := count - tempCount;
        rest := rest[tempCount..];
      }
    }

    /** One turn of the second loop of the receive interrupt. */
    method PutNextInRing(count: nat, replies: seq<seq<nat>>) returns (left: nat, rest: seq<seq<nat>>)
      requires Valid() && ringBuffer != null && 0 < count <= |fifo| && count <= |replies|
      modifies this, ringBuffer
      ensures Valid() && ringBuffer == old(ringBuffer) && left == count - 1 && left <= |fifo| && left <= |rest|
      ensures RingPhase(old(View()), count, replies) == RingPhase(View(), left, rest)
    {
      left, rest := count - 1, replies[1..];
      CallbackKeepsFifo(View().(fifo := fifo[1..]), replies[0]);
      PutInRing(replies[0]);
    }

    /** Second part of the receive interrupt: what is left goes to the ring. */
    method FillRing(rcfifo: nat, replies: seq<seq<nat>>)
      requires Valid() && ringBuffer != null && rcfifo <= |fifo| && rcfifo <= |replies|
      modifies this, ringBuffer
      ensures Valid() && ringBuffer == old(ringBuffer)
      ensures View() == RingPhase(old(View()), rcfifo, replies)
    {
      var count: nat := rcfifo;
      var rest: seq<seq<nat>> := replies;
      ghost var target := RingPhase(View(), rcfifo, replies);
      while count != 0
        invariant Valid() && ringBuffer == old(ringBuffer) && count <= |fifo| && count <= |rest|
        invariant RingPhase(View(), count, rest) == target
        decreases count
      {
        count, rest := PutNextInRing(count, rest);
      }
    }

    /** The receive-data-register-full branch of UART_TransferHandleIRQ. */
    method HandleReceiveIRQ(rcfifo: nat, replies: seq<seq<nat>>)
      requires Valid() && rcfifo <= |fifo| && rcfifo <= |replies|
      modifies this, ringBuffer
      ensures Valid() && ringBuffer == old(ringBuffer)
      ensures View() == if old(rie) then Interrupt(old(View()), rcfifo, replies) else old(View())
      ensures old(rie) && rcfifo < old(rxDataSize) ==>
                && rxBusy && rxDataSize == old(rxDataSize) - rcfifo && rxDataSizeAll == old(rxDataSizeAll)
                && delivered == old(delivered) + old(fifo)[..rcfifo] && fifo == old(fifo)[rcfifo..]
                && View().ring == old(View()).ring && completed == old(completed)
      ensures old(rie) && 0 < old(rxDataSize) <= rcfifo ==>
                && old(delivered) + old(fifo)[..old(rxDataSize)] <= delivered
                && old(completed) < completed
    {
      if rcfifo < rxDataSize {
        InterruptShort(View(), rcfifo, replies);
      } else if 0 < rxDataSize {
        InterruptLong(View(), rcfifo, replies);
      }
      if !rie {
        return;
      }
      var count, rest := ServeRequests(rcfifo, replies);
      if ringBuffer != null {
        FillRing(count, rest);
      } else if rxDataSize == 0 {
        rie := false;
      }
    }
  }

  /** n bytes read straight into the pending request. */
  function Direct(s: Rx, n: nat): Rx
    requires n <= |s.fifo| && n <= s.pending
  {
    s.(fifo := s.fifo[n..], delivered := s.delivered + s.fifo[..n], pending := s.pending - n)
  }

  /** The same when they complete it. */
  function Completed(s: Rx, n: nat): Rx
    requires n <= |s.fifo| && n <= s.pending
  {
    Direct(s, n).(busy := false, completed := s.completed + 1)
  }

  lemma {:induction false} InterruptMore(s: Rx, count: nat, replies: seq<seq<nat>>, n: nat)
    requires count <= |s.fifo| && count <= |replies| && n <= count && n < s.pending
    ensures Interrupt(s, count, replies) == Interrupt(Direct(s, n), count - n, replies[n..])
    decreases n
  {
    if n == 0 {
      assert Direct(s, 0) == s && replies[0..] == replies;
    } else {
      InterruptMore(s, count, replies, n - 1);
      DirectStep(s, n);
      assert replies[n - 1..][1..] == replies[n..];
    }
  }

  /** An interrupt with fewer bytes than are pending gives them all to the request. */
  lemma {:induction false} InterruptShort(s: Rx, count: nat, replies: seq<seq<nat>>)
    requires count <= |s.fifo| && count <= |replies| && count < s.pending
    ensures Interrupt(s, count, replies) == Direct(s, count)
  {
    InterruptMore(s, count, replies, count);
  }

  /** One with as many completes it: it takes them all, then RxIdle is called. */
  lemma {:induction false} InterruptLong(s: Rx, count: nat, replies: seq<seq<nat>>)
    requires count <= |s.fifo| && count <= |replies| && 0 < s.pending <= count
    ensures s.delivered + s.fifo[..s.pending] <= Interrupt(s, count, replies).delivered
    ensures s.completed < Interrupt(s, count, replies).completed
  {
    var n := s.pending;
    var t := InterruptDirect(s, count, replies, n);
    CallbackExtends(Completed(s, n), replies[n - 1]);
    InterruptExtends(t, count - n, replies[n..]);
  }

  lemma {:induction false} CallbackExtends(s: Rx, reply: seq<nat>)
    ensures var t := Callback(s, reply); s.delivered <= t.delivered && s.completed == t.completed
    decreases |reply|
  {
    if reply != [] { CallbackExtends(if reply[0] == 0 then s else Receive(s, reply[0]), reply[1..]); }
  }

  lemma {:induction false} RingPhaseExtends(s: Rx, count: nat, replies: seq<seq<nat>>)
    requires count <= |s.fifo| && count <= |replies|
    ensures var t := RingPhase(s, count, replies); s.delivered <= t.delivered && s.completed == t.completed
    decreases count
  {
    if count > 0 {
      var s0 := s.(fifo := s.fifo[1..]);
      CallbackKeepsFifo(s0, replies[0]);
      CallbackExtends(s0, replies[0]);
      RingPhaseExtends(RingByte(s0, s.fifo[0], replies[0]), count - 1, replies[1..]);
    }
  }

  lemma {:induction false} InterruptExtends(s: Rx, count: nat, replies: seq<seq<nat>>)
    requires count <= |s.fifo| && count <= |replies|
    ensures var t := Interrupt(s, count, replies); s.delivered <= t.delivered && s.completed <= t.completed
    decreases count
  {
    if count > 0 && s.pending > 0 {
      var s0 := s.(fifo := s.fifo[1..]);
      var s1 := s0.(delivered := s.delivered + [s.fifo[0]], pending := 0, busy := false, completed := s.completed + 1);
      CallbackKeepsFifo(s1, replies[0]);
      CallbackExtends(s1, replies[0]);
      InterruptExtends(DirectByte(s0, s.fifo[0], replies[0]), count - 1, replies[1..]);
    } else if s.ringed {
      RingPhaseExtends(s, count, replies);
    }
  }

  lemma {:induction false} DirectStep(s: Rx, n: nat)
    requires 0 < n <= |s.fifo| && n <= s.pending
    ensures var t := Direct(s, n - 1);
            && t.fifo != [] && t.fifo[1..] == Direct(s, n).fifo
            && t.(fifo := t.fifo[1..], delivered := t.delivered + [t.fifo[0]], pending := t.pending - 1) == Direct(s, n)
  {
    assert s.fifo[..n - 1] + [s.fifo[n - 1]] == s.fifo[..n];
    assert s.fifo[n - 1..][1..] == s.fifo[n..];
  }

  /** The interrupt may serve a pending request in chunks: only the chunk's last byte can complete it. */
  lemma {:induction false} InterruptDirect(s: Rx, count: nat, replies: seq<seq<nat>>, n: nat) returns (t: Rx)
    requires count <= |s.fifo| && count <= |replies|
    requires 0 < n <= count && n <= s.pending
    ensures t == if s.pending == n then Callback(Completed(s, n), replies[n - 1]) else Direct(s, n)
    ensures t.fifo == s.fifo[n..]
    ensures Interrupt(s, count, replies) == Interrupt(t, count - n, replies[n..])
  {
    InterruptMore(s, count, replies, n - 1);
    DirectStep(s, n);
    assert replies[n - 1..][1..] == replies[n..] && replies[n - 1..][0] == replies[n - 1];
    CallbackKeepsFifo(Completed(s, n), replies[n - 1]);
    t := if s.pending == n then Callback(Completed(s, n), replies[n - 1]) else Direct(s, n);
  }

  /** The ring after making room for one more byte. */
  function Room(s: Rx, reply: seq<nat>): Rx {
    var s1 := MayTake(s, reply);
    if |s1.ring| == s1.capacity && s1.ring != [] then s1.(ring := s1.ring[1..]) else s1
  }

  /** A callback never makes the ring longer. */
  lemma {:induction false} CallbackShrinksRing(s: Rx, reply: seq<nat>)
    ensures |Callback(s, reply).ring| <= |s.ring|
    decreases |reply|
  {
    if reply != [] { CallbackShrinksRing(if reply[0] == 0 then s else Receive(s, reply[0]), reply[1..]); }
  }

  lemma {:induction false} RingByteIsRoom(s: Rx, b: Byte, reply: seq<nat>, f: seq<Byte>)
    requires s.ringed && |s.ring| <= s.capacity
    ensures var r := Room(s, reply);
            && r.fifo == s.fifo && r.capacity == s.capacity && (|r.ring| < r.capacity || r.capacity == 0)
            && RingByte(s.(fifo := f), b, reply) == r.(fifo := f, ring := if r.capacity == 0 then [] else r.ring + [b])
  {
    var s1 := MayTake(s, reply);
    CallbackKeepsFifo(s, reply);
    CallbackShrinksRing(s, reply);
    assert MayTake(s.(fifo := f), reply) == s1.(fifo := f);
    if s1.ring != [] {
      assert (s1.ring + [b])[1..] == s1.ring[1..] + [b];
    }
  }
}
