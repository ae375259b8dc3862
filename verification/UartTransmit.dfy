/**
 * Interrupt-driven UART transmission: each interrupt writes as many bytes of the current transfer as the
 * hardware FIFO has room for; when the last one is written the driver goes idle and calls back, and the
 * callback may start the next transfer.
 */
module UartTransmit {

  type Byte = bv8

  /** An accepted send, how many of its bytes have been written to the data register, and whether it was aborted. */
  datatype Transfer = Transfer(data: seq<Byte>, sent: nat, aborted: bool)

  /** `log` lists every accepted send; `written` is everything written to the data register D. */
  datatype Tx = Tx(remaining: seq<Byte>, all: nat, busy: bool, tie: bool, fifoCount: nat, fifoSize: nat,
                   written: seq<Byte>, idleCalls: nat, log: seq<Transfer>)

  // ---------------------------------------------------------------- what the calls compute

  function Send(s: Tx, data: seq<Byte>): Tx {
    if s.busy then s
    else s.(remaining := data, all := |data|, busy := true, tie := true, log := s.log + [Transfer(data, 0, false)])
  }

  /** Aborting marks the transfer in progress, if there is one. */
  function Abort(s: Tx): Tx {
    s.(remaining := [], busy := false, tie := false, log := if s.busy then Cancelled(s.log) else s.log)
  }

  function Cancelled(log: seq<Transfer>): seq<Transfer> {
    if log == [] then log else log[..|log| - 1] + [log[|log| - 1].(aborted := true)]
  }

  function Counted(log: seq<Transfer>, n: nat): seq<Transfer> {
    if log == [] then log else var t := log[|log| - 1]; log[..|log| - 1] + [t.(sent := t.sent + n)]
  }

  /** n bytes written to D. */
  function Write(s: Tx, n: nat): Tx
    requires n <= |s.remaining|
  {
    s.(remaining := s.remaining[n..], written := s.written + s.remaining[..n], fifoCount := s.fifoCount + n,
       log := Counted(s.log, n))
  }

  /** The callback may start a transfer; an empty reply stands for doing nothing. */
  function Callback(s: Tx, reply: seq<Byte>): Tx {
    if reply == [] then s else Send(s, reply)
  }

  function Complete(s: Tx, reply: seq<Byte>): Tx {
    Callback(s.(busy := false, tie := false, idleCalls := s.idleCalls + 1), reply)
  }

  /** How much one turn of the interrupt's loop writes. */
  function Chunk(s: Tx, count: nat): nat {
    if |s.remaining| < count then |s.remaining| else count
  }

  /** One turn: write a chunk; if that completes the transfer, call back. */
  function Turn(s: Tx, count: nat, reply: seq<Byte>): Tx {
    var s1 := Write(s, Chunk(s, count));
    if s1.remaining == [] then Complete(s1, reply) else s1
  }

  /** The answer to the next completion, and the answers after it. */
  function First(replies: seq<seq<Byte>>): seq<Byte> {
    if replies == [] then [] else replies[0]
  }

  function Others(replies: seq<seq<Byte>>): seq<seq<Byte>> {
    if replies == [] then [] else replies[1..]
  }

  /** The transmit branch of UART_TransferHandleIRQ with room for `count` bytes; replies answer its turns. */
  function Interrupt(s: Tx, count: nat, replies: seq<seq<Byte>>): Tx
    decreases count
  {
    if count == 0 || s.remaining == [] then s
    else
      Interrupt(Turn(s, count, First(replies)), count - Chunk(s, count), Others(replies))
  }

  // ---------------------------------------------------------------- what a run means

  /** The bytes the log says were written, transfer by transfer. */
  function Bytes(log: seq<Transfer>): seq<Byte> {
    if log == [] then []
    else
      var t := log[|log| - 1];
      Bytes(log[..|log| - 1]) + (if t.sent <= |t.data| then t.data[..t.sent] else t.data)
  }

  function Completed(log: seq<Transfer>): nat {
    if log == [] then 0
    else Completed(log[..|log| - 1]) + (if log[|log| - 1].sent == |log[|log| - 1].data| then 1 else 0)
  }

  /** A transfer that is over was sent completely, unless it was aborted before its last byte. */
  predicate Over(t: Transfer) {
    t.sent <= |t.data| && t.data != [] && (t.aborted <==> t.sent < |t.data|)
  }

  /** All transfers are over but the last of a busy driver, which is neither complete nor aborted. */
  ghost predicate Settled(log: seq<Transfer>, busy: bool) {
    && (busy ==> log != [])
    && (forall i :: 0 <= i < |log| && (!busy || i < |log| - 1) ==> Over(log[i]))
    && (busy ==> var t := log[|log| - 1]; t.sent < |t.data| && !t.aborted)
  }

  /**
   * D received exactly the sent parts of the accepted transfers, in order and once; transfers that are
   * over were sent completely or aborted; the current transfer is the last, its unsent part is what
   * remains; every completed transfer called back exactly once; the FIFO was never overfilled; and TIE is
   * on exactly while a transfer is in progress.
   */
  ghost predicate Inv(s: Tx) {
    && s.written == Bytes(s.log)
    && s.idleCalls == Completed(s.log)
    && s.fifoCount <= s.fifoSize
    && Settled(s.log, s.busy)
    && (s.busy <==> s.remaining != []) && (s.tie <==> s.busy)
    && (s.busy ==>
          var t := s.log[|s.log| - 1]; s.all == |t.data| && s.remaining == t.data[t.sent..])
  }

  lemma SendKeepsInv(s: Tx, data: seq<Byte>)
    requires Inv(s) && data != []
    ensures Inv(Send(s, data))
    ensures Send(s, data).log == if s.busy then s.log else s.log + [Transfer(data, 0, false)]
  {
    if !s.busy {
      var log := s.log + [Transfer(data, 0, false)];
      assert log[..|log| - 1] == s.log && data[..0] == [] && data[0..] == data;
      assert s.written + [] == s.written;
    }
  }

  lemma WriteMeaning(s: Tx, n: nat)
    requires Inv(s) && s.busy && 0 < n <= |s.remaining|
    ensures var s1 := Write(s, n);
            && s1.written == Bytes(s1.log)
            && |s1.log| == |s.log| > 0 && Settled(s1.log, n < |s.remaining|)
            && (var t := s1.log[|s1.log| - 1]; s1.all == |t.data| && s1.remaining == t.data[t.sent..])
            && Completed(s1.log) == s.idleCalls + (if n == |s.remaining| then 1 else 0)
  {
    var k := |s.log| - 1;
    var t, s1 := s.log[k], Write(s, n);
    var front := s.log[..k];
    assert s1.log[..k] == front && s1.log[k] == t.(sent := t.sent + n);
    assert t.data[..t.sent + n] == t.data[..t.sent] + s.remaining[..n];
    assert Bytes(s.log) + s.remaining[..n] == Bytes(front) + t.data[..t.sent + n];
    assert t.data[t.sent..][n..] == t.data[t.sent + n..];
  }

  lemma TurnKeepsInv(s: Tx, count: nat, reply: seq<Byte>)
    requires Inv(s) && s.fifoCount + count <= s.fifoSize && 0 < count && s.remaining != []
    ensures var s' := Turn(s, count, reply);
            Inv(s') && s'.fifoSize == s.fifoSize && s'.fifoCount == s.fifoCount + Chunk(s, count)
  {
    WriteMeaning(s, Chunk(s, count));
    var s1 := Write(s, Chunk(s, count));
    if s1.remaining == [] && reply != [] {
      SendKeepsInv(s1.(busy := false, tie := false, idleCalls := s1.idleCalls + 1), reply);
    }
  }

  lemma {:induction false} TurnShape(s: Tx, count: nat, reply: seq<Byte>)
    ensures var t := Turn(s, count, reply); t.fifoSize == s.fifoSize && t.fifoCount == s.fifoCount + Chunk(s, count)
  {}

  lemma {:induction false} InterruptFills(s: Tx, count: nat, replies: seq<seq<Byte>>)
    ensures var t := Interrupt(s, count, replies); t.fifoSize == s.fifoSize && t.fifoCount <= s.fifoCount + count
    decreases count
  {
    if count > 0 && s.remaining != [] {
      TurnShape(s, count, First(replies));
      InterruptFills(Turn(s, count, First(replies)), count - Chunk(s, count), Others(replies));
    }
  }

  /** The interrupt ends where its first turn and the interrupt for the room left after it end. */
  lemma {:induction false} InterruptStep(s: Tx, count: nat, replies: seq<seq<Byte>>) returns (t: Tx, left: nat)
    requires 0 < count && s.remaining != []
    ensures t == Turn(s, count, First(replies)) && left == count - Chunk(s, count)
    ensures left < count && Interrupt(s, count, replies) == Interrupt(t, left, Others(replies))
  {
    t, left := Turn(s, count, First(replies)), count - Chunk(s, count);
  }

  lemma {:induction false} InterruptKeepsInv(s: Tx, count: nat, replies: seq<seq<Byte>>)
    requires Inv(s) && s.fifoCount + count <= s.fifoSize
    ensures Inv(Interrupt(s, count, replies))
    ensures var s' := Interrupt(s, count, replies); s'.fifoSize == s.fifoSize && s'.fifoCount <= s.fifoCount + count
    decreases count
  {
    InterruptFills(s, count, replies);
    if count > 0 && s.remaining != [] {
      TurnKeepsInv(s, count, First(replies));
      var t, left := InterruptStep(s, count, replies);
      InterruptKeepsInv(t, left, Others(replies));
    }
  }

  /** `Drain` is the hardware shifting one byte out of its FIFO. */
  datatype Event = SendCall(data: seq<Byte>) | AbortCall | Irq(replies: seq<seq<Byte>>) | Drain

  function Step(s: Tx, e: Event): Tx {
    match e
    case SendCall(data) => if data == [] then s else Send(s, data)
    case AbortCall => Abort(s)
    case Irq(replies) =>
      if s.tie && s.fifoCount <= s.fifoSize then Interrupt(s, s.fifoSize - s.fifoCount, replies) else s
    case Drain => if s.fifoCount == 0 then s else s.(fifoCount := s.fifoCount - 1)
  }

  function Run(s: Tx, events: seq<Event>): Tx
    decreases |events|
  {
    if events == [] then s else Run(Step(s, events[0]), events[1..])
  }

  lemma {:induction false} AbortKeepsInv(s: Tx)
    requires Inv(s)
    ensures Inv(Abort(s))
  {
    if s.busy {
      var log := Cancelled(s.log);
      assert log[..|log| - 1] == s.log[..|log| - 1];
    }
  }

  lemma {:induction false} StepKeepsInv(s: Tx, e: Event)
    requires Inv(s)
    ensures Inv(Step(s, e))
  {
    match e
    case SendCall(data) => if data != [] { SendKeepsInv(s, data); }
    case AbortCall => AbortKeepsInv(s);
    case Irq(replies) => InterruptKeepsInv(s, s.fifoSize - s.fifoCount, replies);
    case Drain => if s.fifoCount != 0 { DrainKeepsInv(s); }
  }

  lemma {:induction false} DrainKeepsInv(s: Tx)
    requires Inv(s) && 0 < s.fifoCount
    ensures Inv(s.(fifoCount := s.fifoCount - 1))
  {}

  /** Transmit transfers stay correct over every run. */
  lemma {:induction false} TransmitCorrect(s: Tx, events: seq<Event>)
    requires Inv(s)
    ensures Inv(Run(s, events))
    decreases |events|
  {
    if events != [] {
      StepKeepsInv(s, events[0]);
      TransmitCorrect(Step(s, events[0]), events[1..]);
    }
  }

  // ---------------------------------------------------------------- runs without aborts

  ghost predicate NoneAborted(log: seq<Transfer>) {
    forall t :: t in log ==> !t.aborted
  }

  lemma {:induction false} InterruptAbortsNothing(s: Tx, count: nat, replies: seq<seq<Byte>>)
    requires NoneAborted(s.log)
    ensures NoneAborted(Interrupt(s, count, replies).log)
    decreases count
  {
    if count > 0 && s.remaining != [] {
      assert NoneAborted(Counted(s.log, Chunk(s, count)));
      InterruptAbortsNothing(Turn(s, count, First(replies)), count - Chunk(s, count), Others(replies));
    }
  }

  lemma {:induction false} RunAbortsNothing(s: Tx, events: seq<Event>)
    requires NoneAborted(s.log) && AbortCall !in events
    ensures NoneAborted(Run(s, events).log)
    decreases |events|
  {
    if events != [] {
      match events[0] {
        case SendCall(data) =>
        case Irq(replies) =>
          if s.tie && s.fifoCount <= s.fifoSize { InterruptAbortsNothing(s, s.fifoSize - s.fifoCount, replies); }
        case Drain =>
        case AbortCall => assert false;
      }
      RunAbortsNothing(Step(s, events[0]), events[1..]);
    }
  }

  /** The data of all transfers, one after the other. */
  function AllData(log: seq<Transfer>): seq<Byte> {
    if log == [] then [] else AllData(log[..|log| - 1]) + log[|log| - 1].data
  }

  lemma {:induction false} SentInFull(log: seq<Transfer>)
    requires forall i :: 0 <= i < |log| ==> log[i].sent == |log[i].data|
    ensures Bytes(log) == AllData(log) && Completed(log) == |log|
  {
    if log != [] { SentInFull(log[..|log| - 1]); }
  }

  /**
   * Without aborts nothing is cut short: D received the complete data of every accepted transfer but the
   * one in progress, then the sent part of that one, and TxIdle was called once for each of the former.
   */
  lemma {:induction false} TransmitComplete(fifoSize: nat, events: seq<Event>)
    requires AbortCall !in events
    ensures var s := Run(Tx([], 0, false, false, 0, fifoSize, [], 0, []), events);
            if s.busy then
              && s.log != []
              && var k := |s.log| - 1;
              && |s.remaining| <= |s.log[k].data| && s.idleCalls == k
              && s.written == AllData(s.log[..k]) + s.log[k].data[..|s.log[k].data| - |s.remaining|]
            else s.written == AllData(s.log) && s.idleCalls == |s.log|
  {
    var s0 := Tx([], 0, false, false, 0, fifoSize, [], 0, []);
    TransmitCorrect(s0, events);
    RunAbortsNothing(s0, events);
    var s := Run(s0, events);
    if s.busy {
      SentInFull(s.log[..|s.log| - 1]);
    } else {
      SentInFull(s.log);
    }
  }

  /**
   * Progress: an interrupt that finds room shortens the transfer, so a transfer of n bytes is complete
   * after n interrupts that each find at least one free place.
   */
  lemma InterruptProgress(s: Tx, count: nat)
    requires Inv(s) && s.busy && 0 < count
    ensures var s' := Interrupt(s, count, []);
            if |s.remaining| <= count then !s'.busy && s'.idleCalls == s.idleCalls + 1 && s'.remaining == []
            else s'.busy && s'.idleCalls == s.idleCalls && |s'.remaining| == |s.remaining| - count
  {}

  // ---------------------------------------------------------------- the driver

  datatype Status = Success | TxBusy | NoTransferInProgress

  class UartHandle {
    var txData: seq<Byte>
    var txDataSize: nat
    var txDataSizeAll: nat
    var txBusy: bool
    var tie: bool
    var fifoCount: nat
    const fifoSize: nat
    var dataRegister: seq<Byte>
    ghost var idleCalls: nat
    ghost var log: seq<Transfer>

    ghost predicate Valid()
      reads this
    {
      txDataSize <= |txData| && Inv(View())
    }

    ghost function View(): Tx
      requires txDataSize <= |txData|
      reads this
    {
      Tx(txData[..txDataSize], txDataSizeAll, txBusy, tie, fifoCount, fifoSize, dataRegister, idleCalls, log)
    }

    constructor (fifoSize: nat)
      ensures Valid() && View() == Tx([], 0, false, false, 0, fifoSize, [], 0, [])
    {
      this.fifoSize := fifoSize;
      txData, txDataSize, txDataSizeAll, txBusy, tie := [], 0, 0, false, false;
      fifoCount, dataRegister, idleCalls, log := 0, [], 0, [];
    }

    method SendNonBlocking(data: seq<Byte>) returns (status: Status)
      requires Valid() && data != []
      modifies this
      ensures Valid() && View() == Send(old(View()), data)
      ensures status == if old(txBusy) then TxBusy else Success
      ensures old(txBusy) ==> unchanged(this)
      ensures !old(txBusy) ==>
                && txBusy && tie && txData == data && txDataSize == txDataSizeAll == |data|
                && log == old(log) + [Transfer(data, 0, false)]
                && dataRegister == old(dataRegister) && fifoCount == old(fifoCount) && idleCalls == old(idleCalls)
    {
      SendKeepsInv(View(), data);
      if txBusy {
        return TxBusy;
      }
      txData := data;
      txDataSize := |data|;
      txDataSizeAll := |data|;
      txBusy := true;
      tie := true;
      log := log + [Transfer(data, 0, false)];
      assert txData[..txDataSize] == data;
      return Success;
    }

    method AbortSend()
      requires Valid()
      modifies this
      ensures Valid() && View() == Abort(old(View()))
      ensures !txBusy && !tie && txDataSize == 0
      ensures dataRegister == old(dataRegister) && fifoCount == old(fifoCount) && idleCalls == old(idleCalls)
    {
      AbortKeepsInv(View());
      log := if txBusy then Cancelled(log) else log;
      tie := false;
      txDataSize := 0;
      txBusy := false;
    }

    /** The count is the number of bytes of the current transfer written so far. */
    method GetSendCount() returns (status: Status, count: nat)
      requires Valid()
      ensures status == if txBusy then Success else NoTransferInProgress
      ensures txBusy ==> log != [] && count == log[|log| - 1].sent
    {
      if !txBusy {
        return NoTransferInProgress, 0;
      }
      assert |View().remaining| == txDataSize;
      count := txDataSizeAll - txDataSize;
      return Success, count;
    }

    /** UART_WriteNonBlocking, and the three counters after it. */
    method WriteChunk(n: nat)
      requires txDataSize <= |txData| && n <= txDataSize
      modifies this
      ensures txDataSize <= |txData| && View() == Write(old(View()), n) && txDataSize == old(txDataSize) - n
    {
      for i := 0 to n
        invariant txData == old(txData) && dataRegister == old(dataRegister) + txData[..i]
        invariant fifoCount == old(fifoCount) + i
        invariant txDataSize == old(txDataSize) && txDataSizeAll == old(txDataSizeAll) && log == old(log)
        invariant txBusy == old(txBusy) && tie == old(tie) && idleCalls == old(idleCalls)
      {
        dataRegister := dataRegister + [txData[i]];
        fifoCount := fifoCount + 1;
      }
      assert old(txData)[..old(txDataSize)][..n] == old(txData)[..n];
      assert old(txData)[..old(txDataSize)][n..] == old(txData)[n..][..old(txDataSize) - n];
      txData := txData[n..];
      txDataSize := txDataSize - n;
      log := Counted(log, n);
    }

    /** One turn of the transmit interrupt's loop. */
    method ServeTurn(count: nat, reply: seq<Byte>) returns (tempCount: nat)
      requires Valid() && 0 < count && fifoCount + count <= fifoSize && txDataSize != 0
      modifies this
      ensures Valid() && View() == Turn(old(View()), count, reply)
      ensures tempCount == Chunk(old(View()), count) && fifoCount == old(fifoCount) + tempCount
    {
      ghost var s := View();
      TurnKeepsInv(s, count, reply);
      tempCount := if txDataSize < count then txDataSize else count;
      WriteMeaning(s, tempCount);
      WriteChunk(tempCount);
      if txDataSize == 0 {
        txBusy := false;
        tie := false;
        idleCalls := idleCalls + 1;
        assert View() == Write(s, tempCount).(busy := false, tie := false, idleCalls := s.idleCalls + 1);
        if reply != [] {
          var status := SendNonBlocking(reply);
        }
      }
    }

    /** The same turn, seen from the whole interrupt. */
    method ServeNext(count: nat, replies: seq<seq<Byte>>) returns (left: nat, rest: seq<seq<Byte>>)
      requires Valid() && 0 < count && fifoCount + count <= fifoSize && txDataSize != 0
      modifies this
      ensures Valid() && left < count && fifoCount + left == old(fifoCount) + count
      ensures Interrupt(old(View()), count, replies) == Interrupt(View(), left, rest)
    {
      rest := Others(replies);
      var tempCount := ServeTurn(count, First(replies));
      left := count - tempCount;
    }

    /** The transmit branch of UART_TransferHandleIRQ. */
    method HandleTransmitIRQ(replies: seq<seq<Byte>>)
      requires Valid()
      modifies this
      ensures Valid()
      ensures View() == if old(tie) then Interrupt(old(View()), fifoSize - old(fifoCount), replies) else old(View())
    {
      if !tie {
        return;
      }
      var count: nat := fifoSize - fifoCount;
      var rest: seq<seq<Byte>> := replies;
      while count != 0 && txDataSize != 0
        invariant Valid() && fifoCount + count <= fifoSize
        invariant Interrupt(old(View()), fifoSize - old(fifoCount), replies) == Interrupt(View(), count, rest)
        decreases count
      {
        count, rest := ServeNext(count, rest);
      }
    }
  }
}
