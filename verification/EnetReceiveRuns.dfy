/**
 * Whole runs of the receive side: the DMA stores pieces of arriving frames between any two driver
 * calls, and the application follows the documented pattern (ask for the size, then read with that
 * size, or read without data after an error).
 */
module EnetReceiveRuns {
  import opened CircularArray
  import opened EnetReceive

  /** What the application was last told and has not yet acted on. */
  datatype Told = Nothing | ReadThis(length: nat) | DropThis

  /**
   * The first `stored` pieces of `inflight` are in the ring (0: no frame is in flight); `arrived` lists
   * the frames that are completely stored, and `released` counts those of them taken out again.
   */
  datatype Sys = Sys(ring: RxRing, dma: nat, inflight: Frame, stored: nat,
                     arrived: seq<Frame>, released: nat, told: Told, delivered: seq<seq<Byte>>)

  /** `Arrive(f)` is one DMA write; a new frame f starts only when none is in flight. */
  datatype Event = Arrive(frame: Frame) | AskSize | Read

  function AllPieces(frames: seq<Frame>, buffSize: nat): seq<Piece>
    requires 0 < buffSize
  {
    if frames == [] then [] else Pieces(frames[0], buffSize) + AllPieces(frames[1..], buffSize)
  }

  /** What the user must get: the data of the good frames, in arrival order. */
  function GoodData(frames: seq<Frame>): seq<seq<Byte>> {
    if frames == [] then []
    else GoodData(frames[..|frames| - 1]) + (var f := frames[|frames| - 1]; if Good(f) then [f.data] else [])
  }

  function Stored(s: Sys): seq<Piece>
    requires 0 < s.ring.buffSize && s.stored <= |Pieces(s.inflight, s.ring.buffSize)|
  {
    Pieces(s.inflight, s.ring.buffSize)[..s.stored]
  }

  /** The pieces the driver owns: the unread complete frames and the stored part of the next one. */
  function Queue(s: Sys): seq<Piece>
    requires 0 < s.ring.buffSize && s.released <= |s.arrived| && s.stored <= |Pieces(s.inflight, s.ring.buffSize)|
  {
    AllPieces(s.arrived[s.released..], s.ring.buffSize) + Stored(s)
  }

  ghost predicate Inv(s: Sys) {
    && 0 < s.ring.buffSize && s.released <= |s.arrived|
    && s.stored < |Pieces(s.inflight, s.ring.buffSize)|
    && Rep(s.ring, Queue(s))
    && s.dma == DmaIndex(s.ring, |Queue(s)|)
    && s.delivered == GoodData(s.arrived[..s.released])
    && (s.told != Nothing ==>
          s.released < |s.arrived| &&
          var f := s.arrived[s.released];
          s.told == if Good(f) then ReadThis(|f.data|) else DropThis)
  }

  function DmaWrite(s: Sys, f: Frame): Sys
    requires Inv(s)
  {
    if !s.ring.bds[s.dma].empty then s
    else
      var frame := if s.stored == 0 then f else s.inflight;
      var ps := Pieces(frame, s.ring.buffSize);
      CutShape(frame.data, |frame.data|, frame.status, s.ring.buffSize);
      var s1 := s.(ring := Store(s.ring, s.dma, ps[s.stored]), dma := Next(s.dma, |s.ring.bds|), inflight := frame);
      if s.stored + 1 == |ps| then s1.(stored := 0, arrived := s.arrived + [frame])
      else s1.(stored := s.stored + 1)
  }

  function Step(s: Sys, e: Event): Sys
    requires Inv(s)
  {
    match e
    case Arrive(f) => DmaWrite(s, f)
    case AskSize =>
      s.(told := match FrameSize(s.ring)
                 case SizeEmpty => Nothing
                 case SizeError => DropThis
                 case SizeOk(n) => ReadThis(n))
    case Read =>
      match s.told
      case Nothing => s
      case DropThis =>
        s.(ring := Discard(s.ring, |s.ring.bds|), released := s.released + 1, told := Nothing)
      case ReadThis(n) =>
        var (r, st, data) := ReadFrom(s.ring, n, []);
        s.(ring := r, released := s.released + 1, told := Nothing,
           delivered := if st == ReadSuccess then s.delivered + [data] else s.delivered)
  }

  lemma {:induction false} AllPiecesAppend(frames: seq<Frame>, f: Frame, buffSize: nat)
    requires 0 < buffSize
    ensures AllPieces(frames + [f], buffSize) == AllPieces(frames, buffSize) + Pieces(f, buffSize)
  {
    if frames == [] {
      assert [f][1..] == [] && frames + [f] == [f];
    } else {
      assert (frames + [f])[1..] == frames[1..] + [f];
      AllPiecesAppend(frames[1..], f, buffSize);
    }
  }

  /** A DMA write adds the next piece of the frame in flight to the queue. */
  lemma ArriveExtendsQueue(s: Sys, f: Frame)
    requires Inv(s) && s.ring.bds[s.dma].empty
    ensures var s' := DmaWrite(s, f);
            && s.stored < |Pieces(s'.inflight, s.ring.buffSize)| && s'.stored < |Pieces(s'.inflight, s.ring.buffSize)|
            && s.released <= |s'.arrived|
            && Queue(s') == Queue(s) + [Pieces(s'.inflight, s.ring.buffSize)[s.stored]]
  {
    var b, s' := s.ring.buffSize, DmaWrite(s, f);
    var ps := Pieces(s'.inflight, b);
    assert Stored(s) == ps[..s.stored];
    assert Stored(s) + [ps[s.stored]] == ps[..s.stored + 1];
    if s.stored + 1 == |ps| {
      assert s'.arrived[s.released..] == s.arrived[s.released..] + [s'.inflight];
      AllPiecesAppend(s.arrived[s.released..], s'.inflight, b);
      assert Stored(s') == [];
    }
  }

  lemma ArriveKeepsInv(s: Sys, f: Frame)
    requires Inv(s)
    ensures Inv(DmaWrite(s, f))
    ensures s.arrived <= DmaWrite(s, f).arrived
  {
    if s.ring.bds[s.dma].empty {
      var q, s' := Queue(s), DmaWrite(s, f);
      ArriveExtendsQueue(s, f);
      var frame := s'.inflight;
      CutShape(frame.data, |frame.data|, frame.status, s.ring.buffSize);
      StoreAppends(s.ring, q, Pieces(frame, s.ring.buffSize)[s.stored]);
      assert s'.arrived[..s.released] == s.arrived[..s.released];
    }
  }

  /** The size call answers Empty exactly when the front frame is incomplete, and else judges that frame. */
  lemma AskSizeMeaning(s: Sys)
    requires Inv(s)
    ensures FrameSize(s.ring) ==
            if s.released == |s.arrived| then SizeEmpty
            else var f := s.arrived[s.released]; if Good(f) then SizeOk(|f.data|) else SizeError
  {
    var b := s.ring.buffSize;
    if s.released == |s.arrived| {
      CutShape(s.inflight.data, |s.inflight.data|, s.inflight.status, b);
      assert Queue(s) == Stored(s);
      FrameSizeIncomplete(s.ring, Queue(s));
    } else {
      var f, rest := FrontFrame(s);
      FrameSizeComplete(s.ring, f, rest);
    }
  }

  /** A read the application was told to make returns the front frame and leaves the rest of the queue. */
  lemma GoodRead(s: Sys) returns (f: Frame, rest: seq<Piece>)
    requires Inv(s) && s.told.ReadThis?
    ensures s.released < |s.arrived| && f == s.arrived[s.released] && Good(f)
    ensures rest == AllPieces(s.arrived[s.released + 1..], s.ring.buffSize) + Stored(s)
    ensures var (r, st, data) := ReadFrom(s.ring, s.told.length, []);
            st == ReadSuccess && data == f.data && Rep(r, rest) && DmaIndex(r, |rest|) == s.dma
    ensures CopiesFit(s.ring, s.told.length, 0, s.told.length)
  {
    f, rest := FrontFrame(s);
    ReadFront(s.ring, f, rest);
  }

  /** Dropping a frame leaves the rest of the queue. */
  lemma BadDrop(s: Sys) returns (f: Frame, rest: seq<Piece>)
    requires Inv(s) && s.told.DropThis?
    ensures s.released < |s.arrived| && f == s.arrived[s.released] && !Good(f)
    ensures rest == AllPieces(s.arrived[s.released + 1..], s.ring.buffSize) + Stored(s)
    ensures var r := Discard(s.ring, |s.ring.bds|); Rep(r, rest) && DmaIndex(r, |rest|) == s.dma
  {
    f, rest := FrontFrame(s);
    DiscardPopsFrame(s.ring, f.data, |f.data|, f.status, rest, |s.ring.bds|);
  }

  lemma {:induction false} GoodDataNext(frames: seq<Frame>, k: nat)
    requires k < |frames|
    ensures GoodData(frames[..k + 1]) == GoodData(frames[..k]) + if Good(frames[k]) then [frames[k].data] else []
  {
    assert frames[..k + 1][..k] == frames[..k];
  }

  lemma ReadKeepsInv(s: Sys)
    requires Inv(s)
    ensures Inv(Step(s, Read))
  {
    if s.told != Nothing {
      GoodDataNext(s.arrived, s.released);
      if s.told.ReadThis? {
        var f, rest := GoodRead(s);
        assert Queue(Step(s, Read)) == rest;
      } else {
        var f, rest := BadDrop(s);
        assert Queue(Step(s, Read)) == rest;
      }
    }
  }

  lemma StepKeepsInv(s: Sys, e: Event)
    requires Inv(s)
    ensures Inv(Step(s, e))
    ensures s.arrived <= Step(s, e).arrived
  {
    match e
    case Arrive(f) => ArriveKeepsInv(s, f);
    case AskSize =>
      AskSizeMeaning(s);
      assert Queue(Step(s, e)) == Queue(s);
    case Read => ReadKeepsInv(s);
  }

  function Run(s: Sys, events: seq<Event>): (s': Sys)
    requires Inv(s)
    ensures Inv(s') && s.arrived <= s'.arrived
    decreases |events|
  {
    if events == [] then s
    else
      StepKeepsInv(s, events[0]);
      Run(Step(s, events[0]), events[1..])
  }

  /** A freshly initialised ring, about to run. */
  function Start(r: RxRing): Sys
    requires Rep(r, [])
  {
    Sys(r, r.current, Frame([], CLEAR), 0, [], 0, Nothing, [])
  }

  /**
   * Receive correctness.  In every run from a freshly initialised ring the user was given exactly the
   * good frames among those taken out, in arrival order and each once; the ring holds exactly the rest;
   * and a size reported earlier and not yet acted on is still that of the frame at the front, so that
   * the read it leads to stays within a buffer of that size and returns that frame.
   */
  lemma ReceiveCorrect(r: RxRing, events: seq<Event>)
    requires Rep(r, [])
    ensures Inv(Start(r))
    ensures var s := Run(Start(r), events);
            && s.delivered == GoodData(s.arrived[..s.released])
            && Rep(s.ring, AllPieces(s.arrived[s.released..], s.ring.buffSize) + Stored(s))
    ensures var s := Run(Start(r), events);
            s.told.ReadThis? ==>
              && s.released < |s.arrived|
              && CopiesFit(s.ring, s.told.length, 0, s.told.length)
              && Step(s, Read).delivered == s.delivered + [s.arrived[s.released].data]
  {
    assert Queue(Start(r)) == [];
    var s := Run(Start(r), events);
    if s.told.ReadThis? {
      ToldReadSucceeds(s);
    }
  }

  /** Splits the queue at the front frame. */
  lemma FrontFrame(s: Sys) returns (f: Frame, rest: seq<Piece>)
    requires Inv(s) && s.released < |s.arrived|
    ensures f == s.arrived[s.released] && Queue(s) == Pieces(f, s.ring.buffSize) + rest
    ensures rest == AllPieces(s.arrived[s.released + 1..], s.ring.buffSize) + Stored(s)
  {
    assert s.arrived[s.released..][1..] == s.arrived[s.released + 1..];
    f := s.arrived[s.released];
    rest := AllPieces(s.arrived[s.released + 1..], s.ring.buffSize) + Stored(s);
  }

  lemma ToldReadSucceeds(s: Sys)
    requires Inv(s) && s.told.ReadThis?
    ensures CopiesFit(s.ring, s.told.length, 0, s.told.length)
    ensures Step(s, Read).delivered == s.delivered + [s.arrived[s.released].data]
  {
    var f, rest := GoodRead(s);
  }

  /** Asking and reading once per complete frame empties the ring: nothing good is left undelivered. */
  lemma {:induction false} DrainDelivers(s: Sys) returns (events: seq<Event>)
    requires Inv(s)
    ensures var s' := Run(s, events);
            s'.released == |s.arrived| && s'.arrived == s.arrived && s'.delivered == GoodData(s.arrived)
    decreases |s.arrived| - s.released
  {
    if s.released == |s.arrived| {
      assert s.arrived[..s.released] == s.arrived;
      events := [];
    } else {
      AskSizeMeaning(s);
      StepKeepsInv(s, AskSize);
      var s1 := Step(s, AskSize);
      StepKeepsInv(s1, Read);
      var s2 := Step(s1, Read);
      assert s2.arrived == s.arrived && s2.released == s.released + 1;
      var more := DrainDelivers(s2);
      events := [AskSize, Read] + more;
      RunTwo(s, AskSize, Read, more);
    }
  }

  lemma RunTwo(s: Sys, e: Event, e': Event, more: seq<Event>)
    requires Inv(s) && Inv(Step(s, e)) && Inv(Step(Step(s, e), e'))
    ensures Run(s, [e, e'] + more) == Run(Step(Step(s, e), e'), more)
  {
    var all := [e, e'] + more;
    assert all[1..] == [e'] + more && all[1..][1..] == more;
  }

  /**
   * No receive deadlock.  When the ring can hold more than one maximal frame and the DMA is stuck on a
   * ring the driver owns entirely, the front frame is complete, so the size call does not say Empty.
   */
  lemma NoReceiveDeadlock(s: Sys, maxFrameLen: nat)
    requires Inv(s)
    requires s.ring.buffSize * |s.ring.bds| > maxFrameLen
    requires |s.inflight.data| <= maxFrameLen
    requires !s.ring.bds[s.dma].empty
    ensures s.released < |s.arrived| && FrameSize(s.ring) != SizeEmpty
  {
    AskSizeMeaning(s);
    var b, n := s.ring.buffSize, |s.ring.bds|;
    StoreAppends(s.ring, Queue(s), Piece(1, true, CLEAR, []));
    assert |Queue(s)| == n;
    if s.released == |s.arrived| {
      var ps := Pieces(s.inflight, b);
      CutCount(s.inflight.data, |s.inflight.data|, s.inflight.status, b);
      assert Queue(s) == Stored(s);
      assert n <= |ps| - 1;
      Monotone(n, |ps| - 1, b);
      assert false;
    }
  }

  // ---------------------------------------------------------------- a read that overruns

  /** A fresh ring of two descriptors with buffers of 256 bytes. */
  function TwoBuffers(): RxRing {
    var buffer: seq<Byte> := seq(256, _ => 0);
    RxRing([RxBd(0, true, false, false, CLEAR, buffer), RxBd(0, true, true, false, CLEAR, buffer)], 0, 256)
  }

  lemma TwoBuffersFresh()
    ensures Rep(TwoBuffers(), [])
  {}

  /** A DMA write that finds its descriptor free, and completes the frame or not. */
  lemma {:induction false} ArriveOne(s: Sys, f: Frame)
    requires Inv(s) && |Queue(s)| < |s.ring.bds| && (s.stored == 0 || s.inflight == f)
    ensures var s', n := DmaWrite(s, f), |Pieces(f, s.ring.buffSize)|;
            && Inv(s') && s'.ring.buffSize == s.ring.buffSize && |s'.ring.bds| == |s.ring.bds|
            && s'.released == s.released
            && s'.inflight == f && |Queue(s')| == |Queue(s)| + 1
            && (if s.stored + 1 == n then s'.arrived == s.arrived + [f] && s'.stored == 0
                else s'.arrived == s.arrived && s'.stored == s.stored + 1)
  {
    StoreAppends(s.ring, Queue(s), Piece(1, true, CLEAR, []));
    ArriveExtendsQueue(s, f);
    ArriveKeepsInv(s, f);
  }

  /** 300 bytes received in two buffers of 256, and read with length 1: the first copy is 256 bytes long. */
  lemma {:induction false} ShortReadOverruns(f: Frame)
    requires |f.data| == 300
    ensures Rep(TwoBuffers(), []) && Inv(Start(TwoBuffers()))
    ensures var s := Run(Start(TwoBuffers()), [Arrive(f), Arrive(f)]);
            && s.arrived == [f] && s.released == 0
            && !CopiesFit(s.ring, 1, 0, 1)
  {
    TwoBuffersFresh();
    var s0 := Start(TwoBuffers());
    assert Queue(s0) == [] && Inv(s0);
    CutCount(f.data, 300, f.status, 256);
    assert |Pieces(f, 256)| == 2;
    ArriveOne(s0, f);
    var s1 := DmaWrite(s0, f);
    ArriveOne(s1, f);
    var s2 := DmaWrite(s1, f);
    assert [Arrive(f), Arrive(f)][1..] == [Arrive(f)];
    assert Run(s1, [Arrive(f)]) == Run(s2, []);
    var g, rest := FrontFrame(s2);
    ShortReadFits(s2.ring, f, rest, 1);
  }

  lemma Monotone(x: nat, y: nat, b: nat)
    requires x <= y
    ensures b * x <= b * y && y * b == b * y
  {}
}
