/**
 * Whole runs of the transmit side: the DMA sends descriptors between any two ENET_SendFrame calls.
 * What leaves the device is read back as frames by cutting the piece stream after every LAST.
 */
module EnetTransmitRuns {
  import opened CircularArray
  import opened EnetTransmit

  /**
   * `queued` is every piece ever queued and `wire` what the DMA has sent of it; `accepted` are the frames
   * for which SendFrame returned success.  `expected` and `torn` keep the books on what the calls put in
   * front of the next LAST: a Busy call leaves the bytes it did queue there.
   */
  datatype Sys = Sys(ring: TxRing, hw: nat, queued: seq<Piece>, wire: seq<Piece>,
                     accepted: seq<seq<Byte>>, expected: seq<seq<Byte>>, torn: seq<Byte>)

  datatype Event = SendCall(data: seq<Byte>) | DmaSend

  /** The frames in a piece stream that starts with `carry` already pending, and what stays pending. */
  function Frames(ps: seq<Piece>, carry: seq<Byte>): seq<seq<Byte>> {
    if ps == [] then []
    else if ps[0].last then [carry + ps[0].chunk] + Frames(ps[1..], [])
    else Frames(ps[1..], carry + ps[0].chunk)
  }

  function Pending(ps: seq<Piece>, carry: seq<Byte>): seq<Byte> {
    if ps == [] then carry
    else Pending(ps[1..], if ps[0].last then [] else carry + ps[0].chunk)
  }

  ghost predicate Inv(s: Sys) {
    && s.wire <= s.queued
    && Rep(s.ring, s.hw, s.queued[|s.wire|..])
    && Frames(s.queued, []) == s.expected && Pending(s.queued, []) == s.torn
  }

  function Free(s: Sys): int {
    |s.ring.bds| - (|s.queued| - |s.wire|)
  }

  function Step(s: Sys, e: Event): Sys
    requires Inv(s)
  {
    match e
    case SendCall(data) =>
      var (r, st) := Send(s.ring, data);
      if st == SendOverLen then s
      else
        var qs := Queued(Cut(data, s.ring.buffSize), Free(s));
        var s1 := s.(ring := r, queued := s.queued + qs);
        if st == SendSuccess then
          s1.(accepted := s.accepted + [data], expected := s.expected + [s.torn + data], torn := [])
        else s1.(torn := s.torn + Join(qs))
    case DmaSend =>
      if !s.ring.bds[s.hw].ready then s
      else s.(ring := Sent(s.ring, s.hw), hw := Next(s.hw, |s.ring.bds|), wire := s.wire + [PieceOf(s.ring.bds[s.hw])])
  }

  lemma {:induction false} FramesAppend(a: seq<Piece>, b: seq<Piece>, carry: seq<Byte>)
    ensures Frames(a + b, carry) == Frames(a, carry) + Frames(b, Pending(a, carry))
    ensures Pending(a + b, carry) == Pending(b, Pending(a, carry))
  {
    if a == [] {
      assert a + b == b;
    } else {
      assert (a + b)[1..] == a[1..] + b;
      FramesAppend(a[1..], b, if a[0].last then [] else carry + a[0].chunk);
    }
  }

  /** All pieces of a frame read back as that frame behind whatever was pending. */
  lemma {:induction false} CutReadsBack(data: seq<Byte>, buffSize: nat, carry: seq<Byte>)
    requires 0 < buffSize
    ensures Frames(Cut(data, buffSize), carry) == [carry + data]
    ensures Pending(Cut(data, buffSize), carry) == []
    decreases |data|
  {
    var ps := Cut(data, buffSize);
    if |data| > buffSize {
      assert ps[1..] == Cut(data[buffSize..], buffSize);
      CutReadsBack(data[buffSize..], buffSize, carry + data[..buffSize]);
      assert carry + data[..buffSize] + data[buffSize..] == carry + data;
    } else {
      assert ps[1..] == [] && Frames([], []) == [];
    }
  }

  /** Pieces without LAST complete no frame; their bytes stay pending. */
  lemma {:induction false} TornPending(ps: seq<Piece>, carry: seq<Byte>)
    requires forall i :: 0 <= i < |ps| ==> !ps[i].last
    ensures Frames(ps, carry) == [] && Pending(ps, carry) == carry + Join(ps)
  {
    if ps != [] {
      TornPending(ps[1..], carry + ps[0].chunk);
    } else {
      assert carry + Join(ps) == carry;
    }
  }

  /** The books of a call: all pieces complete one frame behind what was pending, fewer only add to it. */
  lemma {:induction false} SendBooks(queued: seq<Piece>, data: seq<Byte>, buffSize: nat, free: nat)
    requires 0 < buffSize
    ensures var ps, qs, torn := Cut(data, buffSize), Queued(Cut(data, buffSize), free), Pending(queued, []);
            if |ps| <= free
            then Frames(queued + qs, []) == Frames(queued, []) + [torn + data] && Pending(queued + qs, []) == []
            else Frames(queued + qs, []) == Frames(queued, []) && Pending(queued + qs, []) == torn + Join(qs)
  {
    var ps, qs, torn := Cut(data, buffSize), Queued(Cut(data, buffSize), free), Pending(queued, []);
    FramesAppend(queued, qs, []);
    if |ps| <= free {
      CutReadsBack(data, buffSize, torn);
    } else {
      CutShape(data, buffSize);
      TornPending(qs, torn);
    }
  }

  lemma SendKeepsRep(s: Sys, data: seq<Byte>)
    requires Inv(s)
    ensures var s' := Step(s, SendCall(data)); s'.wire <= s'.queued && Rep(s'.ring, s'.hw, s'.queued[|s'.wire|..])
  {
    var q := s.queued[|s.wire|..];
    if |data| <= MAX_FRAME_LEN {
      var qs := Queued(Cut(data, s.ring.buffSize), Free(s));
      SendMeaning(s.ring, s.hw, q, data);
      TailAppend(s.queued, qs, |s.wire|);
      assert Step(s, SendCall(data)).queued == s.queued + qs;
    }
  }

  lemma {:induction false} TailAppend(a: seq<Piece>, b: seq<Piece>, n: nat)
    requires n <= |a|
    ensures (a + b)[n..] == a[n..] + b && (a + b)[..n] == a[..n]
  {}

  lemma SendKeepsBooks(s: Sys, data: seq<Byte>)
    requires Inv(s)
    ensures var s' := Step(s, SendCall(data)); Frames(s'.queued, []) == s'.expected && Pending(s'.queued, []) == s'.torn
  {
    SendMeaning(s.ring, s.hw, s.queued[|s.wire|..], data);
    SendBooks(s.queued, data, s.ring.buffSize, Free(s));
  }

  lemma SendKeepsInv(s: Sys, data: seq<Byte>)
    requires Inv(s)
    ensures Inv(Step(s, SendCall(data)))
  {
    SendKeepsRep(s, data);
    SendKeepsBooks(s, data);
  }

  lemma DmaKeepsInv(s: Sys)
    requires Inv(s)
    ensures Inv(Step(s, DmaSend))
    ensures Free(s) <= Free(Step(s, DmaSend))
  {
    var q := s.queued[|s.wire|..];
    SentPops(s.ring, s.hw, q);
    if q != [] {
      assert q[0] == s.queued[|s.wire|] && q[1..] == s.queued[|s.wire| + 1..];
    }
  }

  lemma StepKeepsInv(s: Sys, e: Event)
    requires Inv(s)
    ensures Inv(Step(s, e))
  {
    match e
    case SendCall(data) => SendKeepsInv(s, data);
    case DmaSend => DmaKeepsInv(s);
  }

  function Run(s: Sys, events: seq<Event>): (s': Sys)
    requires Inv(s)
    ensures Inv(s')
    decreases |events|
  {
    if events == [] then s
    else
      StepKeepsInv(s, events[0]);
      Run(Step(s, events[0]), events[1..])
  }

  function Start(r: TxRing): Sys
    requires Rep(r, 0, [])
  {
    Sys(r, 0, [], [], [], [], [])
  }

  /**
   * What any run transmits, Busy calls included: the wire carries a prefix of the queued pieces, all of
   * them once the ring is empty, and they read back as the accepted frames, each behind the bytes that
   * Busy calls since the previous accepted frame had left.
   */
  lemma TransmitAccounts(r: TxRing, events: seq<Event>)
    requires Rep(r, 0, [])
    ensures Inv(Start(r))
    ensures var s := Run(Start(r), events);
            && s.wire <= s.queued && Frames(s.queued, []) == s.expected && Frames(s.wire, []) <= s.expected
            && (!s.ring.bds[s.hw].ready ==> Frames(s.wire, []) == s.expected && Pending(s.wire, []) == s.torn)
  {
    var s := Run(Start(r), events);
    var q := s.queued[|s.wire|..];
    assert s.queued == s.wire + q;
    FramesAppend(s.wire, q, []);
    SentPops(s.ring, s.hw, q);
  }

  /** The guard a caller can check: the call will not stop halfway through the frame. */
  predicate NotTorn(s: Sys, data: seq<Byte>)
    requires 0 < s.ring.buffSize
  {
    |data| > MAX_FRAME_LEN || Free(s) <= 0 || |Cut(data, s.ring.buffSize)| <= Free(s)
  }

  ghost predicate NeverTorn(s: Sys, events: seq<Event>)
    requires Inv(s)
    decreases |events|
  {
    if events == [] then true
    else
      && (events[0].SendCall? ==> NotTorn(s, events[0].data))
      && Inv(Step(s, events[0])) && NeverTorn(Step(s, events[0]), events[1..])
  }

  /** With nothing pending before, bytes are left pending exactly by a call that stops halfway. */
  lemma PendingIffTorn(s: Sys, data: seq<Byte>)
    requires Inv(s) && s.torn == []
    ensures Step(s, SendCall(data)).torn == [] <==> NotTorn(s, data)
    ensures NotTorn(s, data) && s.expected == s.accepted ==>
              var s' := Step(s, SendCall(data)); s'.expected == s'.accepted
  {
    var ps := Cut(data, s.ring.buffSize);
    SendMeaning(s.ring, s.hw, s.queued[|s.wire|..], data);
    assert [] + data == data;
    if |data| <= MAX_FRAME_LEN && Free(s) < |ps| {
      CutShape(data, s.ring.buffSize);
      var qs := Queued(ps, Free(s));
      assert s.torn + Join(qs) == Join(qs);
      if Free(s) > 0 {
        assert qs[0] == ps[0] && Join(qs) == qs[0].chunk + Join(qs[1..]);
        assert |qs[0].chunk| == s.ring.buffSize;
      }
    }
  }

  /** The frame accepted next after a torn one goes out with foreign bytes in front: it is not the frame asked for. */
  lemma TornSpoilsNext(s: Sys, data: seq<Byte>)
    requires Inv(s) && s.torn != []
    requires |data| <= MAX_FRAME_LEN && |Cut(data, s.ring.buffSize)| <= Free(s)
    ensures var s' := Step(s, SendCall(data));
            && s'.accepted == s.accepted + [data]
            && Frames(s'.queued, []) == Frames(s.queued, []) + [s.torn + data] && s.torn + data != data
  {
    SendMeaning(s.ring, s.hw, s.queued[|s.wire|..], data);
    SendKeepsInv(s, data);
    assert |s.torn + data| != |data|;
  }

  /** Transmit correctness over runs: without torn calls the frames sent are the accepted ones in call order. */
  lemma {:induction false} TransmitCorrect(s: Sys, events: seq<Event>)
    requires Inv(s) && s.torn == [] && s.expected == s.accepted
    requires NeverTorn(s, events)
    ensures var s' := Run(s, events);
            && Frames(s'.queued, []) == s'.accepted && Pending(s'.queued, []) == []
            && Frames(s'.wire, []) <= s'.accepted
            && (!s'.ring.bds[s'.hw].ready ==> Frames(s'.wire, []) == s'.accepted)
    decreases |events|
  {
    if events == [] {
      var q := s.queued[|s.wire|..];
      assert s.queued == s.wire + q;
      FramesAppend(s.wire, q, []);
      SentPops(s.ring, s.hw, q);
    } else {
      if events[0].SendCall? { PendingIffTorn(s, events[0].data); }
      TransmitCorrect(Step(s, events[0]), events[1..]);
    }
  }

  /** No frame is accepted while bytes of a torn one are pending. */
  ghost predicate NoneSpoilt(s: Sys, events: seq<Event>)
    requires Inv(s)
    decreases |events|
  {
    if events == [] then true
    else
      && (events[0].SendCall? && Send(s.ring, events[0].data).1 == SendSuccess ==> s.torn == [])
      && Inv(Step(s, events[0])) && NoneSpoilt(Step(s, events[0]), events[1..])
  }

  /** A step adds the same number of frames to both books, and the same frame unless it is spoilt. */
  lemma {:induction false} BooksGrow(s: Sys, e: Event)
    requires Inv(s) && |s.expected| == |s.accepted|
    ensures var s' := Step(s, e);
            && |s'.expected| == |s'.accepted| && s.expected <= s'.expected && s.accepted <= s'.accepted
            && (s'.expected == s'.accepted <==>
                  s.expected == s.accepted && (e.SendCall? && Send(s.ring, e.data).1 == SendSuccess ==> s.torn == []))
  {
    if e.SendCall? && Send(s.ring, e.data).1 == SendSuccess {
      var s' := Step(s, e);
      assert s'.expected == s.expected + [s.torn + e.data] && s'.accepted == s.accepted + [e.data];
      assert |s.torn + e.data| == |s.torn| + |e.data|;
      if s.torn == [] { assert s.torn + e.data == e.data; }
      LastDiffers(s.expected, s.torn + e.data, s.accepted, e.data);
    }
  }

  lemma {:induction false} LastDiffers(a: seq<seq<Byte>>, x: seq<Byte>, b: seq<seq<Byte>>, y: seq<Byte>)
    requires |a| == |b|
    ensures a + [x] == b + [y] <==> a == b && x == y
  {
    if a + [x] == b + [y] {
      assert a == (a + [x])[..|a|] && b == (b + [y])[..|b|];
      assert (a + [x])[|a|] == x && (b + [y])[|b|] == y;
    }
  }

  /**
   * The exact condition over runs: the stream is that of the accepted frames if and only if no frame was
   * accepted behind a torn one.  A torn frame that no accepted one follows does no harm.
   */
  lemma {:induction false} TransmitIffNoneSpoilt(s: Sys, events: seq<Event>)
    requires Inv(s) && |s.expected| == |s.accepted|
    ensures var s' := Run(s, events);
            Frames(s'.queued, []) == s'.accepted <==> s.expected == s.accepted && NoneSpoilt(s, events)
    decreases |events|
  {
    if events != [] {
      StepKeepsInv(s, events[0]);
      BooksGrow(s, events[0]);
      TransmitIffNoneSpoilt(Step(s, events[0]), events[1..]);
    }
  }

  // ---------------------------------------------------------------- a torn frame

  /** A fresh ring of two descriptors with buffers of 256 bytes. */
  function TwoBuffers(): TxRing {
    var buffer: seq<Byte> := seq(256, _ => 0);
    TxRing([TxBd(0, false, false, false, true, buffer), TxBd(0, false, true, false, true, buffer)], 0, 256)
  }

  lemma TwoBuffersFresh()
    ensures Rep(TwoBuffers(), 0, [])
  {}

  lemma {:induction false} SendPiecesSize(r: TxRing, rest: seq<Byte>)
    requires WellFormed(r)
    ensures |SendPieces(r, rest).0.bds| == |r.bds|
    decreases |rest|
  {
    if |rest| > r.buffSize { SendPiecesSize(Put(r, rest[..r.buffSize], false), rest[r.buffSize..]); }
  }

  /** 600 bytes need three of these descriptors: the call stops halfway and leaves bytes pending. */
  lemma {:induction false} TornExample(data: seq<Byte>)
    requires |data| == 600
    ensures Rep(TwoBuffers(), 0, [])
    ensures var s := Step(Start(TwoBuffers()), SendCall(data));
            && Inv(s) && Send(TwoBuffers(), data).1 == SendBusy && s.torn != [] && s.accepted == [] && Free(s) == 0
  {
    TwoBuffersFresh();
    var s0 := Start(TwoBuffers());
    assert Inv(s0);
    CutCount(data, 256);
    PendingIffTorn(s0, data);
    SendMeaning(s0.ring, 0, [], data);
    SendKeepsInv(s0, data);
    assert s0.queued[|s0.wire|..] == [];
    assert |Queued(Cut(data, 256), 2)| == 2 && Free(s0) == 2;
    SendPiecesSize(s0.ring, data);
  }

  /** Once the DMA has sent a descriptor, a frame of one byte is accepted, and goes out as a longer one. */
  lemma {:induction false} TornGoesOut(data: seq<Byte>, b: Byte)
    requires |data| == 600
    ensures Rep(TwoBuffers(), 0, [])
    ensures var s1 := Step(Start(TwoBuffers()), SendCall(data));
            && Inv(s1) && Inv(Step(s1, DmaSend))
            && var s3 := Step(Step(s1, DmaSend), SendCall([b]));
            && s3.accepted == [[b]] && |Frames(s3.queued, [])| == 1 && Frames(s3.queued, [])[0] != [b]
  {
    TornExample(data);
    var s1 := Step(Start(TwoBuffers()), SendCall(data));
    DmaKeepsInv(s1);
    DmaFrees(s1);
    var s2 := Step(s1, DmaSend);
    assert Cut([b], 256) == [Piece([b], true)];
    TornSpoilsNext(s2, [b]);
    assert Frames(s2.queued, []) == s2.expected == [];
  }

  lemma DmaFrees(s: Sys)
    requires Inv(s) && Free(s) < |s.ring.bds|
    ensures var s' := Step(s, DmaSend); Free(s') == Free(s) + 1 && s'.torn == s.torn && s'.queued == s.queued
    ensures var s' := Step(s, DmaSend);
            && s'.expected == s.expected && s'.accepted == s.accepted
            && s'.ring.buffSize == s.ring.buffSize
  {
    SentPops(s.ring, s.hw, s.queued[|s.wire|..]);
  }
}
