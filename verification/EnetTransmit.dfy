/**
 * The transmit descriptor ring of the Ethernet driver (single ring, legacy descriptors).
 *
 * A descriptor belongs to the DMA while READY is set.  ENET_SendFrame cuts a frame over as many
 * descriptors as it needs; it can run out of free descriptors halfway and then reports Busy.
 */
module EnetTransmit {
  import opened CircularArray

  type Byte = bv8

  const MAX_FRAME_LEN: nat := 1518

  datatype TxBd = TxBd(length: nat, ready: bool, wrap: bool, last: bool, transmitCrc: bool, buffer: seq<Byte>)

  datatype TxRing = TxRing(bds: seq<TxBd>, current: nat, buffSize: nat)

  datatype SendStatus = SendSuccess | SendOverLen | SendBusy

  /** WRAP closes the ring, every buffer has the configured size, and the MAC is to append the checksum. */
  ghost predicate WellFormed(r: TxRing) {
    && r.current < |r.bds|
    && 0 < r.buffSize
    && (forall i :: 0 <= i < |r.bds| ==> (r.bds[i].wrap <==> i == |r.bds| - 1))
    && (forall i :: 0 <= i < |r.bds| ==> |r.bds[i].buffer| == r.buffSize && r.bds[i].transmitCrc)
  }

  // ---------------------------------------------------------------- what the driver call computes

  /** Fills the current descriptor, marks it READY and moves on. */
  function Put(r: TxRing, chunk: seq<Byte>, last: bool): (r': TxRing)
    requires WellFormed(r) && |chunk| <= r.buffSize
    ensures WellFormed(r') && r'.buffSize == r.buffSize && |r'.bds| == |r.bds|
  {
    var bd := r.bds[r.current];
    var filled := bd.(length := |chunk|, ready := true, last := last, buffer := chunk + bd.buffer[|chunk|..]);
    r.(bds := r.bds[r.current := filled], current := Next(r.current, |r.bds|))
  }

  function SendPieces(r: TxRing, rest: seq<Byte>): (TxRing, SendStatus)
    requires WellFormed(r)
    decreases |rest|
  {
    if |rest| <= r.buffSize then (Put(r, rest, true), SendSuccess)
    else
      var r' := Put(r, rest[..r.buffSize], false);
      if r'.bds[r'.current].ready then (r', SendBusy) else SendPieces(r', rest[r.buffSize..])
  }

  function Send(r: TxRing, data: seq<Byte>): (TxRing, SendStatus)
    requires WellFormed(r)
  {
    if |data| > MAX_FRAME_LEN then (r, SendOverLen)
    else if r.bds[r.current].ready then (r, SendBusy)
    else SendPieces(r, data)
  }

  // ---------------------------------------------------------------- what a ring means: a queue of pieces

  datatype Piece = Piece(chunk: seq<Byte>, last: bool)

  function Cut(data: seq<Byte>, buffSize: nat): (ps: seq<Piece>)
    requires 0 < buffSize
    ensures ps != []
    decreases |data|
  {
    if |data| <= buffSize then [Piece(data, true)]
    else [Piece(data[..buffSize], false)] + Cut(data[buffSize..], buffSize)
  }

  function PieceOf(bd: TxBd): Piece {
    Piece(if bd.length <= |bd.buffer| then bd.buffer[..bd.length] else bd.buffer, bd.last)
  }

  /**
   * The DMA owns the contiguous arc of |q| descriptors from its own index `hw` on; they hold the pieces
   * q in order, the driver's current descriptor is the one just past them, and no other is READY.
   */
  ghost predicate Rep(r: TxRing, hw: nat, q: seq<Piece>) {
    && WellFormed(r)
    && hw < |r.bds| && |q| <= |r.bds|
    && r.current == At(hw, |q|, |r.bds|)
    && (forall j :: 0 <= j < |q| ==> var bd := r.bds[At(hw, j, |r.bds|)]; bd.ready && PieceOf(bd) == q[j])
    && (forall j :: |q| <= j < |r.bds| ==> !r.bds[At(hw, j, |r.bds|)].ready)
  }

  /** Only READY changes hands when the DMA has sent a descriptor. */
  function Sent(r: TxRing, hw: nat): TxRing
    requires hw < |r.bds|
  {
    r.(bds := r.bds[hw := r.bds[hw].(ready := false)])
  }

  lemma SentPops(r: TxRing, hw: nat, q: seq<Piece>)
    requires Rep(r, hw, q)
    ensures r.bds[hw].ready <==> q != []
    ensures q != [] ==> PieceOf(r.bds[hw]) == q[0] && Rep(Sent(r, hw), Next(hw, |r.bds|), q[1..])
  {
    var n := |r.bds|;
    assert At(hw, 0, n) == hw;
    if q != [] {
      var r', hw' := Sent(r, hw), Next(hw, n);
      forall j | 0 <= j < n
        ensures j < |q| - 1 ==> var bd := r'.bds[At(hw', j, n)]; bd.ready && PieceOf(bd) == q[1..][j]
        ensures j >= |q| - 1 ==> !r'.bds[At(hw', j, n)].ready
      {
        assert At(hw', j, n) == At(hw, j + 1, n);
      }
    }
  }

  lemma PutPushes(r: TxRing, hw: nat, q: seq<Piece>, p: Piece)
    requires Rep(r, hw, q) && |q| < |r.bds| && |p.chunk| <= r.buffSize
    ensures Rep(Put(r, p.chunk, p.last), hw, q + [p])
  {
    var n, r' := |r.bds|, Put(r, p.chunk, p.last);
    assert PieceOf(r'.bds[r.current]) == p;
    forall j | 0 <= j < n && j != |q|
      ensures r'.bds[At(hw, j, n)] == r.bds[At(hw, j, n)]
    {}
  }

  /** The driver's current descriptor is free exactly when some descriptor is. */
  lemma CurrentReady(r: TxRing, hw: nat, q: seq<Piece>)
    requires Rep(r, hw, q)
    ensures r.bds[r.current].ready <==> |q| == |r.bds|
  {
    if |q| == |r.bds| {
      assert r.bds[At(hw, 0, |r.bds|)].ready;
    } else {
      assert !r.bds[At(hw, |q|, |r.bds|)].ready;
    }
  }

  /** What a send that starts with `free` descriptors leaves queued. */
  function Queued(ps: seq<Piece>, free: nat): seq<Piece> {
    if |ps| <= free then ps else ps[..free]
  }

  lemma {:induction false} QueuedStep(q: seq<Piece>, p: Piece, ts: seq<Piece>, free: nat)
    requires 0 < free
    ensures q + Queued([p] + ts, free) == q + [p] + Queued(ts, free - 1)
  {}

  lemma {:induction false} SendPiecesFills(r: TxRing, hw: nat, q: seq<Piece>, rest: seq<Byte>)
    requires Rep(r, hw, q) && |q| < |r.bds|
    ensures var ps, free, (r', st) := Cut(rest, r.buffSize), |r.bds| - |q|, SendPieces(r, rest);
            Rep(r', hw, q + Queued(ps, free)) && st == if |ps| <= free then SendSuccess else SendBusy
    decreases |rest|
  {
    var ps, free := Cut(rest, r.buffSize), |r.bds| - |q|;
    PutPushes(r, hw, q, ps[0]);
    if |rest| > r.buffSize {
      var r', tail := Put(r, rest[..r.buffSize], false), rest[r.buffSize..];
      var ts := Cut(tail, r.buffSize);
      assert ps == [ps[0]] + ts;
      CurrentReady(r', hw, q + [ps[0]]);
      QueuedStep(q, ps[0], ts, free);
      if free > 1 {
        SendPiecesFills(r', hw, q + [ps[0]], tail);
      }
    } else {
      assert Queued(ps, free) == ps == [ps[0]];
    }
  }

  /**
   * Transmit correctness of one call: a frame of legal length is accepted if and only if there are as
   * many free descriptors as it has pieces.  If accepted all its pieces are queued; otherwise the call
   * says Busy, but every free descriptor has been filled with the front of the frame.
   */
  lemma SendMeaning(r: TxRing, hw: nat, q: seq<Piece>, data: seq<Byte>)
    requires Rep(r, hw, q)
    ensures var ps, free, (r', st) := Cut(data, r.buffSize), |r.bds| - |q|, Send(r, data);
            && Rep(r', hw, q + (if |data| > MAX_FRAME_LEN then [] else Queued(ps, free)))
            && st == if |data| > MAX_FRAME_LEN then SendOverLen else if |ps| <= free then SendSuccess else SendBusy
  {
    CurrentReady(r, hw, q);
    if |data| > MAX_FRAME_LEN {
      assert q + [] == q;
    } else if |q| == |r.bds| {
      assert q + Queued(Cut(data, r.buffSize), 0) == q;
    } else {
      SendPiecesFills(r, hw, q, data);
    }
  }

  /**
   * The longest frame accepted has 1518 bytes; one that is not empty is accepted exactly if the free
   * descriptors have room for its bytes.
   */
  lemma SendLengths(r: TxRing, hw: nat, q: seq<Piece>, data: seq<Byte>)
    requires Rep(r, hw, q)
    ensures var free, st := |r.bds| - |q|, Send(r, data).1;
            && (st == SendOverLen <==> |data| > 1518)
            && (st == SendSuccess <==> |data| <= 1518 && 0 < free && |data| <= free * r.buffSize)
  {
    var n, free := |Cut(data, r.buffSize)|, |r.bds| - |q|;
    SendMeaning(r, hw, q, data);
    CutCount(data, r.buffSize);
    if n <= free { Scale(n, free, r.buffSize); } else { Scale(free, n - 1, r.buffSize); }
  }

  lemma Scale(a: nat, b: nat, k: nat)
    requires a <= b
    ensures a * k <= b * k
  {}

  /** A frame has as many pieces as its bytes need, and at least one. */
  lemma {:induction false} CutCount(data: seq<Byte>, buffSize: nat)
    requires 0 < buffSize
    ensures var n := |Cut(data, buffSize)|;
            && (n - 1) * buffSize <= |data| <= n * buffSize
            && (data != [] ==> (n - 1) * buffSize < |data|)
    decreases |data|
  {
    if |data| > buffSize {
      var n := |Cut(data[buffSize..], buffSize)|;
      CutCount(data[buffSize..], buffSize);
      OneMore(n, buffSize);
    }
  }

  lemma OneMore(n: nat, k: nat)
    ensures (n + 1) * k == n * k + k && (n - 1) * k == n * k - k
  {}

  /** All but the last piece are full, LAST is set on the last one only, and the pieces rejoin to the frame. */
  lemma {:induction false} CutPieces(data: seq<Byte>, buffSize: nat)
    requires 0 < buffSize
    ensures var ps := Cut(data, buffSize);
            && (forall i :: 0 <= i < |ps| ==> (ps[i].last <==> i == |ps| - 1) && |ps[i].chunk| <= buffSize)
            && (forall i :: 0 <= i < |ps| - 1 ==> |ps[i].chunk| == buffSize)
            && Join(ps) == data
    decreases |data|
  {
    var ps := Cut(data, buffSize);
    if |data| > buffSize {
      var t := Cut(data[buffSize..], buffSize);
      CutPieces(data[buffSize..], buffSize);
      assert ps == [Piece(data[..buffSize], false)] + t;
      assert ps[1..] == t && data == data[..buffSize] + data[buffSize..];
    } else {
      assert ps == [Piece(data, true)] && Join(ps) == data + Join([]);
    }
  }

  /**
   * A frame has as many pieces as its bytes need and at least one; all but the last are full, LAST is
   * set on the last one only, and they rejoin to the frame.
   */
  lemma {:induction false} CutShape(data: seq<Byte>, buffSize: nat)
    requires 0 < buffSize
    ensures var ps := Cut(data, buffSize);
            && (|ps| - 1) * buffSize <= |data| <= |ps| * buffSize
            && (data != [] ==> (|ps| - 1) * buffSize < |data|)
            && (forall i :: 0 <= i < |ps| ==> (ps[i].last <==> i == |ps| - 1) && |ps[i].chunk| <= buffSize)
            && (forall i :: 0 <= i < |ps| - 1 ==> |ps[i].chunk| == buffSize)
            && Join(ps) == data
  {
    CutCount(data, buffSize);
    CutPieces(data, buffSize);
  }

  function Join(ps: seq<Piece>): seq<Byte> {
    if ps == [] then [] else ps[0].chunk + Join(ps[1..])
  }

  // ---------------------------------------------------------------- the driver calls

  class TxHandle {
    const bds: array<TxBd>
    const buffSize: nat
    var current: nat

    function View(): TxRing
      reads this, bds
    {
      TxRing(bds[..], current, buffSize)
    }

    constructor (descriptors: seq<TxBd>, buffSize: nat)
      ensures fresh(bds) && bds[..] == descriptors && this.buffSize == buffSize
    {
      bds := new TxBd[|descriptors|](i requires 0 <= i < |descriptors| => descriptors[i]);
      this.buffSize := buffSize;
      current := 0;
      new;
      assert bds[..] == descriptors;
    }

    /** ENET_SetTxBufferDescriptors, and the reset of txBdCurrent in ENET_SetHandler. */
    method SetTxBufferDescriptors()
      requires 0 < bds.Length && 0 < buffSize
      requires forall i :: 0 <= i < bds.Length ==> |bds[i].buffer| == buffSize
      modifies this, bds
      ensures Rep(View(), 0, [])
      ensures forall i :: 0 <= i < bds.Length ==> bds[i].transmitCrc && bds[i].length == 0
    {
      var count := 0;
      while count < bds.Length
        invariant 0 <= count <= bds.Length
        invariant forall i :: 0 <= i < count ==>
                    bds[i] == TxBd(0, false, i == bds.Length - 1, false, true, old(bds[i].buffer))
        invariant forall i :: count <= i < bds.Length ==> bds[i] == old(bds[i])
      {
        bds[count] := TxBd(0, false, false, false, true, bds[count].buffer);
        if count == bds.Length - 1 {
          bds[count] := bds[count].(wrap := true);
        }
        count := count + 1;
      }
      current := 0;
    }

    /** One descriptor's part of ENET_SendFrame: copy, set length and flags, step `current`. */
    method Fill(chunk: seq<Byte>, last: bool)
      requires WellFormed(View()) && |chunk| <= buffSize
      modifies this, bds
      ensures View() == Put(old(View()), chunk, last)
      ensures forall i :: 0 <= i < bds.Length ==>
                bds[i].wrap == old(bds[i].wrap) && bds[i].transmitCrc == old(bds[i].transmitCrc)
    {
      var cur := current;
      current := if bds[cur].wrap then 0 else current + 1;
      bds[cur] := bds[cur].(buffer := chunk + bds[cur].buffer[|chunk|..], length := |chunk|);
      if !last {
        bds[cur] := bds[cur].(last := false);
        bds[cur] := bds[cur].(ready := true);
      } else {
        bds[cur] := bds[cur].(ready := true, last := true);
      }
    }

    method SendFrame(data: seq<Byte>) returns (status: SendStatus)
      requires WellFormed(View())
      modifies this, bds
      ensures (View(), status) == Send(old(View()), data)
      ensures forall i :: 0 <= i < bds.Length ==>
                bds[i].wrap == old(bds[i].wrap) && bds[i].transmitCrc == old(bds[i].transmitCrc)
    {
      if |data| > MAX_FRAME_LEN {
        return SendOverLen;
      }
      if bds[current].ready {
        return SendBusy;
      }
      if buffSize >= |data| {
        Fill(data, true);
        return SendSuccess;
      }
      var len := 0;
      while true
        invariant WellFormed(View()) && View().buffSize == buffSize && 0 <= len < |data|
        invariant SendPieces(old(View()), data) == SendPieces(View(), data[len..])
        invariant forall i :: 0 <= i < bds.Length ==>
                    bds[i].wrap == old(bds[i].wrap) && bds[i].transmitCrc == old(bds[i].transmitCrc)
        decreases |data| - len
      {
        var sizeLeft := |data| - len;
        if sizeLeft > buffSize {
          assert data[len..][..buffSize] == data[len..len + buffSize];
          assert data[len..][buffSize..] == data[len + buffSize..];
          Fill(data[len..len + buffSize], false);
          len := len + buffSize;
        } else {
          Fill(data[len..], true);
          return SendSuccess;
        }
        if bds[current].ready {
          break;
        }
      }
      return SendBusy;
    }
  }
}
