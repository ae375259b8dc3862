/**
 * The receive descriptor ring of the Ethernet driver (single ring, legacy descriptors).
 *
 * A descriptor belongs to the DMA while EMPTY is set and to the driver otherwise.  The DMA cuts a
 * frame into pieces, one per descriptor; the driver finds, reads and hands back whole frames.
 */
module EnetReceive {
  import opened CircularArray
  import Multiples

  type Byte = bv8

  /** Status bits the DMA reports in the last descriptor of a frame. */
  datatype RxStatus = RxStatus(truncated: bool, overrun: bool, lengthViolation: bool, nonOctet: bool, crc: bool,
                               miss: bool, broadcast: bool, multicast: bool)

  const CLEAR := RxStatus(false, false, false, false, false, false, false, false)

  /** The bits collected in ENET_BUFFDESCRIPTOR_RX_ERR_MASK. */
  predicate IsError(s: RxStatus) {
    s.truncated || s.overrun || s.lengthViolation || s.nonOctet || s.crc
  }

  datatype RxBd = RxBd(length: nat, empty: bool, wrap: bool, last: bool, status: RxStatus, buffer: seq<Byte>)

  datatype RxRing = RxRing(bds: seq<RxBd>, current: nat, buffSize: nat)

  /** WRAP closes the ring at exactly the last descriptor; every buffer has the configured size. */
  ghost predicate WellFormed(r: RxRing) {
    && r.current < |r.bds|
    && 0 < r.buffSize
    && (forall i :: 0 <= i < |r.bds| ==> (r.bds[i].wrap <==> i == |r.bds| - 1))
    && (forall i :: 0 <= i < |r.bds| ==> |r.bds[i].buffer| == r.buffSize)
  }

  // ---------------------------------------------------------------- what the driver calls compute

  datatype SizeResult = SizeEmpty | SizeError | SizeOk(length: nat)

  /** The size scan stops at a descriptor the driver owns that ends a frame or has no data. */
  predicate Stops(bd: RxBd) {
    !bd.empty && (bd.length == 0 || bd.last)
  }

  function Verdict(length: nat, status: RxStatus): SizeResult {
    if length == 0 || IsError(status) then SizeError else SizeOk(length)
  }

  /** The first of the positions j, j+1, ... from the current descriptor at which the scan stops. */
  function FirstStop(r: RxRing, j: nat): (k: nat)
    requires r.current < |r.bds| && j <= |r.bds|
    ensures j <= k <= |r.bds|
    ensures forall i :: j <= i < k ==> !Stops(r.bds[At(r.current, i, |r.bds|)])
    ensures k < |r.bds| ==> Stops(r.bds[At(r.current, k, |r.bds|)])
    decreases |r.bds| - j
  {
    if j == |r.bds| || Stops(r.bds[At(r.current, j, |r.bds|)]) then j else FirstStop(r, j + 1)
  }

  function FrameSize(r: RxRing): SizeResult
    requires r.current < |r.bds|
  {
    var k := FirstStop(r, 0);
    if r.bds[r.current].empty || k == |r.bds| then SizeEmpty
    else var bd := r.bds[At(r.current, k, |r.bds|)]; Verdict(bd.length, bd.status)
  }

  /** A descriptor's bits of the control word, and the word. */
  function Flag(b: bool, mask: bv16): bv16 { if b then mask else 0 }

  function StatusBits(s: RxStatus): bv16 {
    Flag(s.truncated, 0x0001) | Flag(s.overrun, 0x0002) | Flag(s.crc, 0x0004) | Flag(s.nonOctet, 0x0010)
    | Flag(s.lengthViolation, 0x0020) | Flag(s.multicast, 0x0040) | Flag(s.broadcast, 0x0080) | Flag(s.miss, 0x0100)
  }

  function Control(bd: RxBd): bv16 {
    Flag(bd.last, 0x0800) | Flag(bd.wrap, 0x2000) | Flag(bd.empty, 0x8000) | StatusBits(bd.status)
  }

  /** What the driver's masks say about a control word: RX_ERR, LAST with EMPTY clear, and WRAP. */
  lemma ControlMasks(bd: RxBd)
    ensures Control(bd) & 0x0037 != 0 <==> IsError(bd.status)
    ensures Control(bd) & 0x8800 == 0x0800 <==> !bd.empty && bd.last
    ensures Control(bd) & 0x8000 != 0 <==> bd.empty
    ensures Control(bd) & 0x2000 != 0 <==> bd.wrap
    ensures Control(Released(bd)) == (Control(bd) & 0x2000) | 0x8000
  {}

  /** The size of a frame is reported if and only if no bit of the error mask is set. */
  lemma GoodMeaning(f: Frame)
    ensures Good(f) <==> f.data != [] && StatusBits(f.status) & 0x0037 == 0
  {}

  /** Clears every bit but WRAP and hands the descriptor back to the DMA. */
  function Released(bd: RxBd): RxBd {
    bd.(empty := true, last := false, status := CLEAR)
  }

  function Release(r: RxRing): (r': RxRing)
    requires WellFormed(r)
    ensures WellFormed(r') && |r'.bds| == |r.bds| && r'.buffSize == r.buffSize
  {
    r.(bds := r.bds[r.current := Released(r.bds[r.current])], current := Next(r.current, |r.bds|))
  }

  /** A read without data: release up to a LAST descriptor, at most `n` of them. */
  function Discard(r: RxRing, n: nat): (r': RxRing)
    requires WellFormed(r) && 0 < n
    ensures WellFormed(r') && |r'.bds| == |r.bds| && r'.buffSize == r.buffSize
    decreases n
  {
    if r.bds[r.current].last || n == 1 then Release(r) else Discard(Release(r), n - 1)
  }

  datatype ReadStatus = ReadSuccess | ReadFail

  function Take(s: seq<Byte>, n: int): seq<Byte> {
    if 0 <= n <= |s| then s[..n] else s
  }

  /** A read with data: the ring, the status and the bytes copied after `acc` was already copied. */
  function ReadFrom(r: RxRing, length: nat, acc: seq<Byte>): (res: (RxRing, ReadStatus, seq<Byte>))
    requires WellFormed(r)
    ensures WellFormed(res.0) && |res.0.bds| == |r.bds| && res.0.buffSize == r.buffSize
    decreases if |acc| < length then length - |acc| else 0
  {
    var bd := r.bds[r.current];
    if bd.last then
      if length == bd.length then (Release(r), ReadSuccess, acc + Take(bd.buffer, length - |acc|))
      else (Release(r), ReadFail, acc)
    else if length <= |acc| then (r, ReadFail, acc)
    else ReadFrom(Release(r), length, acc + bd.buffer)
  }

  /** Every copy of that read stays inside its descriptor's buffer and a user buffer of `capacity` bytes. */
  ghost predicate CopiesFit(r: RxRing, length: nat, offset: nat, capacity: nat)
    requires WellFormed(r)
    decreases if offset < length then length - offset else 0
  {
    var bd := r.bds[r.current];
    if bd.last then length == bd.length ==> offset <= length <= offset + r.buffSize && length <= capacity
    else offset < length ==> offset + r.buffSize <= capacity
                             && CopiesFit(Release(r), length, offset + r.buffSize, capacity)
  }

  // ---------------------------------------------------------------- what a ring means: a queue of pieces

  datatype Frame = Frame(data: seq<Byte>, status: RxStatus)

  /** One descriptor's share of a frame; the last one carries the length and status of the whole frame. */
  datatype Piece = Piece(length: nat, last: bool, status: RxStatus, chunk: seq<Byte>)

  /** The frames the driver must deliver: received without error and not empty. */
  predicate Good(f: Frame) {
    f.data != [] && !IsError(f.status)
  }

  function Cut(rest: seq<Byte>, total: nat, status: RxStatus, buffSize: nat): (ps: seq<Piece>)
    requires 0 < buffSize
    ensures ps != []
    decreases |rest|
  {
    if |rest| <= buffSize then [Piece(total, true, status, rest)]
    else [Piece(buffSize, false, CLEAR, rest[..buffSize])] + Cut(rest[buffSize..], total, status, buffSize)
  }

  function Pieces(f: Frame, buffSize: nat): (ps: seq<Piece>)
    requires 0 < buffSize
    ensures ps != []
  {
    Cut(f.data, |f.data|, f.status, buffSize)
  }

  ghost predicate Holds(bd: RxBd, p: Piece) {
    && !bd.empty && bd.last == p.last && bd.length == p.length && bd.status == p.status
    && p.chunk <= bd.buffer
  }

  /**
   * The ownership invariant.  The driver owns the contiguous arc of |q| descriptors that starts at
   * the current one, and they hold the pieces q in order; all others are EMPTY, without LAST or status.
   */
  ghost predicate Rep(r: RxRing, q: seq<Piece>) {
    && WellFormed(r)
    && |q| <= |r.bds|
    && (forall j :: 0 <= j < |q| ==> Holds(r.bds[At(r.current, j, |r.bds|)], q[j]))
    && (forall j :: |q| <= j < |r.bds| ==>
          var bd := r.bds[At(r.current, j, |r.bds|)]; bd.empty && !bd.last && bd.status == CLEAR)
  }

  /** Where the DMA writes next: just past the driver's arc. */
  function DmaIndex(r: RxRing, owned: nat): nat
    requires r.current < |r.bds| && owned <= |r.bds|
  {
    At(r.current, owned, |r.bds|)
  }

  /** One DMA write of a piece into descriptor `d`. */
  function Store(r: RxRing, d: nat, p: Piece): RxRing
    requires d < |r.bds| && |p.chunk| <= |r.bds[d].buffer|
  {
    var bd := r.bds[d];
    r.(bds := r.bds[d := RxBd(p.length, false, bd.wrap, p.last, p.status, p.chunk + bd.buffer[|p.chunk|..])])
  }

  /** The DMA may write exactly when its descriptor is EMPTY, and then it appends a piece to the queue. */
  lemma StoreAppends(r: RxRing, q: seq<Piece>, p: Piece)
    requires Rep(r, q) && |p.chunk| <= r.buffSize
    ensures r.bds[DmaIndex(r, |q|)].empty <==> |q| < |r.bds|
    ensures |q| < |r.bds| ==> Rep(Store(r, DmaIndex(r, |q|), p), q + [p])
  {
    var n := |r.bds|;
    if |q| < n {
      var r' := Store(r, DmaIndex(r, |q|), p);
      forall j | 0 <= j < n && j != |q|
        ensures r'.bds[At(r.current, j, n)] == r.bds[At(r.current, j, n)]
      {}
    } else {
      assert Holds(r.bds[At(r.current, 0, n)], q[0]);
    }
  }

  /** Releasing the current descriptor removes the front piece and nothing else. */
  lemma ReleasePops(r: RxRing, p: Piece, q: seq<Piece>)
    requires Rep(r, [p] + q)
    ensures Rep(Release(r), q)
    ensures Holds(r.bds[r.current], p)
    ensures DmaIndex(Release(r), |q|) == DmaIndex(r, |q| + 1)
  {
    var r', n := Release(r), |r.bds|;
    assert Holds(r.bds[At(r.current, 0, n)], ([p] + q)[0]);
    forall j | 0 <= j < n
      ensures j < |q| ==> Holds(r'.bds[At(r'.current, j, n)], q[j])
      ensures j >= |q| ==> var bd := r'.bds[At(r'.current, j, n)]; bd.empty && !bd.last && bd.status == CLEAR
    {
      assert At(r'.current, j, n) == At(r.current, j + 1, n);
      if j < |q| {
        assert Holds(r.bds[At(r.current, j + 1, n)], ([p] + q)[j + 1]);
      }
    }
  }

  /** No piece of a cut frame stops the scan before the last one. */
  lemma {:induction false} CutShape(rest: seq<Byte>, total: nat, status: RxStatus, buffSize: nat)
    requires 0 < buffSize
    ensures var ps := Cut(rest, total, status, buffSize);
            && ps[|ps| - 1].last && ps[|ps| - 1].length == total && ps[|ps| - 1].status == status
            && (forall i :: 0 <= i < |ps| - 1 ==> !ps[i].last && ps[i].length == buffSize)
            && (forall i :: 0 <= i < |ps| ==> |ps[i].chunk| <= buffSize)
    decreases |rest|
  {
    if |rest| > buffSize {
      CutShape(rest[buffSize..], total, status, buffSize);
      var ps, t := Cut(rest, total, status, buffSize), Cut(rest[buffSize..], total, status, buffSize);
      assert ps == [ps[0]] + t;
      forall i | 0 < i < |ps| ensures ps[i] == t[i - 1] {}
    }
  }

  /** A frame takes as many descriptors as its bytes need, and at least one. */
  lemma {:induction false} CutCount(rest: seq<Byte>, total: nat, status: RxStatus, buffSize: nat)
    requires 0 < buffSize
    ensures var n := |Cut(rest, total, status, buffSize)|;
            && (n - 1) * buffSize <= |rest| <= n * buffSize
            && (rest != [] ==> (n - 1) * buffSize < |rest|)
    decreases |rest|
  {
    if |rest| > buffSize {
      CutCount(rest[buffSize..], total, status, buffSize);
      var n := |Cut(rest[buffSize..], total, status, buffSize)|;
      assert n * buffSize == (n - 1) * buffSize + buffSize;
      assert (n + 1) * buffSize == n * buffSize + buffSize;
    }
  }

  /** The size call sees a complete front frame, and judges it by its own length and status. */
  lemma FrameSizeComplete(r: RxRing, f: Frame, rest: seq<Piece>)
    requires 0 < r.buffSize && Rep(r, Pieces(f, r.buffSize) + rest)
    ensures FrameSize(r) == if Good(f) then SizeOk(|f.data|) else SizeError
  {
    var ps, n := Pieces(f, r.buffSize), |r.bds|;
    var q := ps + rest;
    CutShape(f.data, |f.data|, f.status, r.buffSize);
    forall j | 0 <= j < |ps|
      ensures Stops(r.bds[At(r.current, j, n)]) <==> j == |ps| - 1
    {
      assert Holds(r.bds[At(r.current, j, n)], q[j]) && q[j] == ps[j];
    }
    assert Holds(r.bds[At(r.current, |ps| - 1, n)], q[|ps| - 1]);
    assert At(r.current, 0, n) == r.current;
  }

  /** With only part of a frame in the ring the size call says Empty, even when the ring is full. */
  lemma FrameSizeIncomplete(r: RxRing, q: seq<Piece>)
    requires Rep(r, q) && forall j :: 0 <= j < |q| ==> !q[j].last && 0 < q[j].length
    ensures FrameSize(r) == SizeEmpty
  {
    var n := |r.bds|;
    forall j | 0 <= j < n ensures !Stops(r.bds[At(r.current, j, n)]) {
      if j < |q| { assert Holds(r.bds[At(r.current, j, n)], q[j]); }
    }
  }

  /** The descriptor of the front piece of a cut frame, and what is left once it is released. */
  lemma {:induction false} PopPiece(r: RxRing, bytes: seq<Byte>, total: nat, status: RxStatus, rest: seq<Piece>)
    requires 0 < r.buffSize && Rep(r, Cut(bytes, total, status, r.buffSize) + rest)
    ensures |bytes| <= r.buffSize ==>
              && Holds(r.bds[r.current], Piece(total, true, status, bytes)) && Rep(Release(r), rest)
              && DmaIndex(Release(r), |rest|) == DmaIndex(r, |Cut(bytes, total, status, r.buffSize)| + |rest|)
    ensures |bytes| > r.buffSize ==>
              && Holds(r.bds[r.current], Piece(r.buffSize, false, CLEAR, bytes[..r.buffSize]))
              && var tail := Cut(bytes[r.buffSize..], total, status, r.buffSize);
              && |tail| + 1 == |Cut(bytes, total, status, r.buffSize)| && Rep(Release(r), tail + rest)
              && DmaIndex(Release(r), |tail| + |rest|) == DmaIndex(r, |tail| + 1 + |rest|)
  {
    var ps := Cut(bytes, total, status, r.buffSize);
    assert ps + rest == [ps[0]] + (ps[1..] + rest);
    ReleasePops(r, ps[0], ps[1..] + rest);
    if |bytes| <= r.buffSize {
      assert ps[1..] + rest == rest;
    } else {
      assert ps[1..] == Cut(bytes[r.buffSize..], total, status, r.buffSize);
    }
  }

  lemma DiscardGoesOn(r: RxRing, n: nat)
    requires WellFormed(r) && !r.bds[r.current].last && 1 < n
    ensures Discard(r, n) == Discard(Release(r), n - 1)
  {}

  lemma DiscardEnds(r: RxRing, n: nat)
    requires WellFormed(r) && r.bds[r.current].last && 0 < n
    ensures Discard(r, n) == Release(r)
  {}

  /** Discarding removes exactly the front frame. */
  lemma {:induction false} DiscardPopsFrame(r: RxRing, bytes: seq<Byte>, total: nat, status: RxStatus,
                                            rest: seq<Piece>, n: nat)
    requires 0 < r.buffSize && Rep(r, Cut(bytes, total, status, r.buffSize) + rest)
    requires |Cut(bytes, total, status, r.buffSize)| <= n
    ensures var r' := Discard(r, n);
            Rep(r', rest) &&
            DmaIndex(r', |rest|) == DmaIndex(r, |Cut(bytes, total, status, r.buffSize)| + |rest|)
    decreases |bytes|
  {
    PopPiece(r, bytes, total, status, rest);
    if |bytes| > r.buffSize {
      DiscardPopsFrame(Release(r), bytes[r.buffSize..], total, status, rest, n - 1);
      DiscardGoesOn(r, n);
    } else {
      DiscardEnds(r, n);
    }
  }

  /** A read that meets a descriptor without LAST before its length is reached copies it whole and goes on. */
  lemma ReadGoesOn(r: RxRing, length: nat, acc: seq<Byte>)
    requires WellFormed(r) && !r.bds[r.current].last && |acc| < length
    ensures ReadFrom(r, length, acc) == ReadFrom(Release(r), length, acc + r.bds[r.current].buffer)
  {}

  /** A read that meets LAST with its own length copies what is missing. */
  lemma ReadEnds(r: RxRing, acc: seq<Byte>, bytes: seq<Byte>)
    requires WellFormed(r) && r.bds[r.current].last && r.bds[r.current].length == |acc| + |bytes|
    requires bytes <= r.bds[r.current].buffer
    ensures ReadFrom(r, |acc| + |bytes|, acc) == (Release(r), ReadSuccess, acc + bytes)
  {
    assert Take(r.bds[r.current].buffer, |bytes|) == bytes;
  }

  /** Reading removes exactly the front frame and copies exactly its bytes. */
  lemma {:induction false} ReadPopsFrame(r: RxRing, bytes: seq<Byte>, acc: seq<Byte>, total: nat, status: RxStatus,
                                         rest: seq<Piece>)
    requires 0 < r.buffSize && bytes != [] && total == |acc| + |bytes|
    requires Rep(r, Cut(bytes, total, status, r.buffSize) + rest)
    ensures var (r', st, data) := ReadFrom(r, total, acc);
            Rep(r', rest) && st == ReadSuccess && data == acc + bytes &&
            DmaIndex(r', |rest|) == DmaIndex(r, |Cut(bytes, total, status, r.buffSize)| + |rest|)
    decreases |bytes|
  {
    PopPiece(r, bytes, total, status, rest);
    var bd := r.bds[r.current];
    if |bytes| <= r.buffSize {
      ReadEnds(r, acc, bytes);
    } else {
      var tail := bytes[r.buffSize..];
      assert bd.buffer == bytes[..r.buffSize];
      Regroup(acc, bd.buffer, tail);
      assert bytes == bd.buffer + tail;
      ReadGoesOn(r, total, acc);
      ReadPopsFrame(Release(r), tail, acc + bd.buffer, total, status, rest);
    }
  }

  lemma {:induction false} Regroup(a: seq<Byte>, b: seq<Byte>, c: seq<Byte>)
    ensures (a + b) + c == a + (b + c)
  {}

  /** All copies of that read stay within a user buffer of the frame's length. */
  lemma {:induction false} ReadFits(r: RxRing, bytes: seq<Byte>, offset: nat, status: RxStatus, rest: seq<Piece>)
    requires 0 < r.buffSize && bytes != []
    requires Rep(r, Cut(bytes, offset + |bytes|, status, r.buffSize) + rest)
    ensures CopiesFit(r, offset + |bytes|, offset, offset + |bytes|)
    decreases |bytes|
  {
    PopPiece(r, bytes, offset + |bytes|, status, rest);
    if |bytes| > r.buffSize {
      ReadFits(Release(r), bytes[r.buffSize..], offset + r.buffSize, status, rest);
    }
  }

  lemma {:induction false} ReadFrontFits(r: RxRing, f: Frame, rest: seq<Piece>)
    requires 0 < r.buffSize && Good(f) && Rep(r, Pieces(f, r.buffSize) + rest)
    ensures CopiesFit(r, |f.data|, 0, |f.data|)
  {
    var none: seq<Byte> := [];
    assert |none| + |f.data| == |f.data|;
    ReadFits(r, f.data, |none|, f.status, rest);
  }

  /** A read of a whole good frame with its own length. */
  lemma {:induction false} ReadFront(r: RxRing, f: Frame, rest: seq<Piece>)
    requires 0 < r.buffSize && Good(f) && Rep(r, Pieces(f, r.buffSize) + rest)
    ensures var (r', st, data) := ReadFrom(r, |f.data|, []);
            && Rep(r', rest) && st == ReadSuccess && data == f.data
            && DmaIndex(r', |rest|) == DmaIndex(r, |Pieces(f, r.buffSize)| + |rest|)
    ensures CopiesFit(r, |f.data|, 0, |f.data|)
  {
    var none: seq<Byte> := [];
    assert |none| + |f.data| == |f.data| && none + f.data == f.data;
    ReadPopsFrame(r, f.data, none, |f.data|, f.status, rest);
    ReadFrontFits(r, f, rest);
  }

  lemma ModStep(x: nat, k: nat)
    requires 0 < k <= x
    ensures (x - k) % k == x % k
  {
    Multiples.QuotientShift(x - k, 1, k);
  }

  lemma {:induction false} ShortReads(r: RxRing, bytes: seq<Byte>, offset: nat, status: RxStatus,
                                      rest: seq<Piece>, length: nat)
    requires 0 < r.buffSize && Rep(r, Cut(bytes, offset + |bytes|, status, r.buffSize) + rest)
    ensures CopiesFit(r, length, offset, length) <==>
            offset >= length || (length - offset) % r.buffSize == 0
            || length - offset >= (|Cut(bytes, offset + |bytes|, status, r.buffSize)| - 1) * r.buffSize
    decreases |bytes|
  {
    var b := r.buffSize;
    PopPiece(r, bytes, offset + |bytes|, status, rest);
    if |bytes| > b && offset < length {
      var n := |Cut(bytes[b..], offset + |bytes|, status, b)|;
      ShortReads(Release(r), bytes[b..], offset + b, status, rest, length);
      ShortStep(length - offset, b, n);
    }
  }

  /** One full buffer less. */
  lemma ShortStep(left: nat, b: nat, n: nat)
    requires 0 < b && 0 < left && 0 < n
    ensures left < b ==> left % b != 0 && left < n * b
    ensures left >= b ==> (left - b) % b == left % b && (left - b >= (n - 1) * b <==> left >= n * b)
    ensures left == b ==> left % b == 0
  {
    assert (n - 1) * b == n * b - b;
    Multiples.MulLe(1, n, b);
    if left >= b { ModStep(left, b); }
  }

  lemma ZeroOffset(length: nat, b: nat)
    requires 0 < b
    ensures length == 0 ==> length % b == 0
  {}

  /**
   * A read with a length of the caller's choice stays within a buffer of that length if and only if the
   * length ends with a buffer or reaches into the last piece of the front frame: every piece but the last
   * is copied as a whole buffer, however few bytes are left.
   */
  lemma {:induction false} ShortReadFits(r: RxRing, f: Frame, rest: seq<Piece>, length: nat)
    requires 0 < r.buffSize && Rep(r, Pieces(f, r.buffSize) + rest)
    ensures CopiesFit(r, length, 0, length) <==>
            length % r.buffSize == 0 || length >= (|Pieces(f, r.buffSize)| - 1) * r.buffSize
  {
    var none: seq<Byte> := [];
    assert |none| + |f.data| == |f.data|;
    ShortReads(r, f.data, |none|, f.status, rest, length);
    ZeroOffset(length, r.buffSize);
  }

  /** A length other than the front frame's own never passes for a successful read. */
  lemma {:induction false} WrongLengthFails(r: RxRing, bytes: seq<Byte>, total: nat, acc: seq<Byte>, status: RxStatus,
                                            rest: seq<Piece>, length: nat)
    requires 0 < r.buffSize
    requires Rep(r, Cut(bytes, total, status, r.buffSize) + rest) && length != total
    ensures ReadFrom(r, length, acc).1 == ReadFail
    decreases |bytes|
  {
    PopPiece(r, bytes, total, status, rest);
    if |bytes| > r.buffSize && |acc| < length {
      WrongLengthFails(Release(r), bytes[r.buffSize..], total, acc + r.bds[r.current].buffer, status, rest, length);
    }
  }

  // ---------------------------------------------------------------- the driver calls

  class RxHandle {
    const bds: array<RxBd>
    const buffSize: nat
    var current: nat

    function View(): RxRing
      reads this, bds
    {
      RxRing(bds[..], current, buffSize)
    }

    /** Allocates descriptors over the given buffers; their control fields are not yet initialised. */
    constructor (descriptors: seq<RxBd>, buffSize: nat)
      ensures fresh(bds) && bds[..] == descriptors && this.buffSize == buffSize
    {
      bds := new RxBd[|descriptors|](i requires 0 <= i < |descriptors| => descriptors[i]);
      this.buffSize := buffSize;
      current := 0;
      new;
      assert bds[..] == descriptors;
    }

    /** ENET_SetRxBufferDescriptors, and the reset of rxBdCurrent in ENET_SetHandler. */
    method SetRxBufferDescriptors()
      requires 0 < bds.Length && 0 < buffSize
      requires forall i :: 0 <= i < bds.Length ==> |bds[i].buffer| == buffSize
      modifies this, bds
      ensures Rep(View(), [])
      ensures forall i :: 0 <= i < bds.Length ==> bds[i].length == 0 && bds[i].buffer == old(bds[i].buffer)
    {
      var count := 0;
      while count < bds.Length
        invariant 0 <= count <= bds.Length
        invariant forall i :: 0 <= i < count ==>
                    bds[i] == RxBd(0, true, i == bds.Length - 1, false, CLEAR, old(bds[i].buffer))
        invariant forall i :: count <= i < bds.Length ==> bds[i] == old(bds[i])
      {
        bds[count] := RxBd(0, true, false, false, CLEAR, bds[count].buffer);
        if count == bds.Length - 1 {
          bds[count] := bds[count].(wrap := true);
        }
        count := count + 1;
      }
      current := 0;
    }

    method GetRxFrameSize() returns (result: SizeResult)
      requires WellFormed(View())
      ensures result == FrameSize(View())
    {
      if bds[current].empty {
        return SizeEmpty;
      }
      var cur := current;
      ghost var j := 0;
      while true
        invariant 0 <= j < bds.Length && cur == At(current, j, bds.Length)
        invariant FirstStop(View(), 0) == FirstStop(View(), j)
        decreases bds.Length - j
      {
        var bd := bds[cur];
        if !bd.empty && bd.length == 0 {
          return SizeError;
        }
        if !bd.empty && bd.last {
          if IsError(bd.status) {
            return SizeError;
          }
          return SizeOk(bd.length);
        }
        cur := if bd.wrap then 0 else cur + 1;
        j := j + 1;
        if cur == current {
          break;
        }
      }
      return SizeEmpty;
    }

    method UpdateReadBuffers()
      requires WellFormed(View())
      modifies this, bds
      ensures View() == Release(old(View()))
    {
      bds[current] := bds[current].(last := false, status := CLEAR);
      bds[current] := bds[current].(empty := true);
      current := if bds[current].wrap then 0 else current + 1;
    }

    /**
     * ENET_ReadFrame; a null `data` only updates the descriptors.  `overran` is set where the C code would
     * copy beyond a buffer, which no return value of its own tells.
     */
    method ReadFrame(data: array?<Byte>, length: nat) returns (status: ReadStatus, overran: bool)
      requires WellFormed(View()) && data as object? != bds
      modifies this, bds, data
      ensures overran <==> data != null && !old(CopiesFit(View(), length, 0, data.Length))
      ensures data == null ==> status == ReadSuccess && View() == Discard(old(View()), bds.Length)
      ensures data != null && !overran ==>
                var (r, st, bytes) := ReadFrom(old(View()), length, []);
                && View() == r && status == st && |bytes| <= data.Length
                && data[..] == bytes + old(data[..])[|bytes|..]
    {
      if data == null {
        DiscardFrame();
        status, overran := ReadSuccess, false;
      } else {
        status, overran := CopyFrame(data, length);
      }
    }

    /** The branch of ENET_ReadFrame without a data buffer. */
    method DiscardFrame()
      requires WellFormed(View())
      modifies this, bds
      ensures View() == Discard(old(View()), bds.Length)
    {
      var start := current;
      ghost var n := bds.Length;
      while true
        invariant WellFormed(View()) && 0 < n <= bds.Length
        invariant start == At(current, n, bds.Length)
        invariant Discard(old(View()), bds.Length) == Discard(View(), n)
        decreases n
      {
        var last := bds[current].last;
        UpdateReadBuffers();
        if last || current == start {
          break;
        }
        n := n - 1;
      }
    }

    /** The last descriptor of that branch: its length must be the one asked for. */
    method CopyLast(data: array<Byte>, offset: nat, length: nat, ghost d0: seq<Byte>) returns (status: ReadStatus)
      requires WellFormed(View()) && data as object != bds && bds[current].last
      requires |d0| == data.Length && offset <= data.Length && data[offset..] == d0[offset..]
      requires CopiesFit(View(), length, offset, data.Length)
      modifies this, bds, data
      ensures var (r, st, bytes) := ReadFrom(old(View()), length, old(data[..offset]));
              && View() == r && status == st && |bytes| <= data.Length && data[..] == bytes + d0[|bytes|..]
    {
      var bd := bds[current];
      ghost var copied := data[..offset];
      if length == bd.length {
        CopyInto(data, offset, bd.buffer[..length - offset], d0);
        UpdateReadBuffers();
        return ReadSuccess;
      }
      UpdateReadBuffers();
      assert data[..] == copied + d0[offset..];
      return ReadFail;
    }

    /** The branch of ENET_ReadFrame with a data buffer. */
    method CopyFrame(data: array<Byte>, length: nat) returns (status: ReadStatus, overran: bool)
      requires WellFormed(View()) && data as object != bds
      modifies this, bds, data
      ensures overran <==> !old(CopiesFit(View(), length, 0, data.Length))
      ensures !overran ==>
              var (r, st, bytes) := ReadFrom(old(View()), length, []);
              && View() == r && status == st && |bytes| <= data.Length
              && data[..] == bytes + old(data[..])[|bytes|..]
    {
      ghost var r0, d0 := View(), data[..];
      var offset := 0;
      while true
        invariant WellFormed(View()) && View().buffSize == buffSize && 0 <= offset <= data.Length
        invariant data[offset..] == d0[offset..]
        invariant CopiesFit(r0, length, 0, data.Length) <==> CopiesFit(View(), length, offset, data.Length)
        invariant ReadFrom(r0, length, []) == ReadFrom(View(), length, data[..offset])
        decreases if offset < length then length - offset else 0
      {
        var bd := bds[current];
        ghost var copied := data[..offset];
        if bd.last {
          // the last descriptor ends the loop, whatever its length says
          overran := length == bd.length && !(offset <= length <= offset + buffSize && length <= data.Length);
          if overran {
            return ReadFail, true;
          }
          status := CopyLast(data, offset, length, d0);
          return;
        }
        if length <= offset {
          assert data[..] == copied + d0[offset..];
          return ReadFail, false;
        }
        if offset + buffSize > data.Length {
          return ReadFail, true;
        }
        CopyInto(data, offset, bd.buffer, d0);
        assert data[..offset + buffSize] == copied + bd.buffer;
        offset := offset + buffSize;
        UpdateReadBuffers();
      }
    }
  }

  /** memcpy into a user buffer whose bytes from `offset` on are still those of `before`. */
  method CopyInto(data: array<Byte>, offset: nat, bytes: seq<Byte>, ghost before: seq<Byte>)
    requires offset + |bytes| <= data.Length && |before| == data.Length
    requires data[offset..] == before[offset..]
    modifies data
    ensures data[..] == old(data[..offset]) + bytes + before[offset + |bytes|..]
  {
    forall i | 0 <= i < |bytes| {
      data[offset + i] := bytes[i];
    }
    forall i | offset + |bytes| <= i < data.Length ensures data[i] == before[i] {
      assert data[i] == old(data[offset..])[i - offset];
    }
  }
}
