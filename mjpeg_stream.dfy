/**
 * The MJPEG streaming layer: each JPEG frame taken from the frame ring is
 * written to the client socket as one part of a multipart/x-mixed-replace
 * response (part header, JPEG bytes, CRLF), and the frame is released.
 *
 * The socket is modelled by what it has accepted so far and by how it will
 * take the coming writes (all of a buffer, a part of it, or an error);
 * those outcomes are supplied by the environment.  Releasing memory is
 * modelled as a log of the blocks handed to `free`.
 */
module MjpegStream {
  import opened Base
  import opened FrameRing

  /** One more than the largest `unsigned long` (64 bits). */
  const ULONG_LIMIT: nat := 0x1_0000_0000_0000_0000

  /** Size of the buffer the part header is formatted into. */
  const HEADER_BUFFER: nat := 256

  const CRLF: seq<byte> := [13, 10]

  // ---------------------------------------------------------------------
  // The part header
  // ---------------------------------------------------------------------

  predicate IsDigit(b: byte) { 48 <= b <= 57 }

  /** `n` in decimal, most significant digit first, without leading zeros (`%lu`). */
  function Decimal(n: nat): (r: seq<byte>)
    ensures 1 <= |r|
    ensures forall i :: 0 <= i < |r| ==> IsDigit(r[i])
    ensures n > 0 ==> r[0] != 48
  {
    if n < 10 then [48 + n] else Decimal(n / 10) + [48 + n % 10]
  }

  /** The value of a string of decimal digits. */
  function ParseDecimal(s: seq<byte>): nat
    requires forall i :: 0 <= i < |s| ==> IsDigit(s[i])
  {
    if s == [] then 0
    else
      assert IsDigit(s[|s| - 1]);
      10 * ParseDecimal(s[..|s| - 1]) + (s[|s| - 1] as int - 48)
  }

  /** Reading the digits back gives the number that was printed. */
  lemma {:induction false} DecimalRoundTrip(n: nat)
    ensures ParseDecimal(Decimal(n)) == n
  {
    if n >= 10 {
      var r := Decimal(n);
      DecimalRoundTrip(n / 10);
      assert r[..|r| - 1] == Decimal(n / 10);
    }
  }

  function Pow10(k: nat): (p: nat)
    ensures p >= 1
  {
    if k == 0 then 1 else 10 * Pow10(k - 1)
  }

  /** A number below 10^k has at most k digits. */
  lemma {:induction false} DecimalWidth(n: nat, k: nat)
    requires 1 <= k && n < Pow10(k)
    ensures |Decimal(n)| <= k
  {
    if n >= 10 {
      assert Pow10(1) == 10;
      DecimalWidth(n / 10, k - 1);
    }
  }

  const BOUNDARY_LINE: seq<byte> := Ascii("--frame\r\n")
  const CONTENT_TYPE_LINE: seq<byte> := Ascii("Content-Type: image/jpeg\r\n")
  const CONTENT_LENGTH_FIELD: seq<byte> := Ascii("Content-Length: ")
  const HEADER_END: seq<byte> := Ascii("\r\n\r\n")

  /** Everything in a part header before the length digits. */
  function HeaderLead(): (r: seq<byte>)
    ensures |r| == 51
  {
    BOUNDARY_LINE + CONTENT_TYPE_LINE + CONTENT_LENGTH_FIELD
  }

  /** The part header announcing a JPEG of `size` bytes. */
  function PartHeader(size: nat): (r: seq<byte>)
    ensures |r| == 55 + |Decimal(size)|
    ensures r[..9] == BOUNDARY_LINE && r[|r| - 4..] == HEADER_END
  {
    HeaderLead() + Decimal(size) + HEADER_END
  }

  /**
   * A client's reading of a part header: the fixed lines, the digits, the
   * blank line; anything else is rejected.
   */
  function ContentLength(h: seq<byte>): (r: Option<nat>)
    ensures r.Some? ==> |h| > 55
  {
    var lead := HeaderLead();
    if |h| > 55 && h[..51] == lead && h[|h| - 4..] == HEADER_END
       && forall i :: 51 <= i < |h| - 4 ==> IsDigit(h[i])
    then Some(ParseDecimal(h[51..|h| - 4]))
    else None
  }

  /** A client reading the header recovers the size the server announced. */
  lemma HeaderRoundTrip(size: nat)
    ensures ContentLength(PartHeader(size)) == Some(size)
  {
    var h := PartHeader(size);
    var d := Decimal(size);
    assert h[..51] == HeaderLead();
    assert h[51..|h| - 4] == d;
    DecimalRoundTrip(size);
  }

  /**
   * Every `unsigned long` size fits: the header is at most 75 bytes, well
   * inside the 256-byte buffer, so formatting it never truncates.
   */
  lemma HeaderFits(size: nat)
    requires size < ULONG_LIMIT
    ensures |PartHeader(size)| <= 75 < HEADER_BUFFER
  {
    assert Pow10(5) == 100_000;
    assert Pow10(10) == 10_000_000_000;
    assert Pow10(20) == 100_000_000_000_000_000_000;
    DecimalWidth(size, 20);
  }

  /** Different sizes give different headers. */
  lemma HeaderInjective(a: nat, b: nat)
    requires PartHeader(a) == PartHeader(b)
    ensures a == b
  {
    HeaderRoundTrip(a);
    HeaderRoundTrip(b);
  }

  // ---------------------------------------------------------------------
  // The socket
  // ---------------------------------------------------------------------

  /** How the peer takes one write call. */
  datatype Outcome =
    | Full            // all of the buffer
    | Short(n: nat)   // at most n bytes
    | Fail            // the call fails (returns -1)

  /** The value `write` returns for a buffer of `len` bytes. */
  function Taken(o: Outcome, len: nat): (r: int)
    ensures -1 <= r <= len
    ensures r == -1 <==> o == Fail
  {
    match o
    case Full => len
    case Short(n) => if n < len then n else len
    case Fail => -1
  }

  /** The outcome of the next call; with nothing scheduled the peer takes everything. */
  function Next(pending: seq<Outcome>): Outcome
  {
    if pending == [] then Full else pending[0]
  }

  function Rest(pending: seq<Outcome>): (r: seq<Outcome>)
    ensures |r| == if pending == [] then 0 else |pending| - 1
  {
    if pending == [] then [] else pending[1..]
  }

  class Socket {
    /** The bytes the peer has accepted, in order. */
    var sent: seq<byte>
    /** How the peer will take the coming write calls. */
    var pending: seq<Outcome>

    constructor (script: seq<Outcome>)
      ensures sent == [] && pending == script
    {
      sent, pending := [], script;
    }

    /** `write(fd, buf, len)`: returns the number of bytes accepted, or -1. */
    method Write(buf: seq<byte>) returns (written: int)
      modifies this
      ensures written == Taken(Next(old(pending)), |buf|)
      ensures pending == Rest(old(pending))
      ensures sent == old(sent) + if written < 0 then [] else buf[..written]
    {
      written := Taken(Next(pending), |buf|);
      if written >= 0 {
        sent := sent + buf[..written];
      }
      pending := Rest(pending);
    }
  }

  /** What a run of writes, stopping at the first that is not complete, leaves behind. */
  datatype Transmission = Transmission(complete: nat, bytes: seq<byte>, rest: seq<Outcome>)

  /**
   * Write `pieces` one call each, in order, stopping after the first call
   * that does not take its whole piece.
   */
  function Transmit(pieces: seq<seq<byte>>, pending: seq<Outcome>): (t: Transmission)
    ensures t.complete <= |pieces|
  {
    if pieces == [] then Transmission(0, [], pending)
    else
      var w := Taken(Next(pending), |pieces[0]|);
      var got := if w < 0 then [] else pieces[0][..w];
      if w == |pieces[0]| then
        var t := Transmit(pieces[1..], Rest(pending));
        Transmission(t.complete + 1, got + t.bytes, t.rest)
      else Transmission(0, got, Rest(pending))
  }

  /**
   * The peer always receives a prefix of the pieces' bytes; all of them
   * exactly when every call was complete, and strictly fewer otherwise
   * (when no piece is empty).
   */
  lemma {:induction false} TransmitIsPrefix(pieces: seq<seq<byte>>, pending: seq<Outcome>)
    ensures var t := Transmit(pieces, pending);
            && |t.bytes| <= |Concat(pieces)|
            && t.bytes == Concat(pieces)[..|t.bytes|]
            && (t.complete == |pieces| ==> t.bytes == Concat(pieces))
            && (t.complete < |pieces| && (forall i :: 0 <= i < |pieces| ==> pieces[i] != []) ==>
                  |t.bytes| < |Concat(pieces)|)
  {
    if pieces != [] {
      var p := pieces[0];
      var w := Taken(Next(pending), |p|);
      var t := Transmit(pieces[1..], Rest(pending));
      TransmitIsPrefix(pieces[1..], Rest(pending));
      var c := Concat(pieces);
      assert c == p + Concat(pieces[1..]);
      if w == |p| {
        assert p[..w] == p;
        assert (p + t.bytes) == c[..|p| + |t.bytes|];
        if t.complete < |pieces| - 1 && (forall i :: 0 <= i < |pieces| ==> pieces[i] != []) {
          assert forall i :: 0 <= i < |pieces| - 1 ==> pieces[1..][i] == pieces[i + 1];
        }
      } else if w >= 0 {
        assert p[..w] == c[..w];
      }
    }
  }

  /** A peer that takes every call whole receives everything and consumes one outcome per piece. */
  lemma {:induction false} TransmitToWillingPeer(pieces: seq<seq<byte>>)
    ensures Transmit(pieces, []).complete == |pieces|
    ensures Transmit(pieces, []).bytes == Concat(pieces)
  {
    if pieces != [] {
      TransmitToWillingPeer(pieces[1..]);
      assert pieces[0][..|pieces[0]|] == pieces[0];
    }
  }

  // ---------------------------------------------------------------------
  // Frames and memory
  // ---------------------------------------------------------------------

  /** A compressed frame: its data buffer (possibly NULL) and the byte count. */
  class JpegFrame {
    const data: Option<seq<byte>>
    const size: nat

    constructor (data: Option<seq<byte>>, size: nat)
      ensures this.data == data && this.size == size
    {
      this.data, this.size := data, size;
    }

    /** `size` is an `unsigned long`, and the buffer holds at least `size` bytes. */
    predicate Valid()
    {
      size < ULONG_LIMIT && (data.Some? ==> size <= |data.value|)
    }
  }

  /** A heap block: a frame's data buffer or the frame struct itself. */
  datatype Block = DataOf(frame: JpegFrame) | StructOf(frame: JpegFrame)

  class Heap {
    /** The blocks handed to `free`, in order. */
    var freed: seq<Block>

    constructor ()
      ensures freed == []
    {
      freed := [];
    }

    /** `free(p)`; freeing NULL does nothing. */
    method Free(b: Option<Block>)
      modifies this
      ensures freed == old(freed) + if b.Some? then [b.value] else []
    {
      if b.Some? {
        freed := freed + [b.value];
      }
    }
  }

  /** The blocks released when a frame is done with: its data (unless NULL), then the struct. */
  function Released(f: JpegFrame): (r: seq<Block>)
    ensures StructOf(f) in r && r[|r| - 1] == StructOf(f)
    ensures DataOf(f) in r <==> f.data.Some?
  {
    (if f.data.Some? then [DataOf(f)] else []) + [StructOf(f)]
  }

  /** Each block of a frame appears exactly once among the frame's releases. */
  lemma ReleasedOnce(f: JpegFrame)
    ensures multiset(Released(f))[StructOf(f)] == 1
    ensures multiset(Released(f))[DataOf(f)] == if f.data.Some? then 1 else 0
  {
  }

  /** The releases of a sequence of frames, one after the other. */
  function ReleasedAll(fs: seq<JpegFrame>): seq<Block>
  {
    if fs == [] then [] else ReleasedAll(fs[..|fs| - 1]) + Released(fs[|fs| - 1])
  }

  /**
   * Frames sent one after another, each a different frame, never have a
   * block freed twice.
   */
  lemma {:induction false} NoDoubleFree(fs: seq<JpegFrame>, b: Block)
    requires forall i, j :: 0 <= i < j < |fs| ==> fs[i] != fs[j]
    ensures multiset(ReleasedAll(fs))[b] <= 1
    ensures multiset(ReleasedAll(fs))[b] == 1 <==> b in ReleasedAll(fs)
    ensures b in ReleasedAll(fs) ==> b.frame in fs
  {
    if fs != [] {
      var init, last := fs[..|fs| - 1], fs[|fs| - 1];
      NoDoubleFree(init, b);
      ReleasedOnce(last);
      if b.frame == last {
        assert b !in ReleasedAll(init);
      } else {
        assert b !in Released(last);
      }
    }
  }

  /** The three writes of a frame: part header, JPEG bytes, CRLF. */
  function FramePieces(f: JpegFrame): (p: seq<seq<byte>>)
    requires f.Valid() && f.data.Some?
    ensures |p| == 3 && forall i :: 0 <= i < 3 ==> (p[i] != [] <==> i != 1 || f.size > 0)
  {
    [PartHeader(f.size), f.data.value[..f.size], CRLF]
  }

  /** The bytes one frame puts on the wire: exactly one CRLF follows the JPEG data. */
  lemma FrameOnTheWire(f: JpegFrame)
    requires f.Valid() && f.data.Some?
    ensures Concat(FramePieces(f)) == PartHeader(f.size) + f.data.value[..f.size] + CRLF
    ensures var w := Concat(FramePieces(f));
            w[..9] == BOUNDARY_LINE && w[|w| - 2..] == CRLF && |w| == |PartHeader(f.size)| + f.size + 2
  {
    var p := FramePieces(f);
    assert Concat(p[2..]) == CRLF;
    assert Concat(p[1..]) == p[1] + CRLF;
  }

  /** The status send_mjpeg_frame reports after `complete` whole writes. */
  function SendStatus(complete: nat): (r: int)
    requires complete <= 3
    ensures r == 0 <==> complete == 3
  {
    if complete == 3 then 0 else -(complete + 2)
  }

  /**
   * Send one frame as a multipart part.  A NULL frame, NULL data or an
   * empty frame is refused with -1 before anything is written.  Otherwise
   * three writes are made (header, data, CRLF); the first one that is not
   * complete ends the call with -2, -3 or -4 respectively; 0 if all three are.
   */
  method SendMjpegFrame(sock: Socket, frame: JpegFrame?) returns (ret: int)
    requires frame != null ==> frame.Valid()
    modifies sock
    ensures frame == null || frame.data.None? || frame.size == 0 ==>
              ret == -1 && sock.sent == old(sock.sent) && sock.pending == old(sock.pending)
    ensures frame != null && frame.data.Some? && frame.size > 0 ==>
              var t := Transmit(FramePieces(frame), old(sock.pending));
              && ret == SendStatus(t.complete)
              && sock.sent == old(sock.sent) + t.bytes
              && sock.pending == t.rest
  {
    if frame == null || frame.data.None? || frame.size == 0 {
      return -1;
    }
    var data := frame.data.value;
    HeaderFits(frame.size);
    var header := PartHeader(frame.size);
    ghost var pieces: seq<seq<byte>> := FramePieces(frame);
    ghost var p0 := sock.pending;

    var n := sock.Write(header);
    if n != |header| {
      return -2;
    }
    assert header[..n] == header;
    ghost var p1 := sock.pending;
    ghost var tail1 := pieces[1..];
    assert tail1 == [data[..frame.size], CRLF];
    n := sock.Write(data[..frame.size]);
    if n != frame.size {
      return -3;
    }
    assert data[..frame.size][..n] == data[..frame.size];
    ghost var p2 := sock.pending;
    ghost var tail2 := tail1[1..];
    assert tail2 == [CRLF];
    n := sock.Write(CRLF);
    ghost var got := if n < 0 then [] else CRLF[..n];
    if n != 2 {
      assert Transmit(tail2, p2) == Transmission(0, got, sock.pending);
      assert Transmit(tail1, p1) == Transmission(1, data[..frame.size] + got, sock.pending);
      return -4;
    }
    assert got == CRLF;
    assert Transmit(tail2[1..], sock.pending) == Transmission(0, [], sock.pending);
    assert Transmit(tail2, p2) == Transmission(1, CRLF, sock.pending);
    assert Transmit(tail1, p1) == Transmission(2, data[..frame.size] + CRLF, sock.pending);
    return 0;
  }

  /**
   * Send an HTTP response header opening the multipart stream: -1 unless
   * the peer takes all of it in one call.
   */
  method SendHttpHeader(sock: Socket) returns (ret: int)
    modifies sock
    ensures ret == 0 <==> Next(old(sock.pending)) == Full ||
                          (Next(old(sock.pending)).Short? && Next(old(sock.pending)).n >= |STREAM_RESPONSE|)
    ensures ret == -1 || ret == 0
    ensures ret == 0 ==> sock.sent == old(sock.sent) + STREAM_RESPONSE
    ensures sock.sent == old(sock.sent) + Transmit([STREAM_RESPONSE], old(sock.pending)).bytes
    ensures sock.pending == Rest(old(sock.pending))
  {
    var n := sock.Write(STREAM_RESPONSE);
    if n != |STREAM_RESPONSE| {
      return -1;
    }
    assert STREAM_RESPONSE[..n] == STREAM_RESPONSE;
    return 0;
  }

  /** The response header of the stream: its boundary parameter is the one every part starts with. */
  const STREAM_RESPONSE: seq<byte> :=
    Ascii("HTTP/1.1 200 OK\r\n")
    + Ascii("Connection: close\r\n")
    + Ascii("Cache-Control: no-cache\r\n")
    + Ascii("Content-Type: multipart/x-mixed-replace; ") + BOUNDARY_PARAM
    + Ascii("\r\n")

  /** The boundary parameter closing the Content-Type line of the response header. */
  const BOUNDARY_PARAM: seq<byte> := Ascii("boundary=frame\r\n")

  /** The boundary the response header declares, preceded by "--", opens every part header. */
  lemma BoundaryAgrees(size: nat)
    ensures var s := STREAM_RESPONSE;
            s[|s| - 2 - |BOUNDARY_PARAM|..|s| - 2] == BOUNDARY_PARAM
            && PartHeader(size)[..7] == Ascii("--") + BOUNDARY_PARAM[9..14]
  {
    var h := PartHeader(size);
    assert h[..7] == BOUNDARY_LINE[..7];
  }

  // ---------------------------------------------------------------------
  // The consumer step
  // ---------------------------------------------------------------------

  /**
   * Take the oldest frame from the ring and send it.  An empty ring (or a
   * NULL handle) sends nothing, frees nothing and returns 0.  Otherwise the
   * frame is sent, its data buffer and then the struct are freed whatever
   * the outcome, and the result is -1 if sending failed and 0 if it did not.
   */
  method SendFrames(ring: CircularBuffer<JpegFrame?>, sock: Socket, heap: Heap) returns (ret: int)
    requires ring.Valid()
    requires forall i :: 0 <= i < |ring.Contents| && ring.Contents[i] != null ==> ring.Contents[i].Valid()
    modifies ring, sock, heap
    ensures ring.Valid() && ring.entries == old(ring.entries) && ring.entries[..] == old(ring.entries[..])
    ensures old(ring.Contents) == [] ==>
              ret == 0 && ring.Contents == [] && sock.sent == old(sock.sent)
              && sock.pending == old(sock.pending) && heap.freed == old(heap.freed)
    ensures old(ring.Contents) != [] ==> ring.Contents == old(ring.Contents)[1..]
    ensures old(ring.Contents) != [] && old(ring.Contents)[0] == null ==>
              ret == 0 && sock.sent == old(sock.sent) && sock.pending == old(sock.pending)
              && heap.freed == old(heap.freed)
    ensures old(ring.Contents) != [] && old(ring.Contents)[0] != null ==>
              var f := old(ring.Contents)[0];
              && heap.freed == old(heap.freed) + Released(f)
              && (ret == 0 || ret == -1)
              && (f.data.None? || f.size == 0 ==>
                    ret == -1 && sock.sent == old(sock.sent) && sock.pending == old(sock.pending))
              && (f.data.Some? && f.size > 0 ==>
                    var t := Transmit(FramePieces(f), old(sock.pending));
                    && sock.sent == old(sock.sent) + t.bytes
                    && sock.pending == t.rest
                    && (ret == 0 <==> t.complete == 3))
  {
    var jpeg: JpegFrame? := null;
    var ok;
    ok, jpeg := ring.Read(jpeg);
    if jpeg == null {
      return 0;
    }
    var sendRet := SendMjpegFrame(sock, jpeg);
    if sendRet < 0 {
      heap.Free(if jpeg.data.Some? then Some(DataOf(jpeg)) else None);
      heap.Free(Some(StructOf(jpeg)));
      return -1;
    }
    heap.Free(if jpeg.data.Some? then Some(DataOf(jpeg)) else None);
    heap.Free(Some(StructOf(jpeg)));
    return 0;
  }
}
