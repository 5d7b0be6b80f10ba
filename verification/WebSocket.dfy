/** The WebSocket framing of tools/net-gateway.mjs: the frames `sendFrame` writes
    and the streaming decoder `WsParser` (RFC 6455, sections 5.2 and 5.3). */
module WebSocket {
  import opened Words
  import opened Buffers
  import Alu

  /** The largest payload the decoder takes. */
  const LIMIT: nat := 64 * 1024 * 1024

  // ---- bytes ------------------------------------------------------------------------------

  function Xor8(a: U8, b: U8): U8 { XorRange(a, b, 8); Alu.Bitwise(Alu.Xor, a, b, 8) }

  lemma {:induction false} XorRange(a: nat, b: nat, k: nat)
    ensures Alu.Bitwise(Alu.Xor, a, b, k) < Alu.Pow2(k)
    ensures Alu.Pow2(8) == 0x100
    decreases k
  {
    Alu.PowersOfTwo();
    if k > 0 { XorRange(a / 2, b / 2, k - 1); }
  }

  lemma {:induction false} XorTwice(a: nat, b: nat, k: nat)
    requires a < Alu.Pow2(k)
    ensures Alu.Bitwise(Alu.Xor, Alu.Bitwise(Alu.Xor, a, b, k), b, k) == a
    decreases k
  {
    if k > 0 {
      var low := Alu.Bit(Alu.OnBits(Alu.Xor, a % 2 == 1, b % 2 == 1));
      var x := Alu.Bitwise(Alu.Xor, a, b, k);
      assert x == low + 2 * Alu.Bitwise(Alu.Xor, a / 2, b / 2, k - 1);
      assert x / 2 == Alu.Bitwise(Alu.Xor, a / 2, b / 2, k - 1) && x % 2 == low;
      XorTwice(a / 2, b / 2, k - 1);
    }
  }

  /** Masking and unmasking are the same operation. */
  function Mask(payload: Bytes, key: Bytes): Bytes
    requires |key| == 4
  {
    seq(|payload|, i requires 0 <= i < |payload| => Xor8(payload[i], key[i % 4]))
  }

  lemma MaskInvolution(payload: Bytes, key: Bytes)
    requires |key| == 4
    ensures |Mask(payload, key)| == |payload| && Mask(Mask(payload, key), key) == payload
  {
    forall i | 0 <= i < |payload| ensures Mask(Mask(payload, key), key)[i] == payload[i] {
      XorRange(payload[i], key[i % 4], 8);
      XorTwice(payload[i], key[i % 4], 8);
    }
  }

  /** Masking flips the bits of the payload where the key has one. */
  lemma MaskBits(payload: Bytes, key: Bytes, i: nat, k: nat)
    requires |key| == 4 && i < |payload| && k < 8
    ensures Alu.BitAt(Mask(payload, key)[i], k) <==> Alu.BitAt(payload[i], k) != Alu.BitAt(key[i % 4], k)
  {
    hide Alu.Bitwise, Alu.BitAt;
    Alu.BitwiseAt(Alu.Xor, payload[i], key[i % 4], 8, k);
  }

  lemma {:induction false} XorNothing(a: nat, k: nat)
    requires a < Alu.Pow2(k)
    ensures Alu.Bitwise(Alu.Xor, a, 0, k) == a
    decreases k
  {
    if k > 0 { XorNothing(a / 2, k - 1); }
  }

  /** The zero key masks nothing. */
  lemma MaskZero(payload: Bytes)
    ensures Mask(payload, [0, 0, 0, 0]) == payload
  {
    Alu.PowersOfTwo();
    forall i | 0 <= i < |payload| ensures Mask(payload, [0, 0, 0, 0])[i] == payload[i] {
      XorNothing(payload[i], 8);
    }
  }

  /** Big-endian numbers. */
  function FromBig(b: Bytes): nat { if b == [] then 0 else 0x100 * FromBig(b[..|b| - 1]) + b[|b| - 1] }

  function ToBig(n: nat, k: nat): (b: Bytes)
    ensures |b| == k
    decreases k
  {
    if k == 0 then [] else ToBig(n / 0x100, k - 1) + [n % 0x100]
  }

  function Pow256(k: nat): nat { if k == 0 then 1 else 0x100 * Pow256(k - 1) }

  lemma {:induction false} BigRoundTrip(n: nat, k: nat)
    requires n < Pow256(k)
    ensures FromBig(ToBig(n, k)) == n
    decreases k
  {
    if k > 0 {
      BigRoundTrip(n / 0x100, k - 1);
      assert ToBig(n, k)[..k - 1] == ToBig(n / 0x100, k - 1);
    }
  }

  // ---- decoding ---------------------------------------------------------------------------

  datatype Header = Partial | Excess | Header(opcode: nat, masked: bool, len: nat, off: nat)

  /** The fixed part of a frame at the front of the buffer, up to the masking key. */
  function ReadHeader(buf: Bytes): Header {
    if |buf| < 2 then Partial
    else
      var (opcode, masked, len) := (buf[0] % 0x10, buf[1] >= 0x80, buf[1] % 0x80);
      if len == 126 then
        if |buf| < 4 then Partial else Header(opcode, masked, FromBig(buf[2..4]), 4)
      else if len == 127 then
        if |buf| < 10 then Partial
        else if FromBig(buf[2..10]) > LIMIT then Excess
        else Header(opcode, masked, FromBig(buf[2..10]), 10)
      else Header(opcode, masked, len, 2)
  }

  datatype Scan = NeedMore | TooBig | Frame(opcode: nat, payload: Bytes, size: nat)

  /** One turn of the decoder's loop. */
  function Next(buf: Bytes): Scan {
    match ReadHeader(buf)
    case Partial => NeedMore
    case Excess => TooBig
    case Header(opcode, masked, len, off) =>
      var start := if masked then off + 4 else off;
      if |buf| < start + len then NeedMore
      else
        var body := buf[start..start + len];
        Frame(opcode, if masked then Mask(body, buf[off..off + 4]) else body, start + len)
  }

  /** The callbacks of the decoder, and the exception it throws. */
  datatype Event = Data(payload: Bytes) | Closed | Thrown

  datatype Status = Waiting | AfterClose | AfterThrow

  datatype Drained = Drained(events: seq<Event>, rest: Bytes, status: Status)

  function Prepend(events: seq<Event>, d: Drained): Drained { d.(events := events + d.events) }

  /** Text, binary and continuation frames carry data; ping and the other control
      frames are passed over. */
  function EventsOf(opcode: nat, payload: Bytes): seq<Event> {
    if opcode == 0 || opcode == 1 || opcode == 2 then [Data(payload)] else []
  }

  lemma FrameSize(buf: Bytes)
    ensures Next(buf).Frame? ==> 2 <= Next(buf).size <= |buf|
  {
  }

  /** The loop of `push` on the whole buffer; a close frame ends it. */
  function Drain(buf: Bytes): Drained
    decreases |buf|
  {
    FrameSize(buf);
    match Next(buf)
    case NeedMore => Drained([], buf, Waiting)
    case TooBig => Drained([Thrown], buf, AfterThrow)
    case Frame(opcode, payload, size) =>
      if opcode == 8 then Drained([Closed], buf[size..], AfterClose)
      else Prepend(EventsOf(opcode, payload), Drain(buf[size..]))
  }

  datatype Fed = Fed(events: seq<Event>, rest: Bytes)

  /** One `push` after another, whatever the earlier ones ended in. */
  function Feed(buf: Bytes, chunks: seq<Bytes>): Fed
    decreases |chunks|
  {
    if chunks == [] then Fed([], buf)
    else
      var d := Drain(buf + chunks[0]);
      var f := Feed(d.rest, chunks[1..]);
      Fed(d.events + f.events, f.rest)
  }

  /** Reading the parts of a concatenation back. */
  lemma Cuts(front: Bytes, key: Bytes, body: Bytes, more: Bytes)
    ensures var b := front + key + body + more;
            && b == front + (key + body + more)
            && b[|front|..|front| + |key|] == key
            && b[|front| + |key|..|front| + |key| + |body|] == body
  {
  }

  /** The length field of a masking client: 7 bits, or 126 and two bytes, or 127 and
      eight bytes, the highest first; a longer form than needed is taken too. */
  predicate ClientLength(field: Bytes, n: nat) {
    || (|field| == 1 && n < 126 && field[0] == 0x80 + n)
    || (|field| == 3 && field[0] == 0xfe && n == 0x100 * (field[1] as int) + field[2])
    || (|field| == 9 && field[0] == 0xff && field[1] == field[2] == field[3] == field[4] == 0
        && n == 0x100_0000 * (field[5] as int) + 0x1_0000 * (field[6] as int) + 0x100 * (field[7] as int) + field[8] <= 0x400_0000)
  }

  lemma BigBytes(b: Bytes)
    ensures |b| == 2 ==> FromBig(b) == 0x100 * (b[0] as int) + b[1]
    ensures |b| == 8 && b[0] == b[1] == b[2] == b[3] == 0 ==>
              FromBig(b) == 0x100_0000 * (b[4] as int) + 0x1_0000 * (b[5] as int) + 0x100 * (b[6] as int) + b[7]
  {
    if |b| == 2 {
      assert FromBig(b[..1]) == 0x100 * FromBig(b[..1][..0]) + b[0];
    } else if |b| == 8 && b[0] == b[1] == b[2] == b[3] == 0 {
      BigZeros(b[..4]);
      forall k: nat | k < 8 ensures FromBig(b[..k + 1]) == 0x100 * FromBig(b[..k]) + b[k] {
        assert b[..k + 1][..k] == b[..k];
      }
      assert b[..8] == b;
      assert FromBig(b[..4 + 1]) == b[4] && FromBig(b[..5 + 1]) == 0x100 * (b[4] as int) + b[5];
      assert FromBig(b[..6 + 1]) == 0x1_0000 * (b[4] as int) + 0x100 * (b[5] as int) + b[6];
      assert FromBig(b[..7 + 1]) == 0x100_0000 * (b[4] as int) + 0x1_0000 * (b[5] as int) + 0x100 * (b[6] as int) + b[7];
    }
  }

  lemma {:induction false} BigZeros(b: Bytes)
    requires forall i :: 0 <= i < |b| ==> b[i] == 0
    ensures FromBig(b) == 0
  {
    if b != [] { BigZeros(b[..|b| - 1]); }
  }

  lemma ClientHeader(first: U8, field: Bytes, n: nat, more: Bytes)
    requires ClientLength(field, n)
    ensures ReadHeader([first] + field + more) == Header(first % 0x10, true, n, 1 + |field|)
  {
    hide FromBig;
    var buf := [first] + field + more;
    assert buf[1] == field[0];
    if |field| == 3 {
      assert buf[2..4] == field[1..];
      BigBytes(field[1..]);
    } else if |field| == 9 {
      assert buf[2..10] == field[1..];
      BigBytes(field[1..]);
    }
  }

  lemma ClientNext(first: U8, field: Bytes, key: Bytes, masked: Bytes, more: Bytes)
    requires ClientLength(field, |masked|) && |key| == 4
    ensures var front := [first] + field;
            Next(front + key + masked + more) == Frame(first % 0x10, Mask(masked, key), |front + key + masked|)
  {
    hide Mask, ReadHeader;
    var front := [first] + field;
    ClientHeader(first, field, |masked|, key + masked + more);
    assert front + key + masked + more == front + (key + masked + more);
    Cuts(front, key, masked, more);
  }

  /** A complete frame of a masking client at the front of the buffer. A text,
      binary or continuation frame delivers its payload, every bit flipped where
      the key has one; a close frame ends the drain; any other frame, a ping say,
      delivers nothing. The decoder goes on after the frame. */
  lemma ClientFrame(first: U8, field: Bytes, key: Bytes, masked: Bytes, more: Bytes)
    requires ClientLength(field, |masked|) && |key| == 4
    ensures var (d, opcode) := (Drain([first] + field + key + masked + more), first % 0x10);
            if opcode == 8 then d == Drained([Closed], more, AfterClose)
            else if opcode == 0 || opcode == 1 || opcode == 2 then
              && d.events == [Data(Mask(masked, key))] + Drain(more).events
              && d.rest == Drain(more).rest && d.status == Drain(more).status
            else d == Drain(more)
  {
    hide Mask, Next, ClientLength;
    ClientNext(first, field, key, masked, more);
    var frame := [first] + field + key + masked;
    FrameSize(frame + more);
    assert (frame + more)[|frame|..] == more;
    assert [] + Drain(more).events == Drain(more).events;
  }

  // ---- chunking does not matter --------------------------------------------------------------

  lemma HeaderExtend(buf: Bytes, more: Bytes)
    requires ReadHeader(buf) != Partial
    ensures ReadHeader(buf + more) == ReadHeader(buf)
  {
    var b := buf + more;
    assert b[0] == buf[0] && b[1] == buf[1];
    if |buf| >= 4 { assert b[2..4] == buf[2..4]; }
    if |buf| >= 10 { assert b[2..10] == buf[2..10]; }
  }

  /** Once a frame is complete, later bytes do not change it. */
  lemma NextExtend(buf: Bytes, more: Bytes)
    requires Next(buf) != NeedMore
    ensures Next(buf + more) == Next(buf)
  {
    hide ReadHeader, Mask;
    HeaderExtend(buf, more);
    var h, b := ReadHeader(buf), buf + more;
    if h.Header? {
      var start := if h.masked then h.off + 4 else h.off;
      assert b[start..start + h.len] == buf[start..start + h.len];
      if h.masked { assert b[h.off..h.off + 4] == buf[h.off..h.off + 4]; }
    }
  }

  /** Draining, then getting more bytes and draining again, is draining it all; a
      close frame or an oversize header is met at the same place either way. */
  lemma {:induction false} DrainAppend(buf: Bytes, more: Bytes)
    ensures var d := Drain(buf);
            match d.status
            case Waiting => Drain(buf + more) == Prepend(d.events, Drain(d.rest + more)) && Next(d.rest) == NeedMore
            case _ => Drain(buf + more) == Drained(d.events, d.rest + more, d.status)
    decreases |buf|
  {
    hide Next;
    match Next(buf)
    case NeedMore => assert [] + Drain(buf + more).events == Drain(buf + more).events;
    case TooBig => NextExtend(buf, more);
    case Frame(opcode, payload, size) =>
      NextExtend(buf, more);
      FrameSize(buf);
      assert (buf + more)[size..] == buf[size..] + more;
      if opcode != 8 {
        DrainAppend(buf[size..], more);
        var e, d := EventsOf(opcode, payload), Drain(buf[size..]);
        if d.status == Waiting {
          var t := Drain(d.rest + more);
          assert e + (d.events + t.events) == (e + d.events) + t.events;
        }
      }
  }

  /** The stream has no oversize header, and no complete frame after a close
      frame. */
  predicate Quiet(stream: Bytes) {
    var d := Drain(stream);
    d.status == Waiting || (d.status == AfterClose && Next(d.rest) == NeedMore)
  }

  lemma NeedMorePrefix(buf: Bytes, more: Bytes)
    requires Next(buf + more) == NeedMore
    ensures Next(buf) == NeedMore
  {
    if Next(buf) != NeedMore { NextExtend(buf, more); }
  }

  lemma {:induction false} FeedNothing(buf: Bytes, chunks: seq<Bytes>)
    requires Next(buf + Concat(chunks)) == NeedMore
    ensures Feed(buf, chunks) == Fed([], buf + Concat(chunks))
    decreases |chunks|
  {
    hide Next;
    if chunks == [] {
      assert buf + [] == buf;
    } else {
      var more := Concat(chunks[1..]);
      assert buf + (chunks[0] + more) == (buf + chunks[0]) + more;
      NeedMorePrefix(buf + chunks[0], more);
      FeedNothing(buf + chunks[0], chunks[1..]);
    }
  }

  lemma {:induction false} FeedQuiet(buf: Bytes, chunks: seq<Bytes>)
    requires Next(buf) == NeedMore && Quiet(buf + Concat(chunks))
    ensures var d := Drain(buf + Concat(chunks)); Feed(buf, chunks) == Fed(d.events, d.rest)
    decreases |chunks|
  {
    hide Next;
    if chunks == [] {
      assert buf + [] == buf;
    } else {
      var more := Concat(chunks[1..]);
      assert buf + (chunks[0] + more) == (buf + chunks[0]) + more;
      DrainAppend(buf + chunks[0], more);
      var d := Drain(buf + chunks[0]);
      match d.status
      case Waiting =>
        FeedQuiet(d.rest, chunks[1..]);
      case AfterClose =>
        FeedNothing(d.rest, chunks[1..]);
        assert d.events + [] == d.events;
      case AfterThrow =>
    }
  }

  /** How a byte stream is cut into chunks does not change what the decoder
      reports, nor what it keeps for later, if and only if the stream has no
      oversize header and no complete frame after a close frame. */
  lemma ChunkingIndependentIff(stream: Bytes)
    ensures (forall chunks :: chunks != [] && Concat(chunks) == stream ==> Feed([], chunks) == Feed([], [stream]))
            <==> Quiet(stream)
  {
    OneChunk(stream);
    if Quiet(stream) {
      forall chunks | chunks != [] && Concat(chunks) == stream ensures Feed([], chunks) == Feed([], [stream]) {
        assert [] + stream == stream;
        FeedQuiet([], chunks);
        FeedQuiet([], [stream]);
      }
    } else {
      ExtraTurn(stream);
    }
  }

  lemma OneChunk(stream: Bytes)
    ensures Concat([stream]) == stream && Concat([stream, []]) == stream
  {
    var last: seq<Bytes> := [[]];
    assert [stream][1..] == [] && [stream, []][1..] == last && last[1..] == [];
    assert stream + [] == stream;
  }

  lemma FeedOnce(buf: Bytes, chunk: Bytes, rest: seq<Bytes>)
    ensures var d := Drain(buf + chunk);
            && Feed(buf, [chunk]) == Fed(d.events, d.rest)
            && Feed(buf, [chunk] + rest) == Fed(d.events + Feed(d.rest, rest).events, Feed(d.rest, rest).rest)
  {
    hide Drain;
    assert ([chunk] + rest)[1..] == rest && [chunk][1..] == [];
    var d := Drain(buf + chunk);
    assert d.events + [] == d.events;
  }

  /** Otherwise an empty read after the stream is noticed. */
  lemma ExtraTurn(stream: Bytes)
    requires !Quiet(stream)
    ensures Feed([], [stream, []]) != Feed([], [stream])
  {
    hide Next, Feed;
    var d := Drain(stream);
    assert [] + stream == stream && d.rest + [] == d.rest;
    FeedOnce([], stream, [[]]);
    FeedOnce(d.rest, [], []);
    var last: seq<Bytes> := [[]];
    assert [stream] + last == [stream, []];
    DrainShrinks(d.rest);
    if d.status == AfterThrow { ThrowsAgain(stream); }
  }

  lemma {:induction false} ThrowsAgain(buf: Bytes)
    requires Drain(buf).status == AfterThrow
    ensures Next(Drain(buf).rest) == TooBig
    decreases |buf|
  {
    hide Next;
    FrameSize(buf);
    match Next(buf)
    case NeedMore =>
    case TooBig =>
    case Frame(opcode, payload, size) => if opcode != 8 { ThrowsAgain(buf[size..]); }
  }

  lemma {:induction false} DrainShrinks(buf: Bytes)
    ensures |Drain(buf).rest| <= |buf|
    ensures Next(buf).TooBig? ==> Drain(buf).events == [Thrown]
    ensures Next(buf).Frame? ==> |Drain(buf).rest| < |buf|
    decreases |buf|
  {
    hide Next;
    FrameSize(buf);
    match Next(buf)
    case NeedMore =>
    case TooBig =>
    case Frame(opcode, payload, size) => DrainShrinks(buf[size..]);
  }

  // ---- encoding -----------------------------------------------------------------------------

  /** The length field: 7 bits, 16 bits or 64 bits wide. */
  function LengthField(n: nat, mask: nat): Bytes
    requires mask <= 0x80
  {
    if n < 126 then [mask + n]
    else if n < 0x1_0000 then [mask + 126] + ToBig(n, 2)
    else [mask + 127] + ToBig(n, 8)
  }

  /** A frame as section 5.2 of RFC 6455 lays it out, masked if there is a key. */
  function Encode(opcode: nat, key: Option<Bytes>, data: Bytes): Bytes
    requires opcode < 0x10 && (key.Some? ==> |key.value| == 4)
  {
    match key
    case None => [0x80 + opcode] + LengthField(|data|, 0) + data
    case Some(k) => [0x80 + opcode] + LengthField(|data|, 0x80) + k + Mask(data, k)
  }

  /** `sendFrame`: a final, binary, unmasked frame. */
  function SendFrame(data: Bytes): Bytes { Encode(2, None, data) }

  lemma Widths()
    ensures Pow256(2) == 0x1_0000 && Pow256(8) == 0x1_0000_0000_0000_0000
  {
    assert Pow256(2) == 0x100 * Pow256(1) == 0x100 * (0x100 * Pow256(0));
    assert Pow256(4) == 0x100 * Pow256(3) == 0x100 * (0x100 * Pow256(2)) == 0x1_0000_0000;
    assert Pow256(6) == 0x100 * Pow256(5) == 0x100 * (0x100 * Pow256(4));
    assert Pow256(8) == 0x100 * Pow256(7) == 0x100 * (0x100 * Pow256(6));
  }

  lemma HeadBytes(opcode: nat, mask: nat, l: nat)
    requires opcode < 0x10 && (mask == 0 || mask == 0x80) && l < 0x80
    ensures (0x80 + opcode) % 0x10 == opcode && (mask + l >= 0x80 <==> mask == 0x80) && (mask + l) % 0x80 == l
  {
  }

  lemma HeaderReceived(opcode: nat, mask: nat, n: nat, more: Bytes)
    requires opcode < 0x10 && (mask == 0 || mask == 0x80) && n < Pow256(8)
    ensures ReadHeader([0x80 + opcode] + LengthField(n, mask) + more)
         == if n > LIMIT then Excess else Header(opcode, mask == 0x80, n, 1 + |LengthField(n, mask)|)
  {
    hide ToBig, FromBig, Pow256, ReadHeader;
    var buf := [0x80 + opcode] + LengthField(n, mask) + more;
    Widths();
    if n >= 0x1_0000 {
      LongReceived(opcode, mask, 127, n, 8, more);
      assert [0x80 + opcode, mask + 127] + ToBig(n, 8) + more == buf;
    } else if n >= 126 {
      LongReceived(opcode, mask, 126, n, 2, more);
      assert [0x80 + opcode, mask + 126] + ToBig(n, 2) + more == buf;
    } else {
      ShortReceived(opcode, mask, n, more);
    }
  }

  lemma ShortReceived(opcode: nat, mask: nat, n: nat, more: Bytes)
    requires opcode < 0x10 && (mask == 0 || mask == 0x80) && n < 126
    ensures ReadHeader([0x80 + opcode] + [mask + n] + more) == Header(opcode, mask == 0x80, n, 2)
  {
    HeadBytes(opcode, mask, n);
    var buf := [0x80 + opcode] + [mask + n] + more;
    assert buf[0] == 0x80 + opcode && buf[1] == mask + n;
  }

  lemma LongReceived(opcode: nat, mask: nat, l: nat, n: nat, k: nat, more: Bytes)
    requires opcode < 0x10 && (mask == 0 || mask == 0x80) && n < Pow256(k)
    requires (l == 126 && k == 2 && n < 0x1_0000) || (l == 127 && k == 8)
    ensures ReadHeader([0x80 + opcode, mask + l] + ToBig(n, k) + more)
         == if n > LIMIT then Excess else Header(opcode, mask == 0x80, n, 2 + k)
  {
    hide ToBig, FromBig, Pow256;
    HeadBytes(opcode, mask, l);
    FieldReceived([0x80 + opcode, mask + l], n, k, more);
    var buf := [0x80 + opcode, mask + l] + ToBig(n, k) + more;
    assert buf[0] == 0x80 + opcode && buf[1] == mask + l;
  }

  lemma FieldReceived(front: Bytes, n: nat, k: nat, more: Bytes)
    requires n < Pow256(k)
    ensures var b := front + ToBig(n, k) + more;
            |front| + k <= |b| && FromBig(b[|front|..|front| + k]) == n
  {
    BigRoundTrip(n, k);
    assert (front + ToBig(n, k) + more)[|front|..|front| + k] == ToBig(n, k);
  }

  lemma PlainFrameReceived(opcode: nat, data: Bytes, more: Bytes)
    requires opcode < 0x10 && |data| < Pow256(8)
    ensures var f := Encode(opcode, None, data);
            Next(f + more) == if |data| > LIMIT then TooBig else Frame(opcode, data, |f|)
  {
    hide ReadHeader, LengthField, Mask, Pow256;
    var front := [0x80 + opcode] + LengthField(|data|, 0);
    HeaderReceived(opcode, 0, |data|, data + more);
    Cuts(front, [], data, more);
    assert front + [] == front && [] + data == data;
  }

  lemma MaskedFrameReceived(opcode: nat, key: Bytes, data: Bytes, more: Bytes)
    requires opcode < 0x10 && |key| == 4 && |data| < Pow256(8)
    ensures var f := Encode(opcode, Some(key), data);
            Next(f + more) == if |data| > LIMIT then TooBig else Frame(opcode, data, |f|)
  {
    hide ReadHeader, LengthField, Mask, Pow256;
    MaskInvolution(data, key);
    var front, body := [0x80 + opcode] + LengthField(|data|, 0x80), Mask(data, key);
    HeaderReceived(opcode, 0x80, |data|, key + body + more);
    Cuts(front, key, body, more);
  }

  /** The decoder undoes the encoder for every opcode, key and length, whatever
      follows in the stream; it refuses exactly the payloads above 64 MiB. */
  lemma FrameReceived(opcode: nat, key: Option<Bytes>, data: Bytes, more: Bytes)
    requires opcode < 0x10 && (key.Some? ==> |key.value| == 4) && |data| < Pow256(8)
    ensures var f := Encode(opcode, key, data);
            Next(f + more) == if |data| > 0x400_0000 then TooBig else Frame(opcode, data, |f|)
  {
    hide Next, Encode;
    match key
    case None => PlainFrameReceived(opcode, data, more);
    case Some(k) => MaskedFrameReceived(opcode, k, data, more);
  }

  /** The bytes `sendFrame` puts on the wire: a final binary frame, not masked, with
      the shortest length field, the highest byte first. */
  lemma SentWire(data: Bytes)
    ensures var (n, f) := (|data|, SendFrame(data));
            && (n < 126 ==> f == [0x82, n] + data)
            && (126 <= n < 0x1_0000 ==> f == [0x82, 126, n / 0x100, n % 0x100] + data)
            && (0x1_0000 <= n < TWO32 ==>
                  f == [0x82, 127, 0, 0, 0, 0, ByteOf(n, 3), ByteOf(n, 2), ByteOf(n, 1), ByteOf(n, 0)] + data)
  {
    var n := |data|;
    var front: Bytes := [0x82];
    if 126 <= n < 0x1_0000 {
      BigTwo(n);
    } else if 0x1_0000 <= n < TWO32 {
      BigEight(n);
    }
  }

  lemma BigTwo(n: nat)
    requires n < 0x1_0000
    ensures ToBig(n, 2) == [n / 0x100, n % 0x100]
  {
    assert ToBig(n / 0x100, 1) == [] + [n / 0x100 % 0x100];
  }

  lemma BigEight(n: U32)
    ensures ToBig(n, 8) == [0, 0, 0, 0, ByteOf(n, 3), ByteOf(n, 2), ByteOf(n, 1), ByteOf(n, 0)]
  {
    var (a, b, c) := (n / 0x100, n / 0x1_0000, n / 0x100_0000);
    assert a / 0x100 == b && b / 0x100 == c && c / 0x100 == 0 && c % 0x100 == c;
    BigNone(4);
    assert ToBig(c, 5) == [0, 0, 0, 0] + [ByteOf(n, 3)];
    assert ToBig(b, 6) == ToBig(c, 5) + [ByteOf(n, 2)];
    assert ToBig(a, 7) == ToBig(b, 6) + [ByteOf(n, 1)];
  }

  lemma {:induction false} BigNone(k: nat)
    ensures ToBig(0, k) == Zeros(k)
  {
    if k > 0 { BigNone(k - 1); }
  }

  /** What a sequence of `sendFrame` calls puts on the wire. */
  function Sent(payloads: seq<Bytes>): Bytes {
    if payloads == [] then [] else SendFrame(payloads[0]) + Sent(payloads[1..])
  }

  function Received(payloads: seq<Bytes>): seq<Event> {
    seq(|payloads|, i requires 0 <= i < |payloads| => Data(payloads[i]))
  }

  predicate AllTaken(payloads: seq<Bytes>) { forall i :: 0 <= i < |payloads| ==> |payloads[i]| <= LIMIT }

  lemma {:induction false} SentDrained(payloads: seq<Bytes>)
    requires AllTaken(payloads)
    ensures Drain(Sent(payloads)) == Drained(Received(payloads), [], Waiting)
    decreases |payloads|
  {
    hide SendFrame, Next;
    if payloads == [] {
      NothingYet();
    } else {
      var f, rest := SendFrame(payloads[0]), Sent(payloads[1..]);
      SendFrameReceived(payloads[0], rest);
      FrameSize(f + rest);
      assert (f + rest)[|f|..] == rest;
      SentDrained(payloads[1..]);
      assert [Data(payloads[0])] + Received(payloads[1..]) == Received(payloads);
    }
  }

  lemma NothingYet()
    ensures Next([]) == NeedMore
  {
  }

  lemma SendFrameReceived(data: Bytes, more: Bytes)
    requires |data| <= LIMIT
    ensures Next(SendFrame(data) + more) == Frame(2, data, |SendFrame(data)|)
  {
    Widths();
    FrameReceived(2, None, data, more);
  }

  /** End to end: however the network cuts a run of sent frames, the receiver
      reports exactly the payloads, in order, and keeps nothing back. */
  lemma SentThenReceived(payloads: seq<Bytes>, chunks: seq<Bytes>)
    requires AllTaken(payloads) && Concat(chunks) == Sent(payloads)
    ensures Feed([], chunks) == Fed(Received(payloads), [])
  {
    hide Next, Sent;
    SentDrained(payloads);
    NothingYet();
    assert [] + Concat(chunks) == Sent(payloads);
    FeedQuiet([], chunks);
  }

  // ---- the code -----------------------------------------------------------------------------

  /** The unmasking loop. */
  method Unmask(payload: Bytes, key: Bytes) returns (r: Bytes)
    requires |key| == 4
    ensures r == Mask(payload, key)
  {
    var out := new U8[|payload|];
    var i := 0;
    while i < |payload|
      invariant 0 <= i <= |payload|
      invariant forall j :: 0 <= j < i ==> out[j] == Mask(payload, key)[j]
    {
      out[i] := Xor8(payload[i], key[i % 4]);
      i := i + 1;
    }
    r := out[..];
  }

  /** `writeUInt16BE` and `writeBigUInt64BE`. */
  method PutBig(a: array<U8>, off: nat, n: nat, k: nat)
    requires off + k == a.Length
    modifies a
    ensures a[..] == old(a[..off]) + ToBig(n, k)
  {
    var i, m := k, n;
    while i > 0
      invariant 0 <= i <= k
      invariant a[..off] == old(a[..off])
      invariant ToBig(n, k) == ToBig(m, i) + a[off + i..]
    {
      i := i - 1;
      a[off + i] := m % 0x100;
      assert a[off + i..] == [m % 0x100] + a[off + i + 1..];
      m := m / 0x100;
    }
    assert a[..] == a[..off] + a[off..];
  }

  /** `sendFrame`, filling its header buffer. */
  method WriteFrame(data: Bytes) returns (wire: Bytes)
    ensures wire == SendFrame(data)
  {
    hide ToBig;
    if |data| < 126 {
      assert [0x82, |data|] == [0x82] + LengthField(|data|, 0);
      return [0x82, |data|] + data;
    }
    var header;
    if |data| < 0x1_0000 {
      header := new U8[4];
      header[0], header[1] := 0x82, 126;
      PutBig(header, 2, |data|, 2);
      assert header[..] == [0x82] + LengthField(|data|, 0);
    } else {
      header := new U8[10];
      header[0], header[1] := 0x82, 127;
      PutBig(header, 2, |data|, 8);
      assert header[..] == [0x82] + LengthField(|data|, 0);
    }
    wire := header[..] + data;
  }

  /** What is left to do once the events of one turn are out. */
  function AfterTurn(before: seq<Event>, buf: Bytes): Drained
    decreases |buf|
  {
    FrameSize(buf);
    match Next(buf)
    case NeedMore => Drained(before, buf, Waiting)
    case TooBig => Drained(before + [Thrown], buf, AfterThrow)
    case Frame(opcode, payload, size) =>
      if opcode == 8 then Drained(before + [Closed], buf[size..], AfterClose)
      else Prepend(before + EventsOf(opcode, payload), Drain(buf[size..]))
  }

  lemma DrainTurn(before: seq<Event>, buf: Bytes)
    ensures Prepend(before, Drain(buf)) == AfterTurn(before, buf)
  {
    FrameSize(buf);
    hide Next;
    assert before + [] == before;
    if Next(buf).Frame? && Next(buf).opcode != 8 {
      var e := EventsOf(Next(buf).opcode, Next(buf).payload);
      assert before + (e + Drain(buf[Next(buf).size..]).events) == (before + e) + Drain(buf[Next(buf).size..]).events;
    }
  }

  class WsParser {
    var buf: Bytes

    constructor ()
      ensures buf == []
    {
      buf := [];
    }

    /** `push`, returning the callbacks it makes. */
    method Push(chunk: Bytes) returns (events: seq<Event>)
      modifies this
      ensures var d := Drain(old(buf) + chunk); events == d.events && buf == d.rest
    {
      hide Next, Drain;
      buf := buf + chunk;
      events := [];
      ghost var whole := Drain(buf);
      assert [] + whole.events == whole.events;
      while true
        invariant whole == Prepend(events, Drain(buf))
        decreases |buf|
      {
        var frame := ReadFrame(buf);
        DrainTurn(events, buf);
        FrameSize(buf);
        match frame {
          case NeedMore => return;
          case TooBig => events := events + [Thrown]; return;
          case Frame(opcode, payload, size) =>
            buf := buf[size..];
            if opcode == 8 { events := events + [Closed]; return; }
            if opcode == 1 || opcode == 2 || opcode == 0 { events := events + [Data(payload)]; }
            else { assert events == events + []; }
        }
      }
    }

    method ReadFrame(b: Bytes) returns (s: Scan)
      ensures s == Next(b)
    {
      var h := ReadHeader(b);
      if h.Partial? { return NeedMore; }
      if h.Excess? { return TooBig; }
      var off := if h.masked then h.off + 4 else h.off;
      if |b| < off + h.len { return NeedMore; }
      var payload := b[off..off + h.len];
      if h.masked { payload := Unmask(payload, b[h.off..h.off + 4]); }
      s := Frame(h.opcode, payload, off + h.len);
    }
  }
}
