/**
 The receive-side frame walk of test_vless.py:96-124. The buffer holds everything read
 after the request frame was sent; the walk reads one header at `offset`, slices out the
 payload with Python's clamping slice, strips the VLESS response header from the first
 payload of at least two bytes, and advances past the frame. It reads the mask bit and
 the opcode nowhere: a key after the header would be taken for payload.

 `FrameAt` is one frame of the walk. `Frames` is the walk without the strip and
 `StripFirst` the strip on its own. `Walk` is the loop as written, with both interleaved,
 and is proved equal to their composition.
 */
module FrameDecoder {
  import opened Bytes
  import opened Wrappers
  import opened Masking
  import opened FrameEncoder
  import opened Vless

  /** Header size (2, 4 or 10 bytes) and the declared payload length. */
  datatype FrameHeader = FrameHeader(headerLength: nat, payloadLength: nat)

  /** Lines 99-113: the header at `offset`, or None where the loop breaks because the
      buffer ends inside the header. */
  function ParseHeader(buf: seq<byte>, offset: nat): Option<FrameHeader> {
    if offset + 2 > |buf| then None
    else
      var short := LowSeven(buf[offset + 1]);
      if short == 126 then
        if offset + 4 > |buf| then None
        else Some(FrameHeader(4, BigEndianValue(buf[offset + 2..offset + 4])))
      else if short == 127 then
        if offset + 10 > |buf| then None
        else Some(FrameHeader(10, BigEndianValue(buf[offset + 2..offset + 10])))
      else
        Some(FrameHeader(2, short))
  }

  /** A header needs two bytes, and any ten bytes hold one; a header found is 2, 4 or 10
      bytes long, lies inside the buffer, and declares a length its form can carry. */
  lemma ParseHeaderBounds(buf: seq<byte>, offset: nat)
    ensures offset + 2 > |buf| ==> ParseHeader(buf, offset).None?
    ensures offset + 10 <= |buf| ==> ParseHeader(buf, offset).Some?
    ensures offset + 2 <= |buf| && LowSeven(buf[offset + 1]) == 126 && offset + 4 > |buf| ==>
      ParseHeader(buf, offset).None?
    ensures offset + 2 <= |buf| && LowSeven(buf[offset + 1]) == 127 && offset + 10 > |buf| ==>
      ParseHeader(buf, offset).None?
    ensures offset + 2 <= |buf| && LowSeven(buf[offset + 1]) < 126 ==>
      ParseHeader(buf, offset) == Some(FrameHeader(2, LowSeven(buf[offset + 1])))
    ensures offset + 4 <= |buf| && LowSeven(buf[offset + 1]) == 126 ==>
      ParseHeader(buf, offset) == Some(FrameHeader(4, BigEndianValue(buf[offset + 2..offset + 4])))
    ensures offset + 10 <= |buf| && LowSeven(buf[offset + 1]) == 127 ==>
      ParseHeader(buf, offset) == Some(FrameHeader(10, BigEndianValue(buf[offset + 2..offset + 10])))
    ensures ParseHeader(buf, offset).Some? ==>
      var h := ParseHeader(buf, offset).value;
      && (h.headerLength == 2 || h.headerLength == 4 || h.headerLength == 10)
      && offset + h.headerLength <= |buf|
      && (h.headerLength == 2 ==> h.payloadLength <= 125)
      && (h.headerLength == 4 ==> h.payloadLength < 65536)
      && (h.headerLength == 10 ==> h.payloadLength < TwoTo64)
  {
    Pow256Values();
    if offset + 10 <= |buf| {
      BigEndianBound(buf[offset + 2..offset + 10]);
    }
    if offset + 4 <= |buf| {
      BigEndianBound(buf[offset + 2..offset + 4]);
    }
  }

  /** The walk never looks at the first header byte: FIN, the opcode and the reserved
      bits change nothing, so continuation, text and close frames read like binary ones. */
  lemma ParseHeaderIgnoresFirstByte(buf: seq<byte>, offset: nat, b: byte)
    requires offset + 2 <= |buf|
    ensures ParseHeader(buf[offset := b], offset) == ParseHeader(buf, offset)
  {
    var other := buf[offset := b];
    assert other[offset + 1] == buf[offset + 1];
    if offset + 4 <= |buf| {
      assert other[offset + 2..offset + 4] == buf[offset + 2..offset + 4];
    }
    if offset + 10 <= |buf| {
      assert other[offset + 2..offset + 10] == buf[offset + 2..offset + 10];
    }
  }

  /** One frame of the walk: its payload and the offset of the byte after it. */
  datatype Frame = Frame(payload: seq<byte>, next: nat)

  /** Lines 98-115 and 124 for the frame at `offset`: None where the loop ends, else the
      payload sliced with Python's clamping and the offset moved past the declared
      length. Every frame takes at least its two header bytes. */
  function FrameAt(buf: seq<byte>, offset: nat): (r: Option<Frame>)
    ensures r.Some? ==> offset < |buf| && offset + 2 <= r.value.next
  {
    if offset >= |buf| then None
    else
      match ParseHeader(buf, offset)
      case None => None
      case Some(h) =>
        var start := offset + h.headerLength;
        Some(Frame(Slice(buf, start, start + h.payloadLength), start + h.payloadLength))
  }

  /** The payloads the walk slices out from `offset` on, in buffer order. */
  function Frames(buf: seq<byte>, offset: nat): seq<seq<byte>>
    decreases |buf| - offset
  {
    match FrameAt(buf, offset)
    case None => []
    case Some(f) => [f.payload] + Frames(buf, f.next)
  }

  /** The walk terminates with at most one payload per two bytes left, since every
      frame takes at least its two header bytes from the buffer. */
  lemma {:induction false} FramesBound(buf: seq<byte>, offset: nat)
    requires offset <= |buf|
    ensures 2 * |Frames(buf, offset)| <= |buf| - offset
    decreases |buf| - offset
  {
    match FrameAt(buf, offset)
    case None =>
    case Some(f) =>
      if f.next <= |buf| {
        FramesBound(buf, f.next);
      } else {
        assert FrameAt(buf, f.next).None?;
      }
  }

  /** Index of the first payload of at least two bytes, or |ps| if there is none. */
  function FirstLong(ps: seq<seq<byte>>): (k: nat)
    ensures k <= |ps|
    ensures forall i :: 0 <= i < k ==> |ps[i]| < 2
    ensures k < |ps| ==> |ps[k]| >= 2
  {
    if |ps| == 0 then 0
    else if |ps[0]| >= 2 then 0
    else 1 + FirstLong(ps[1..])
  }

  /** Lines 97 and 117-121 over the whole pass: the response header is stripped from the
      first payload of at least two bytes and from no other. */
  function StripFirst(ps: seq<seq<byte>>): (r: seq<seq<byte>>)
    ensures |r| == |ps|
    ensures forall i :: 0 <= i < |ps| && i != FirstLong(ps) ==> r[i] == ps[i]
    ensures FirstLong(ps) < |ps| ==> r[FirstLong(ps)] == StripResponseHeader(ps[FirstLong(ps)])
  {
    if |ps| == 0 then []
    else if |ps[0]| >= 2 then [StripResponseHeader(ps[0])] + ps[1..]
    else [ps[0]] + StripFirst(ps[1..])
  }

  /** The strip still owed to the payloads left to walk. */
  function Pending(ps: seq<seq<byte>>, first: bool): seq<seq<byte>> {
    if first then StripFirst(ps) else ps
  }

  /** Lines 117-121 for one payload: the chunk handed on and the flag after it. */
  datatype Handed = Handed(chunk: seq<byte>, first: bool)

  function HandOn(raw: seq<byte>, first: bool): Handed {
    if first && |raw| >= 2 then Handed(StripResponseHeader(raw), false) else Handed(raw, first)
  }

  /** Handing on one payload settles the strip for it and leaves the rest owed. */
  lemma PendingCons(raw: seq<byte>, rest: seq<seq<byte>>, first: bool)
    ensures var handed := HandOn(raw, first);
      Pending([raw] + rest, first) == [handed.chunk] + Pending(rest, handed.first)
  {
    if first && |raw| < 2 {
      assert ([raw] + rest)[1..] == rest;
    }
  }

  /** The application chunks one decode pass yields for a received buffer. */
  function Decode(buf: seq<byte>): seq<seq<byte>> {
    StripFirst(Frames(buf, 0))
  }

  /** The loop of lines 96-124 as written, from `offset` on with `first` the flag of
      line 97: each frame's payload is handed on, stripped while the flag is set. */
  function Walk(buf: seq<byte>, offset: nat, first: bool): seq<seq<byte>>
    decreases |buf| - offset
  {
    match FrameAt(buf, offset)
    case None => []
    case Some(f) =>
      var handed := HandOn(f.payload, first);
      [handed.chunk] + Walk(buf, f.next, handed.first)
  }

  /** The interleaved loop computes the raw walk followed by the once-only strip. */
  lemma {:induction false} WalkIsStripOfFrames(buf: seq<byte>, offset: nat, first: bool)
    ensures Walk(buf, offset, first) == Pending(Frames(buf, offset), first)
    decreases |buf| - offset
  {
    match FrameAt(buf, offset)
    case None =>
    case Some(f) =>
      var handed := HandOn(f.payload, first);
      WalkIsStripOfFrames(buf, f.next, handed.first);
      PendingCons(f.payload, Frames(buf, f.next), first);
  }

  /** Decoding a whole buffer: the walk from offset 0 with the flag set. */
  lemma DecodeIsWalk(buf: seq<byte>)
    ensures Decode(buf) == Walk(buf, 0, true)
  {
    WalkIsStripOfFrames(buf, 0, true);
  }

  /** One step of the walk: the frame at `offset` and the walk after it. */
  lemma FramesStep(buf: seq<byte>, offset: nat, headerLength: nat, length: nat)
    requires offset < |buf| && ParseHeader(buf, offset) == Some(FrameHeader(headerLength, length))
    ensures Frames(buf, offset)
      == [Slice(buf, offset + headerLength, offset + headerLength + length)] + Frames(buf, offset + headerLength + length)
  {
    FrameAtHeader(buf, offset, headerLength, length);
  }

  /** The frame at `offset` when a header is there. */
  lemma FrameAtHeader(buf: seq<byte>, offset: nat, headerLength: nat, length: nat)
    requires offset < |buf| && ParseHeader(buf, offset) == Some(FrameHeader(headerLength, length))
    ensures FrameAt(buf, offset)
      == Some(Frame(Slice(buf, offset + headerLength, offset + headerLength + length), offset + headerLength + length))
  {
  }

  /** The walk stops at the end of the buffer and at an incomplete header. */
  lemma FramesStop(buf: seq<byte>, offset: nat)
    requires offset >= |buf| || ParseHeader(buf, offset).None?
    ensures Frames(buf, offset) == []
  {
    assert FrameAt(buf, offset).None?;
  }

  // Round trips against the encoder.

  /** The walk reads back the header the encoder wrote, whichever mask flag it carries
      and wherever in the buffer it sits: 2, 4 or 10 header bytes and the payload length. */
  lemma {:induction false} ParseEncodedHeader(pre: seq<byte>, flag: byte, n: nat, tail: seq<byte>)
    requires IsMaskFlag(flag) && n < TwoTo64
    ensures ParseHeader(pre + [FinBinary] + LengthField(flag, n) + tail, |pre|)
      == Some(FrameHeader(2 + ExtendedLength(n), n))
  {
    var field := LengthField(flag, n);
    var f := [FinBinary] + field + tail;
    var buf := pre + [FinBinary] + field + tail;
    assert buf == pre + f;
    SecondByte(flag, n);
    HeaderSlices(flag, n, tail);
    assert buf[|pre| + 1] == f[1];
    if n > 125 {
      assert buf[|pre| + 2..|pre| + 2 + ExtendedLength(n)] == f[2..2 + ExtendedLength(n)] == field[1..];
    }
  }

  /** Every payload fits the 64-bit length field. */
  predicate Framable(ds: seq<seq<byte>>) {
    forall i :: 0 <= i < |ds| ==> |ds[i]| < TwoTo64
  }

  /** What a server sends for the payloads `ds`: one unmasked frame each, in order. */
  function ServerStream(ds: seq<seq<byte>>): (r: seq<byte>)
    requires Framable(ds)
  {
    if |ds| == 0 then [] else ServerFrame(ds[0]) + ServerStream(ds[1..])
  }

  /** The walk recovers, in order, exactly the payloads of a stream of unmasked frames,
      across all three length forms, whatever it has already walked past. */
  lemma {:induction false} ServerStreamFrom(pre: seq<byte>, ds: seq<seq<byte>>)
    requires Framable(ds)
    ensures Frames(pre + ServerStream(ds), |pre|) == ds
    decreases |ds|
  {
    var buf := pre + ServerStream(ds);
    if |ds| == 0 {
      FramesStop(buf, |pre|);
    } else {
      var rest := ServerStream(ds[1..]);
      var pre' := pre + ServerFrame(ds[0]);
      assert buf == pre' + rest;
      ServerFrameAt(pre, ds[0], rest);
      ServerStreamFrom(pre', ds[1..]);
    }
  }

  /** One unmasked frame in the middle of a buffer: the walk reads its payload and
      moves to the byte after it. */
  lemma ServerFrameAt(pre: seq<byte>, d: seq<byte>, rest: seq<byte>)
    requires |d| < TwoTo64
    ensures Frames(pre + ServerFrame(d) + rest, |pre|)
      == [d] + Frames(pre + ServerFrame(d) + rest, |pre + ServerFrame(d)|)
  {
    var buf := pre + ServerFrame(d) + rest;
    var hl := 2 + ExtendedLength(|d|);
    assert buf == pre + [FinBinary] + LengthField(0, |d|) + (d + rest);
    ParseEncodedHeader(pre, 0, |d|, d + rest);
    FramesStep(buf, |pre|, hl, |d|);
    assert buf[|pre| + hl..|pre| + hl + |d|] == d;
  }

  /** The walk recovers, in order, exactly the payloads of a stream of unmasked frames. */
  lemma ServerStreamRoundTrip(ds: seq<seq<byte>>)
    requires Framable(ds)
    ensures Frames(ServerStream(ds), 0) == ds
  {
    ServerStreamFrom([], ds);
    assert [] + ServerStream(ds) == ServerStream(ds);
  }

  /** One frame on its own. */
  lemma ServerFrameRoundTrip(data: seq<byte>)
    requires |data| < TwoTo64
    ensures Frames(ServerFrame(data), 0) == [data]
  {
    var f := ServerFrame(data);
    assert [] + f + [] == f;
    ServerFrameAt([], data, []);
    FramesStop(f, |f|);
  }

  /** A server reply (the response header with the first application bytes, then further
      payloads) decodes to exactly the application bytes, in order. */
  lemma DecodeServerReply(version: byte, addons: seq<byte>, first: seq<byte>, more: seq<seq<byte>>)
    requires |addons| <= 255
    requires |ResponseHeader(version, addons) + first| < TwoTo64 && Framable(more)
    ensures var sent := [ResponseHeader(version, addons) + first] + more;
      Framable(sent) && Decode(ServerStream(sent)) == [first] + more
  {
    var sent := [ResponseHeader(version, addons) + first] + more;
    assert sent[1..] == more;
    ServerStreamRoundTrip(sent);
    StripResponseHeaderRoundTrip(version, addons, first);
  }

  /** A masked frame is not what the walk expects: it takes the key for the start of the
      payload, so the bytes it yields are the key followed by masked bytes. */
  lemma MaskedFrameMisread(data: seq<byte>, key: MaskKey)
    requires |data| < TwoTo64
    ensures Frames(EncodeFrame(data, key).value, 0)[0] == (key + Mask(data, key))[..|data|]
  {
    var tail := key + Mask(data, key);
    assert EncodeFrame(data, key).value == [FinBinary] + LengthField(MaskBit, |data|) + tail;
    FirstPayloadAfterHeader(MaskBit, |data|, tail);
  }

  /** The first payload the walk reads after a header it understands: the next `n` bytes,
      clamped to the buffer. */
  lemma FirstPayloadAfterHeader(flag: byte, n: nat, tail: seq<byte>)
    requires IsMaskFlag(flag) && n < TwoTo64
    ensures var buf := [FinBinary] + LengthField(flag, n) + tail;
      |Frames(buf, 0)| > 0 && Frames(buf, 0)[0] == Slice(tail, 0, n)
  {
    var buf := [FinBinary] + LengthField(flag, n) + tail;
    assert buf == [] + [FinBinary] + LengthField(flag, n) + tail;
    ParseEncodedHeader([], flag, n, tail);
    var hl := 2 + ExtendedLength(n);
    FramesStep(buf, 0, hl, n);
    assert buf[hl..] == tail;
    SliceAfter(buf, hl, n);
  }

  /** The relay's reading of one client frame per sections 5.2 and 5.3 of RFC 6455: a
      final binary frame, the header the walk reads with its length in the shortest form,
      the mask bit, then the key, then the masked payload, which must end the input. */
  function ReadClientFrame(f: seq<byte>): (r: Option<seq<byte>>)
    ensures r.Some? ==>
      && |f| == 2 + ExtendedLength(|r.value|) + 4 + |r.value|
      && f[0] == FinBinary && MaskBitSet(f[1])
    ensures r.Some? ==>
      var hl := 2 + ExtendedLength(|r.value|);
      && ParseHeader(f, 0) == Some(FrameHeader(hl, |r.value|))
      && Mask(r.value, f[hl..hl + 4]) == f[hl + 4..]
  {
    match ParseHeader(f, 0)
    case None => None
    case Some(h) =>
      if f[0] != FinBinary || !MaskBitSet(f[1]) then None
      else if h.headerLength != 2 + ExtendedLength(h.payloadLength) then None
      else if |f| != h.headerLength + 4 + h.payloadLength then None
      else
        var key := f[h.headerLength..h.headerLength + 4];
        MaskInvolution(f[h.headerLength + 4..], key);
        Some(Mask(f[h.headerLength + 4..], key))
  }

  /** What the client sends is what the relay reads: header, key and masked payload
      decode back to the payload. */
  lemma EncodeFrameRoundTrip(data: seq<byte>, key: MaskKey)
    requires |data| < TwoTo64
    ensures ReadClientFrame(EncodeFrame(data, key).value) == Some(data)
  {
    var f := EncodeFrame(data, key).value;
    var tail := key + Mask(data, key);
    assert f == [] + [FinBinary] + LengthField(MaskBit, |data|) + tail;
    ParseEncodedHeader([], MaskBit, |data|, tail);
    MaskInvolution(data, key);
  }
}
