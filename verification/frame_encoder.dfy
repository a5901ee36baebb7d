/**
 The client frame encoder `send_ws_frame` (test_vless.py:58-74): one final binary frame,
 the payload length in one of the three forms of section 5.2 of RFC 6455, and the payload
 masked with a 4-byte key as section 5.3 requires of a client. `ServerFrame` is the same
 layout with the mask bit clear and no key, the form a server sends back.
 */
module FrameEncoder {
  import opened Bytes
  import opened Wrappers
  import opened Masking

  /** First header byte: FIN set, opcode 2 (binary). */
  const FinBinary: byte := 0x82
  /** The MASK bit of the second header byte. */
  const MaskBit: byte := 0x80
  /** Length markers of the 16-bit and 64-bit extended payload length. */
  const Marker16: byte := 126
  const Marker64: byte := 127
  /** `struct.pack('>Q')` accepts lengths below 2^64 only. */
  const TwoTo64: nat := 0x1_0000_0000_0000_0000

  datatype FrameError = PayloadTooLong

  /** A second-byte flag: the mask bit or nothing. */
  predicate IsMaskFlag(flag: byte) {
    flag == 0 || flag == MaskBit
  }

  /** The top bit of a byte, `b & 0x80 != 0`. */
  predicate MaskBitSet(b: byte) {
    b >= 128
  }

  /** The low seven bits of a byte, `b & 0x7F`. */
  function LowSeven(b: byte): nat {
    b % 128
  }

  /** Number of extended-length bytes for a payload of `n` bytes. */
  function ExtendedLength(n: nat): nat {
    if n <= 125 then 0 else if n <= 65535 then 2 else 8
  }

  lemma Pow256Values()
    ensures Pow256(2) == 65536
    ensures Pow256(8) == TwoTo64
  {
  }

  /** The second header byte followed by the extended length, if any. The flag is the
      top bit and the length or marker fits in the low seven, so `flag | length` is
      their sum. */
  function LengthField(flag: byte, n: nat): (r: seq<byte>)
    requires IsMaskFlag(flag) && n < TwoTo64
    ensures |r| == 1 + ExtendedLength(n)
  {
    Pow256Values();
    if n <= 125 then [flag + n]
    else if n <= 65535 then [flag + Marker16] + BigEndian(n, 2)
    else [flag + Marker64] + BigEndian(n, 8)
  }

  /** `send_ws_frame`: header, key, masked payload; a payload too long for the 64-bit
      length field makes `struct.pack` fail. */
  function EncodeFrame(data: seq<byte>, key: MaskKey): (r: Result<seq<byte>, FrameError>)
    ensures r.Success? <==> |data| < TwoTo64
    ensures r.Success? ==> |r.value| == 2 + ExtendedLength(|data|) + 4 + |data|
    ensures r.Success? ==> r.value[0] == FinBinary && MaskBitSet(r.value[1])
    ensures r.Success? && |data| <= 125 ==> LowSeven(r.value[1]) == |data|
    ensures r.Success? && 126 <= |data| <= 65535 ==>
      LowSeven(r.value[1]) == Marker16 && BigEndianValue(r.value[2..4]) == |data|
    ensures r.Success? && 65535 < |data| ==>
      LowSeven(r.value[1]) == Marker64 && BigEndianValue(r.value[2..10]) == |data|
    ensures r.Success? ==>
      var keyStart := 2 + ExtendedLength(|data|);
      r.value[keyStart..keyStart + 4] == key && r.value[keyStart + 4..] == Mask(data, key)
  {
    if |data| >= TwoTo64 then Failure(PayloadTooLong)
    else
      var tail := key + Mask(data, key);
      var f := [FinBinary] + LengthField(MaskBit, |data|) + tail;
      SecondByte(MaskBit, |data|);
      HeaderSlices(MaskBit, |data|, tail);
      assert tail[..4] == key && tail[4..] == Mask(data, key);
      assert 65535 < |data| ==> f[2..10] == LengthField(MaskBit, |data|)[1..9];
      assert 125 < |data| ==> f[2..4] == LengthField(MaskBit, |data|)[1..3];
      Success(f)
  }

  /** A frame as a server sends it: the same header with the mask bit clear, no key, and
      the payload in the clear. */
  function ServerFrame(data: seq<byte>): (r: seq<byte>)
    requires |data| < TwoTo64
    ensures |r| == 2 + ExtendedLength(|data|) + |data|
  {
    [FinBinary] + LengthField(0, |data|) + data
  }

  /** Where the parts of a frame sit: the first byte, the length field, and whatever
      follows it. */
  lemma HeaderSlices(flag: byte, n: nat, tail: seq<byte>)
    requires IsMaskFlag(flag) && n < TwoTo64
    ensures var field := LengthField(flag, n);
      var f := [FinBinary] + field + tail;
      && f[0] == FinBinary && f[1] == field[0]
      && f[2..1 + |field|] == field[1..]
      && f[1 + |field|..] == tail
  {
  }

  /** What the second byte says, whichever flag it carries: the top bit is the flag,
      the low seven bits hold the length or the marker, and the extended bytes hold the
      length in big-endian order. */
  lemma SecondByte(flag: byte, n: nat)
    requires IsMaskFlag(flag) && n < TwoTo64
    ensures MaskBitSet(LengthField(flag, n)[0]) <==> flag == MaskBit
    ensures n <= 125 ==> LowSeven(LengthField(flag, n)[0]) == n
    ensures 126 <= n <= 65535 ==>
      LowSeven(LengthField(flag, n)[0]) == Marker16 && BigEndianValue(LengthField(flag, n)[1..]) == n
    ensures 65535 < n ==>
      LowSeven(LengthField(flag, n)[0]) == Marker64 && BigEndianValue(LengthField(flag, n)[1..]) == n
  {
    Pow256Values();
    var f := LengthField(flag, n);
    if 125 < n <= 65535 {
      assert f[1..] == BigEndian(n, 2);
    } else if 65535 < n {
      assert f[1..] == BigEndian(n, 8);
    }
  }
}
