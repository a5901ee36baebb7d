/**
 The VLESS envelope: the request header the client puts in front of the tunnelled bytes
 (test_vless.py:39-48, 54) and the response header it strips from the first reply
 payload (test_vless.py:117-121). `ParseRequestHeader` and `ResponseHeader` are the relay's
 side of the same layouts, against which the client's two operations are checked.
 */
module Vless {
  import opened Bytes
  import opened Wrappers

  /** The 16 raw bytes of the client UUID (`uuid.UUID(...).bytes`). */
  type Uuid = s: seq<byte> | |s| == 16 witness [0, 0, 0, 0, 0, 0, 0, 0, 0, 0, 0, 0, 0, 0, 0, 0]

  const Version: byte := 0
  const NoAddons: byte := 0
  const CommandTcp: byte := 1
  const AddressDomain: byte := 2
  /** Version, UUID, addon length, command, port, address type, domain length. */
  const FixedHeaderLength: nat := 23

  /** `struct.pack('>H', port)` rejects a port outside 0..65535; `bytes([n])` rejects a
      domain length over 255. */
  datatype HeaderError = PortOutOfRange | DomainTooLong

  /** A request for a TCP connection to `domain:port`, as the relay reads it. */
  datatype Request = Request(id: Uuid, port: nat, domain: seq<byte>)

  /** The request header of lines 39-48; the port is packed (and can fail) before the
      domain length is. */
  function RequestHeader(id: Uuid, port: int, domain: seq<byte>): (r: Result<seq<byte>, HeaderError>)
    ensures r == Failure(PortOutOfRange) <==> !(0 <= port <= 65535)
    ensures r == Failure(DomainTooLong) <==> 0 <= port <= 65535 && |domain| > 255
    ensures r.Success? ==> |r.value| == FixedHeaderLength + |domain|
    ensures r.Success? ==>
      && r.value[0] == Version && r.value[1..17] == id && r.value[17] == NoAddons
      && r.value[18] == CommandTcp && BigEndianValue(r.value[19..21]) == port
      && r.value[21] == AddressDomain && r.value[22] == |domain| && r.value[23..] == domain
    ensures r.Success? ==> ParseRequestHeader(r.value) == Some(Request(id, port, domain))
  {
    if !(0 <= port <= 65535) then Failure(PortOutOfRange)
    else if |domain| > 255 then Failure(DomainTooLong)
    else
      assert Pow256(2) == 65536;
      var h := [Version] + id + [NoAddons] + [CommandTcp] + BigEndian(port, 2)
        + [AddressDomain] + [|domain|] + domain;
      assert h[..1] == [Version] && h[1..17] == id && h[17] == NoAddons && h[18] == CommandTcp;
      assert h[19..21] == BigEndian(port, 2) && h[21] == AddressDomain;
      assert h[22] == |domain| && h[23..] == domain;
      Success(h)
  }

  /** The relay's reading of a domain-address TCP request header with no addons: the
      whole input must be exactly one such header. */
  function ParseRequestHeader(h: seq<byte>): (r: Option<Request>)
    ensures r.Some? ==> |h| == FixedHeaderLength + |r.value.domain| && r.value.port <= 65535
  {
    if |h| < FixedHeaderLength then None
    else if h[0] != Version || h[17] != NoAddons || h[18] != CommandTcp || h[21] != AddressDomain then None
    else if |h| != FixedHeaderLength + h[22] then None
    else
      assert Pow256(2) == 65536;
      BigEndianBound(h[19..21]);
      Some(Request(h[1..17], BigEndianValue(h[19..21]), h[23..]))
  }

  /** Two requests that differ in identity, port or domain never share a header. */
  lemma RequestHeaderInjective(id1: Uuid, port1: int, domain1: seq<byte>, id2: Uuid, port2: int, domain2: seq<byte>)
    requires RequestHeader(id1, port1, domain1).Success?
    requires RequestHeader(id1, port1, domain1) == RequestHeader(id2, port2, domain2)
    ensures id1 == id2 && port1 == port2 && domain1 == domain2
  {
    assert ParseRequestHeader(RequestHeader(id1, port1, domain1).value) == Some(Request(id1, port1, domain1));
  }

  /** The response header a relay sends first: version and the addon bytes with their
      length. */
  function ResponseHeader(version: byte, addons: seq<byte>): (r: seq<byte>)
    requires |addons| <= 255
    ensures |r| == 2 + |addons|
  {
    [version, |addons|] + addons
  }

  /** Lines 119-120: drop the version byte, the addon-length byte and that many addon
      bytes; Python's slice leaves nothing when the payload is shorter than that. The
      caller only applies it to payloads of at least two bytes (line 117). */
  function StripResponseHeader(payload: seq<byte>): (r: seq<byte>)
    requires |payload| >= 2
    ensures |r| == if 2 + payload[1] <= |payload| then |payload| - 2 - payload[1] else 0
    ensures r == payload[|payload| - |r|..]
  {
    var headerSize: nat := payload[1] as int + 2;
    Drop(payload, headerSize)
  }

  /** Whatever the relay's response header carries, stripping it returns exactly the
      application bytes that followed it. */
  lemma {:induction false} StripResponseHeaderRoundTrip(version: byte, addons: seq<byte>, rest: seq<byte>)
    requires |addons| <= 255
    ensures StripResponseHeader(ResponseHeader(version, addons) + rest) == rest
  {
    var p := ResponseHeader(version, addons) + rest;
    assert p[1] == |addons|;
    assert p[2 + |addons|..] == rest;
  }
}
