/**
 The client session of test_vless.py put together. The client completes the WebSocket
 handshake. It sends one masked binary frame holding the VLESS request header followed by
 the application bytes (line 54). Then it decodes whatever the server sent back. A relay
 on the other end reads the frame, unmasks it, and splits it back into the request and
 the application bytes.
 */
module Tunnel {
  import opened Bytes
  import opened Wrappers
  import opened Masking
  import opened FrameEncoder
  import opened FrameDecoder
  import opened Vless
  import opened Handshake

  /** Why a session does not get as far as sending its frame. */
  datatype SessionError =
    | HandshakeClosed                  // the peer closed before CR LF CR LF (corrected loop only)
    | HandshakeUnfinished              // the reads so far hold no CR LF CR LF
    | BadHeader(header: HeaderError)   // struct.pack or bytes() would raise
    | BadFrame(frame: FrameError)      // more bytes than a 64-bit length can carry

  /** The first payload: the request header followed by the application bytes (line 54). */
  function FirstPayload(id: Uuid, port: int, domain: seq<byte>, app: seq<byte>): (r: Result<seq<byte>, HeaderError>)
    ensures r.Success? <==> 0 <= port <= 65535 && |domain| <= 255
    ensures r.Failure? ==> r == Failure(RequestHeader(id, port, domain).error)
    ensures r.Success? ==> |r.value| == FixedHeaderLength + |domain| + |app|
  {
    match RequestHeader(id, port, domain)
    case Failure(e) => Failure(e)
    case Success(h) => Success(h + app)
  }

  /** The relay's reading of a first payload: the header is 23 bytes plus the domain
      length in byte 22, and everything after it is application data. */
  function SplitPayload(p: seq<byte>): (r: Option<(Request, seq<byte>)>)
    ensures r.Some? ==> |p| == FixedHeaderLength + |r.value.0.domain| + |r.value.1|
  {
    if |p| < FixedHeaderLength then None
    else
      var n := FixedHeaderLength + p[22];
      if n > |p| then None
      else match ParseRequestHeader(p[..n])
        case None => None
        case Some(req) => Some((req, p[n..]))
  }

  /** The relay recovers the request and the application bytes from the first payload. */
  lemma FirstPayloadRoundTrip(id: Uuid, port: int, domain: seq<byte>, app: seq<byte>)
    requires 0 <= port <= 65535 && |domain| <= 255
    ensures SplitPayload(FirstPayload(id, port, domain, app).value) == Some((Request(id, port, domain), app))
  {
    var h := RequestHeader(id, port, domain).value;
    var p := h + app;
    assert p[22] == h[22] == |domain|;
    assert p[..|h|] == h;
    assert p[|h|..] == app;
  }

  /** Lines 38-76 once the handshake is done: the request header, the payload of line
      54, and the frame `send_ws_frame` sends for it. */
  function SendRequest(id: Uuid, port: int, domain: seq<byte>, app: seq<byte>, key: MaskKey): (r: Result<seq<byte>, SessionError>)
    ensures r.Success? <==>
      0 <= port <= 65535 && |domain| <= 255 && FixedHeaderLength + |domain| + |app| < TwoTo64
    ensures !(0 <= port <= 65535) ==> r == Failure(BadHeader(PortOutOfRange))
    ensures 0 <= port <= 65535 && |domain| > 255 ==> r == Failure(BadHeader(DomainTooLong))
    ensures r.Success? ==> r.value == EncodeFrame(FirstPayload(id, port, domain, app).value, key).value
  {
    match FirstPayload(id, port, domain, app)
    case Failure(e) => Failure(BadHeader(e))
    case Success(p) =>
      match EncodeFrame(p, key)
      case Failure(e) => Failure(BadFrame(e))
      case Success(f) => Success(f)
  }

  /** The session as the script runs it: the read loop of lines 33-35, then the frame. A
      peer that closes early leaves the loop still waiting, never reported as a close. */
  function Open(id: Uuid, port: int, domain: seq<byte>, app: seq<byte>, key: MaskKey,
                replies: seq<seq<byte>>): (r: Result<seq<byte>, SessionError>)
    ensures r != Failure(HandshakeClosed)
    ensures ReadResponse(replies).Waiting? ==> r == Failure(HandshakeUnfinished)
    ensures r.Success? <==>
      && ReadResponse(replies).Complete?
      && 0 <= port <= 65535 && |domain| <= 255
      && FixedHeaderLength + |domain| + |app| < TwoTo64
    ensures ReadResponse(replies).Complete? && !(0 <= port <= 65535) ==>
      r == Failure(BadHeader(PortOutOfRange))
    ensures ReadResponse(replies).Complete? && 0 <= port <= 65535 && |domain| > 255 ==>
      r == Failure(BadHeader(DomainTooLong))
    ensures r.Success? ==> r.value == EncodeFrame(FirstPayload(id, port, domain, app).value, key).value
  {
    match ReadResponse(replies)
    case Complete(_, _) => SendRequest(id, port, domain, app, key)
    case _ => Failure(HandshakeUnfinished)
  }

  /** The session with the corrected read loop: a close before CR LF CR LF is reported. */
  function OpenChecked(id: Uuid, port: int, domain: seq<byte>, app: seq<byte>, key: MaskKey,
                       replies: seq<seq<byte>>): (r: Result<seq<byte>, SessionError>)
    ensures ReadResponseChecked(replies).Closed? ==> r == Failure(HandshakeClosed)
    ensures ReadResponseChecked(replies).Waiting? ==> r == Failure(HandshakeUnfinished)
    ensures r.Success? <==>
      && ReadResponseChecked(replies).Complete?
      && 0 <= port <= 65535 && |domain| <= 255
      && FixedHeaderLength + |domain| + |app| < TwoTo64
    ensures ReadResponseChecked(replies).Complete? && !(0 <= port <= 65535) ==>
      r == Failure(BadHeader(PortOutOfRange))
    ensures ReadResponseChecked(replies).Complete? && 0 <= port <= 65535 && |domain| > 255 ==>
      r == Failure(BadHeader(DomainTooLong))
    ensures r.Success? ==> r.value == EncodeFrame(FirstPayload(id, port, domain, app).value, key).value
  {
    match ReadResponseChecked(replies)
    case Closed(_, _) => Failure(HandshakeClosed)
    case Waiting(_) => Failure(HandshakeUnfinished)
    case Complete(_, _) => SendRequest(id, port, domain, app, key)
  }

  /** As the script runs it, a session whose peer closes after a partial response never
      gets to send its frame, however many empty reads follow. */
  lemma OpenSpinsAfterClose(id: Uuid, port: int, domain: seq<byte>, app: seq<byte>, key: MaskKey,
                            c: seq<byte>, n: nat)
    requires !HasInfix(c, Terminator)
    ensures Open(id, port, domain, app, key, [c] + Empties(n)) == Failure(HandshakeUnfinished)
  {
    AsWrittenSpinsAfterClose(c, n);
  }

  /** With the corrected loop the same session ends with the close reported. */
  lemma OpenCheckedStopsAtClose(id: Uuid, port: int, domain: seq<byte>, app: seq<byte>, key: MaskKey,
                                c: seq<byte>, n: nat)
    requires c != [] && !HasInfix(c, Terminator) && n > 0
    ensures OpenChecked(id, port, domain, app, key, [c] + Empties(n)) == Failure(HandshakeClosed)
  {
    CheckedStopsAtClose(c, n);
  }

  /** While the peer keeps the connection open, the corrected session sends what the
      script sends. */
  lemma OpenCheckedAgrees(id: Uuid, port: int, domain: seq<byte>, app: seq<byte>, key: MaskKey,
                          replies: seq<seq<byte>>)
    requires forall k :: 0 <= k < |replies| ==> replies[k] != []
    ensures OpenChecked(id, port, domain, app, key, replies) == Open(id, port, domain, app, key, replies)
  {
    CheckedAgrees(replies);
  }

  /** Whatever masking key was drawn, a relay that unmasks the frame and splits the
      payload gets back the request and the application bytes the client meant. */
  lemma RelayRecoversRequest(id: Uuid, port: int, domain: seq<byte>, app: seq<byte>, key: MaskKey,
                             replies: seq<seq<byte>>)
    requires Open(id, port, domain, app, key, replies).Success?
    ensures var f := ReadClientFrame(Open(id, port, domain, app, key, replies).value);
      f.Some? && SplitPayload(f.value) == Some((Request(id, port, domain), app))
  {
    var p := FirstPayload(id, port, domain, app).value;
    EncodeFrameRoundTrip(p, key);
    FirstPayloadRoundTrip(id, port, domain, app);
  }

  // The session of lines 9-14 and 51.

  /** The UUID of line 12 as the 16 bytes `uuid.UUID(...).bytes` gives. */
  const ScenarioId: Uuid :=
    [0xc3, 0x73, 0xc8, 0x0c, 0x58, 0xe4, 0x4e, 0x64, 0x8d, 0xb5, 0x40, 0x09, 0x69, 0x05, 0xec, 0x58]

  /** "httpbin.org" in ASCII. */
  const TargetHost: seq<byte> := [104, 116, 116, 112, 98, 105, 110, 46, 111, 114, 103]

  const TargetPort: nat := 80

  /** The 58-byte HTTP request of line 51. */
  const IpRequest: seq<byte> :=
    [71, 69, 84, 32, 47, 105, 112, 32, 72, 84, 84, 80, 47, 49, 46, 49, 13, 10,       // GET /ip HTTP/1.1
     72, 111, 115, 116, 58, 32, 104, 116, 116, 112, 98, 105, 110, 46, 111, 114, 103, 13, 10,  // Host: httpbin.org
     67, 111, 110, 110, 101, 99, 116, 105, 111, 110, 58, 32, 99, 108, 111, 115, 101, 13, 10,  // Connection: close
     13, 10]

  /** The sizes line 55 and line 74 report for this session: a 34-byte header and a
      58-byte request make a 92-byte payload, sent as a 98-byte frame whose second byte is
      the mask bit plus 92. */
  lemma ScenarioSizes(key: MaskKey)
    ensures var p := FirstPayload(ScenarioId, TargetPort, TargetHost, IpRequest);
      && p.Success? && |IpRequest| == 58 && |p.value| - |IpRequest| == 34 && |p.value| == 92
      && var f := EncodeFrame(p.value, key);
      && f.Success? && |f.value| == 98 && f.value[0] == 0x82 && f.value[1] == 220
  {
    var p := FirstPayload(ScenarioId, TargetPort, TargetHost, IpRequest).value;
    var f := EncodeFrame(p, key).value;
    assert MaskBitSet(f[1]) && LowSeven(f[1]) == 92;
  }

  /** For this session the relay reads port 80, the domain "httpbin.org" and the HTTP
      request out of the frame the client sent. */
  lemma ScenarioRelay(key: MaskKey, replies: seq<seq<byte>>)
    requires ReadResponse(replies).Complete?
    ensures var o := Open(ScenarioId, TargetPort, TargetHost, IpRequest, key, replies);
      && o.Success?
      && var f := ReadClientFrame(o.value);
      && f.Some? && SplitPayload(f.value) == Some((Request(ScenarioId, 80, TargetHost), IpRequest))
  {
    RelayRecoversRequest(ScenarioId, TargetPort, TargetHost, IpRequest, key, replies);
  }
}
