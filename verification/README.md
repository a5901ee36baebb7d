# VLESS over WebSocket: the CFspider tunnel client

CFspider ships a hand-written VLESS-over-WebSocket client, `test_vless.py`. It connects
to a Cloudflare Workers relay over TLS and opens a WebSocket (section 4.1 of RFC 6455,
version 13). It then sends one masked binary frame. That frame holds a VLESS request
header (version 0, a 16-byte UUID, no addons, command TCP, big-endian port, a domain
address) followed by a plain HTTP request. Finally it reads back the server's frames and
strips the relay's VLESS response header from the first payload of at least two bytes,
which need not be the first frame's.

This project models the byte-level core of that client as pure Dafny functions over
byte sequences. A byte is an integer in 0..255, exactly as Python's `bytes` indexing
yields it. The modules are:

- `Bytes`: Python slicing with clamped bounds, `struct.pack`/`struct.unpack` for `>H`
  and `>Q` as big-endian encode and value, byte XOR, chunk concatenation, and `in` on
  byte strings.
- `Masking`: the 4-byte XOR mask of section 5.3 of RFC 6455.
- `FrameEncoder`: `send_ws_frame`, the three length forms of section 5.2 of RFC 6455,
  and the unmasked frame a server sends.
- `Vless`: the request header, its parse, and the response-header strip.
- `FrameDecoder`: the frame walk of lines 96-124. It is written three ways:
  - the loop as written (`Walk`);
  - the raw walk (`Frames`, built on one frame at a time, `FrameAt`);
  - the once-only strip (`StripFirst`).

  They are proved equal. There are also round trips against the encoder, and a
  reference reading of a client frame as the relay reads it.
- `Handshake`: the upgrade request and the read loop that waits for CR LF CR LF. It is
  given as written and corrected (see Findings).
- `Tunnel`: the session put together, and the concrete session of the script (UUID
  `c373c80c-…`, `httpbin.org:80`, `GET /ip`).

The socket, the clock and the random source are not modelled. The successive results of
`recv` during the handshake, the received buffer and the masking key are inputs.

The VLESS request header is 23 + |domain| bytes: 1 + 16 + 1 + 1 + 2 + 1 + 1 fixed bytes
and then the domain. For `httpbin.org` that is 34 bytes.

RFC 6455 asks more of a client than the script does. The client must fail the connection
on a masked frame from the server (section 5.1), reassemble fragmented messages (section
5.4), and check the 101 status of the handshake response (section 4.1). The script does
none of these, and it drops any bytes that arrive after the handshake terminator. The
model follows the script. Those items are listed under Left out.

## Model

| member | source | states |
|---|---|---|
| Bytes.BigEndian | test_vless.py:43 | `struct.pack('>H')`: exactly `width` bytes whose big-endian value is the number packed, so unpacking gives it back |
| Bytes.BigEndianBound | test_vless.py:107 | an unpacked `width`-byte value is below 256^width, so a 2-byte length is at most 65535 |
| Bytes.Xor | test_vless.py:71 | Python's `^` on two bytes; `Bytes.XorIsBitwise` states it bit by bit |
| Bytes.XorBitsBit | test_vless.py:71 | every bit below the width of the bitwise XOR is the sum of the two bits in that place modulo two, for all inputs |
| Bytes.XorIsBitwise | test_vless.py:71 | for all bytes and each of the eight bits, bit k of `a ^ b` is set exactly when bits k of `a` and `b` differ |
| Bytes.XorTwice | test_vless.py:71 | `(a ^ b) ^ b == a` for all bytes |
| Bytes.Slice | test_vless.py:115 | Python's `buf[lo:hi]`: the plain slice when both bounds are inside, clamped to the end when `hi` is past it, empty when `lo` is past the end or not below `hi` |
| Bytes.Drop | test_vless.py:120 | Python's `p[lo:]`: the suffix from `lo`, or empty when `lo` is past the end |
| Masking.Mask | test_vless.py:69-71 | the masked payload has the payload's length, and XOR-ing each byte with key byte `i % 4` gives back payload byte `i` |
| Masking.MaskInvolution | test_vless.py:69-71 | masking twice with the same key returns the original payload |
| FrameEncoder.EncodeFrame | test_vless.py:58-72 | the frame exists exactly when the length fits 64 bits; it is 2 + {0,2,8} + 4 + n bytes; the first byte is 0x82; the second has the mask bit; the length is stored directly up to 125, as 126 plus 2 big-endian bytes up to 65535, and as 127 plus 8 big-endian bytes above; then come the key and the masked payload |
| FrameEncoder.LengthField | test_vless.py:61-68 | the length byte and its extended bytes: 1, 3 or 9 bytes by length form; `FrameEncoder.SecondByte` states their values |
| FrameEncoder.ServerFrame | test_vless.py:98-113 | the unmasked frame a server sends, in the form the walk reads: 2 + {0,2,8} + n bytes; `FrameDecoder.ServerFrameRoundTrip` states that the walk reads it back |
| FrameEncoder.SecondByte | test_vless.py:61-68 | the length byte has the mask bit exactly when the mask flag is used, and its low seven bits and the extended bytes decode to the length in each of the three forms |
| FrameDecoder.ParseHeader | test_vless.py:99-113 | reading a header at an offset, as stated by `FrameDecoder.ParseHeaderBounds`, `FrameDecoder.ParseHeaderIgnoresFirstByte` and `FrameDecoder.ParseEncodedHeader` |
| FrameDecoder.ParseHeaderBounds | test_vless.py:99-113 | fewer than 2 bytes, or a 126/127 marker without its 2 or 8 extended bytes, stops the walk; ten bytes always hold a header; a 126 or 127 marker with its bytes present gives a 4- or 10-byte header whose length is the big-endian value of the 2 or 8 bytes after it, whether or not that is the shortest form; a header is 2, 4 or 10 bytes inside the buffer with a length its form can carry; a short length is read from the low seven bits |
| FrameDecoder.FrameAt | test_vless.py:98-124 | a frame is only found inside the buffer, and the offset then advances by at least its two header bytes |
| FrameDecoder.Frames | test_vless.py:98-124 | the raw frame walk; `FrameDecoder.FramesBound` bounds it and `FrameDecoder.ServerStreamRoundTrip` states that it reads back a stream of server frames |
| FrameDecoder.FramesBound | test_vless.py:98-124 | the walk terminates, yielding at most one payload per two bytes of buffer |
| FrameDecoder.FirstLong | test_vless.py:117 | the index it returns is the first payload of at least two bytes, or past the end when there is none |
| FrameDecoder.StripFirst | test_vless.py:117-121 | the response header is stripped from the first payload of at least two bytes; every other payload, before or after it, is unchanged |
| FrameDecoder.HandOn | test_vless.py:117-121 | one step of the strip flag: the first payload of at least two bytes is stripped and clears the flag; `FrameDecoder.PendingCons` states it |
| FrameDecoder.PendingCons | test_vless.py:117-121 | handing on one payload settles the strip for it and leaves the flag owed to the rest |
| FrameDecoder.Walk | test_vless.py:96-124 | the loop as written; `FrameDecoder.WalkIsStripOfFrames` states that it equals the raw walk followed by the once-only strip |
| FrameDecoder.WalkIsStripOfFrames | test_vless.py:96-124 | the loop as written, with the strip interleaved, equals the raw frame walk followed by the once-only strip |
| FrameDecoder.Decode | test_vless.py:96-124 | the whole buffer decoded; `FrameDecoder.DecodeIsWalk` and `FrameDecoder.DecodeServerReply` state what it yields |
| FrameDecoder.DecodeIsWalk | test_vless.py:96-97 | decoding a buffer is the loop started at offset 0 with the flag set |
| FrameDecoder.ParseHeaderIgnoresFirstByte | test_vless.py:101-113 | replacing the first header byte by any byte leaves the header read unchanged: FIN and the opcode play no part, so continuation, text and close frames are read like binary ones |
| FrameDecoder.ParseEncodedHeader | test_vless.py:99-113 | the decoder reads back the header the encoder writes, masked or not, anywhere in a buffer: 2, 4 or 10 header bytes and the payload length |
| FrameDecoder.ServerStreamRoundTrip | test_vless.py:98-124 | a stream of unmasked frames walks back to exactly its payloads, in order, across all three length forms |
| FrameDecoder.ServerFrameRoundTrip | test_vless.py:98-124 | one unmasked frame walks back to exactly its payload |
| FrameDecoder.DecodeServerReply | test_vless.py:96-124 | a reply whose first frame starts with a VLESS response header decodes to exactly the application bytes of all frames |
| FrameDecoder.FirstPayloadAfterHeader | test_vless.py:115 | after a header it understands, the walk takes the next n bytes, clamped to the buffer |
| FrameDecoder.MaskedFrameMisread | test_vless.py:102-115 | the decoder ignores the mask bit of an inbound frame: its first payload is the first `|data|` bytes of the key followed by the masked data, so it starts with the whole key when `|data|` is at least 4 and is a prefix of the key when it is shorter |
| FrameDecoder.ReadClientFrame | test_vless.py:58-72 | the relay's reading of a client frame: when it succeeds, the first byte was 0x82, the mask bit was set, and the frame is exactly a shortest-form header that the walk reads as declaring the payload's length, then the key, then the masked payload with nothing after it; masking the result with that key gives back the frame's tail |
| FrameDecoder.EncodeFrameRoundTrip | test_vless.py:58-72 | a relay that honours the mask reads back exactly the data the client framed, whatever the key |
| Vless.RequestHeader | test_vless.py:39-48 | a port outside 0..65535 fails, and otherwise a domain over 255 bytes fails; a success is 23 bytes plus the domain length, laid out as version, UUID, addon length, command, big-endian port, address type, domain length, domain, and it parses back to the same request |
| Vless.ParseRequestHeader | test_vless.py:39-48 | a header that parses is 23 bytes plus its domain long and has a port of at most 65535 |
| Vless.RequestHeaderInjective | test_vless.py:39-48 | different requests never give the same header bytes |
| Vless.StripResponseHeader | test_vless.py:119-120 | it drops `2 + payload[1]` bytes, or everything when the payload is shorter, leaving a suffix |
| Vless.StripResponseHeaderRoundTrip | test_vless.py:119-120 | stripping a response header with any addons returns exactly the bytes that followed it |
| Handshake.ReadResponse | test_vless.py:33-35 | the loop as written: it completes at the first read after which the response holds CR LF CR LF, with nothing earlier holding it; otherwise it is still waiting with everything read so far; it never notices a close |
| Handshake.ReadResponseChecked | test_vless.py:33-35 | the corrected loop: it completes as above, it reports a close at the first empty read before the terminator, and otherwise it is still waiting |
| Handshake.CheckedAgrees | test_vless.py:33-35 | while no read comes back empty, the corrected loop does exactly what the loop as written does |
| Handshake.AsWrittenSpinsAfterClose | test_vless.py:34-35 | after a partial response without the terminator, any number of empty reads leaves the loop as written still waiting |
| Handshake.CheckedStopsAtClose | test_vless.py:34-35 | the corrected loop stops with the partial response at the first empty read |
| Handshake.UpgradeRequest | test_vless.py:23-31 | the upgrade request text, as stated by `Handshake.UpgradeRequestEndsAtBlankLine` |
| Handshake.BlankLineOnlyAtEnd | test_vless.py:23-31 | a block of clean header lines contains CR LF CR LF exactly once, at its very end |
| Handshake.UpgradeRequestEndsAtBlankLine | test_vless.py:23-31 | the upgrade request ends at its only CR LF CR LF, whatever path, host and key without line breaks it carries |
| Tunnel.FirstPayload | test_vless.py:54 | the payload exists exactly when the header can be built, fails with the header's error otherwise, and is header plus application bytes in length |
| Tunnel.SplitPayload | test_vless.py:39-54 | a split that succeeds accounts for every byte of the payload |
| Tunnel.FirstPayloadRoundTrip | test_vless.py:39-54 | the relay's split of the first payload gives back the request and the application bytes |
| Tunnel.SendRequest | test_vless.py:38-76 | after the handshake: a frame is sent exactly when the port and domain fit and the payload fits a frame; a bad port, then a long domain are reported; the bytes sent are the masked frame of the request header followed by the application bytes |
| Tunnel.Open | test_vless.py:33-76 | the session as written, on `Handshake.ReadResponse`: a frame is sent exactly when the loop completed, the port and domain fit, and the payload fits a frame; an unfinished loop, then a bad port, then a long domain are reported; a close is never reported; the bytes sent are `EncodeFrame` of the first payload with the drawn key |
| Tunnel.OpenChecked | test_vless.py:33-76 | the same session on the corrected loop `Handshake.ReadResponseChecked`: a close before the terminator is reported as such, and otherwise as `Tunnel.Open` |
| Tunnel.OpenSpinsAfterClose | test_vless.py:34-35 | as written, a peer that closes after a partial response leaves the session unfinished, however many empty reads follow |
| Tunnel.OpenCheckedStopsAtClose | test_vless.py:34-35 | with the corrected loop the same session fails with the close reported |
| Tunnel.OpenCheckedAgrees | test_vless.py:33-76 | while no read comes back empty, the corrected session sends exactly what the session as written sends |
| Tunnel.RelayRecoversRequest | test_vless.py:54-76 | whatever key was drawn, a relay that unmasks the sent frame and splits it gets back the request and the application bytes |
| Tunnel.ScenarioSizes | test_vless.py:51-74 | the script's session has a 34-byte header and a 58-byte request, so a 92-byte payload in a 98-byte frame starting 0x82, 0xDC |
| Tunnel.ScenarioRelay | test_vless.py:9-14 | for the script's UUID, `httpbin.org` and port 80, the relay reads back that request and the HTTP request of line 51 |

## Left out

- Sockets and TLS are not modelled: `create_connection`, `wrap_socket`, `sendall`, `recv`, `settimeout`, `time.sleep` and the drain loop (lines 17-19, 32, 73, 78-93). They are I/O and timing. Instead, the handshake reads, the received buffer and the sent bytes are values.
- `os.urandom` and base64 for the Sec-WebSocket-Key and the mask (lines 22, 69): the key string and the 4-byte mask are inputs.
- `uuid.UUID(...).bytes` (line 40) is a library parse. The UUID is a 16-byte input, and the script's UUID is written out as bytes.
- UTF-8 encoding of the upgrade request and the domain (lines 32, 45): the script's values are ASCII and are written out as bytes. `UpgradeRequest` stays a string. The HTTP request of line 51 is already a bytes literal and is written out byte for byte.
- `print` and the lossy UTF-8 decode of payloads (lines 36, 55, 74, 93, 123) are output only.
- The opcode read on line 101 is never used. FIN, fragments and control frames are not interpreted, and a close frame's payload is handed on like data. The model does the same, so it has no opcode handling.
- Bytes that arrive in the last handshake read after CR LF CR LF are dropped by the script. `Tunnel` does not carry them into the decoder either.
- Inbound masked frames are not unmasked by the script. `MaskedFrameMisread` states what it yields instead.
- The 1024-byte `recv` size is not modelled: reads are arbitrary chunks.
- `0x80 | n` is written as `0x80 + n` and `b & 0x7F` as `b % 128`. They are equal for n below 128 and bytes 0..255, which are the only values the script uses.
- `FrameDecoder.ReadClientFrame`, `Tunnel.SplitPayload` and `Vless.ParseRequestHeader` are reference readings of the relay side. `Vless.ResponseHeader`, `FrameEncoder.ServerFrame` and `FrameDecoder.ServerStream` are reference constructions of what a server sends. The relay's code is not part of this model.
- `cfspider/api.py`, `cfspider/session.py`, `cfspider/cli.py`, `setup.py`, `test.py`, `test_cfspider.py` and `test_impersonate_new.py` are HTTP-library glue, packaging and live-network scripts, with no byte-level behaviour of their own.

## Findings

| source | as written | input that shows it | evidently intended | confidence | as-written member | corrected member |
|---|---|---|---|---|---|---|
| test_vless.py:34-35 | the loop appends `recv(1024)` until CR LF CR LF is present; after the peer closes, `recv` returns `b''` at once on every call | the relay closes after sending part of a response without CR LF CR LF (reads `[c, b'', b'', …]`); the loop never exits and the 10-second socket timeout never fires | stop at the first empty read and report a failed handshake | medium, not executed | Handshake.AsWrittenSpinsAfterClose | Handshake.ReadResponseChecked |

`Tunnel.Open` keeps the loop as written, and `Tunnel.OpenSpinsAfterClose` shows the session it gives. `Tunnel.OpenChecked` is the session on the corrected loop.
