/**
 The WebSocket opening handshake of the client (test_vless.py:21-36), section 4.1 of
 RFC 6455: a GET request with the Upgrade headers and Sec-WebSocket-Version 13, then a
 read loop that calls `recv(1024)` until `\r\n\r\n` has arrived. The successive results of
 `recv` are an input here; an empty result is the peer having closed the connection.
 */
module Handshake {
  import opened Bytes

  /** The end of an HTTP header block, CR LF CR LF. */
  const Terminator: seq<byte> := [13, 10, 13, 10]

  /** Where a read loop stands once it has looked at the reads it was given. */
  datatype ReadResult =
    | Complete(response: seq<byte>, count: nat)   // the loop has exited after `count` reads
    | Waiting(response: seq<byte>)                // no terminator yet; the loop would read again
    | Closed(response: seq<byte>, count: nat)     // read number `count` returned nothing

  /** No read before the `i`-th left the terminator in the buffer. */
  predicate NoTerminatorBefore(chunks: seq<seq<byte>>, i: nat)
    requires i <= |chunks|
  {
    forall k :: 0 <= k < i ==> !HasInfix(Flatten(chunks[..k]), Terminator)
  }

  /** Lines 33-35 as written: the loop exits at the first point where the accumulated
      response contains the terminator. */
  function ReadResponse(chunks: seq<seq<byte>>): (r: ReadResult)
    ensures !r.Closed?
    ensures r.Complete? ==>
      && r.count <= |chunks| && r.response == Flatten(chunks[..r.count])
      && HasInfix(r.response, Terminator) && NoTerminatorBefore(chunks, r.count)
    ensures r.Waiting? ==>
      r.response == Flatten(chunks) && NoTerminatorBefore(chunks, |chunks|)
      && !HasInfix(Flatten(chunks), Terminator)
  {
    assert chunks[..0] == [];
    ReadFrom(chunks, 0, [])
  }

  function ReadFrom(chunks: seq<seq<byte>>, i: nat, acc: seq<byte>): (r: ReadResult)
    requires i <= |chunks| && acc == Flatten(chunks[..i]) && NoTerminatorBefore(chunks, i)
    ensures !r.Closed?
    ensures r.Complete? ==>
      && r.count <= |chunks| && r.response == Flatten(chunks[..r.count])
      && HasInfix(r.response, Terminator) && NoTerminatorBefore(chunks, r.count)
    ensures r.Waiting? ==>
      r.response == Flatten(chunks) && NoTerminatorBefore(chunks, |chunks|)
      && !HasInfix(Flatten(chunks), Terminator)
    decreases |chunks| - i
  {
    if HasInfix(acc, Terminator) then Complete(acc, i)
    else if i == |chunks| then
      assert chunks[..i] == chunks;
      Waiting(acc)
    else
      FlattenSnoc(chunks, i);
      ReadFrom(chunks, i + 1, acc + chunks[i])
  }

  /** The read loop with the end of stream handled: an empty read before the terminator
      ends the handshake as Closed instead of being read again. */
  function ReadResponseChecked(chunks: seq<seq<byte>>): (r: ReadResult)
    ensures r.Complete? ==>
      && r.count <= |chunks| && r.response == Flatten(chunks[..r.count])
      && HasInfix(r.response, Terminator) && NoTerminatorBefore(chunks, r.count)
      && forall k :: 0 <= k < r.count ==> chunks[k] != []
    ensures r.Closed? ==>
      && 0 < r.count <= |chunks| && chunks[r.count - 1] == []
      && r.response == Flatten(chunks[..r.count - 1])
      && NoTerminatorBefore(chunks, r.count)
      && forall k :: 0 <= k < r.count - 1 ==> chunks[k] != []
    ensures r.Waiting? ==>
      r.response == Flatten(chunks) && NoTerminatorBefore(chunks, |chunks|)
      && !HasInfix(Flatten(chunks), Terminator)
      && forall k :: 0 <= k < |chunks| ==> chunks[k] != []
  {
    assert chunks[..0] == [];
    ReadCheckedFrom(chunks, 0, [])
  }

  function ReadCheckedFrom(chunks: seq<seq<byte>>, i: nat, acc: seq<byte>): (r: ReadResult)
    requires i <= |chunks| && acc == Flatten(chunks[..i]) && NoTerminatorBefore(chunks, i)
    requires forall k :: 0 <= k < i ==> chunks[k] != []
    ensures r.Complete? ==>
      && r.count <= |chunks| && r.response == Flatten(chunks[..r.count])
      && HasInfix(r.response, Terminator) && NoTerminatorBefore(chunks, r.count)
      && forall k :: 0 <= k < r.count ==> chunks[k] != []
    ensures r.Closed? ==>
      && 0 < r.count <= |chunks| && chunks[r.count - 1] == []
      && r.response == Flatten(chunks[..r.count - 1])
      && NoTerminatorBefore(chunks, r.count)
      && forall k :: 0 <= k < r.count - 1 ==> chunks[k] != []
    ensures r.Waiting? ==>
      r.response == Flatten(chunks) && NoTerminatorBefore(chunks, |chunks|)
      && !HasInfix(Flatten(chunks), Terminator)
      && forall k :: 0 <= k < |chunks| ==> chunks[k] != []
    decreases |chunks| - i
  {
    if HasInfix(acc, Terminator) then Complete(acc, i)
    else if i == |chunks| then
      assert chunks[..i] == chunks;
      Waiting(acc)
    else if chunks[i] == [] then
      FlattenSnoc(chunks, i);
      Closed(acc, i + 1)
    else
      FlattenSnoc(chunks, i);
      ReadCheckedFrom(chunks, i + 1, acc + chunks[i])
  }

  /** While the peer keeps the connection open (no read comes back empty), the checked
      loop does exactly what the loop as written does. */
  lemma {:induction false} CheckedAgreesWhileOpen(chunks: seq<seq<byte>>, i: nat, acc: seq<byte>)
    requires i <= |chunks| && acc == Flatten(chunks[..i]) && NoTerminatorBefore(chunks, i)
    requires forall k :: 0 <= k < |chunks| ==> chunks[k] != []
    ensures ReadCheckedFrom(chunks, i, acc) == ReadFrom(chunks, i, acc)
    decreases |chunks| - i
  {
    if !HasInfix(acc, Terminator) && i < |chunks| {
      FlattenSnoc(chunks, i);
      CheckedAgreesWhileOpen(chunks, i + 1, acc + chunks[i]);
    }
  }

  lemma CheckedAgrees(chunks: seq<seq<byte>>)
    requires forall k :: 0 <= k < |chunks| ==> chunks[k] != []
    ensures ReadResponseChecked(chunks) == ReadResponse(chunks)
  {
    assert chunks[..0] == [];
    CheckedAgreesWhileOpen(chunks, 0, []);
  }

  /** `n` empty reads: what `recv` keeps returning once the peer has closed. */
  function Empties(n: nat): (r: seq<seq<byte>>)
    ensures |r| == n && forall k :: 0 <= k < n ==> r[k] == []
  {
    if n == 0 then [] else [[]] + Empties(n - 1)
  }

  lemma {:induction false} FlattenEmpties(n: nat)
    ensures Flatten(Empties(n)) == []
  {
    if n > 0 {
      assert Empties(n)[1..] == Empties(n - 1);
      FlattenEmpties(n - 1);
    }
  }

  /** Before the close, the reads add up to the partial response `c`. */
  lemma {:induction false} FlattenAfterClose(c: seq<byte>, n: nat, k: nat)
    requires 1 <= k <= n + 1
    ensures Flatten(([c] + Empties(n))[..k]) == c
  {
    var prefix := ([c] + Empties(n))[..k];
    assert prefix[0] == c;
    assert prefix[1..] == Empties(k - 1);
    FlattenEmpties(k - 1);
    assert Flatten(prefix) == c + [];
  }

  lemma NothingHasTerminator()
    ensures !HasInfix([], Terminator)
  {
  }

  /** The loop as written never exits once the peer closes before the terminator: after
      a partial response `c`, any number of empty reads leaves it still reading. */
  lemma AsWrittenSpinsAfterClose(c: seq<byte>, n: nat)
    requires !HasInfix(c, Terminator)
    ensures ReadResponse([c] + Empties(n)) == Waiting(c)
  {
    var chunks := [c] + Empties(n);
    NothingHasTerminator();
    forall k | 0 <= k <= |chunks|
      ensures !HasInfix(Flatten(chunks[..k]), Terminator)
    {
      if k == 0 {
        assert chunks[..0] == [];
      } else {
        FlattenAfterClose(c, n, k);
      }
    }
    assert chunks[..|chunks|] == chunks;
    FlattenAfterClose(c, n, |chunks|);
  }

  /** The checked loop reports the close at the first empty read. */
  lemma CheckedStopsAtClose(c: seq<byte>, n: nat)
    requires c != [] && !HasInfix(c, Terminator) && n > 0
    ensures ReadResponseChecked([c] + Empties(n)) == Closed(c, 2)
  {
    var chunks := [c] + Empties(n);
    NothingHasTerminator();
    assert chunks[..0] == [];
    FlattenAfterClose(c, n, 1);
    assert ReadCheckedFrom(chunks, 1, c) == Closed(c, 2);
    assert ReadResponseChecked(chunks) == ReadCheckedFrom(chunks, 0, []);
  }

  // The request of lines 23-31.

  const CrLf: string := "\r\n"
  /** The empty line that ends the request text: the same four characters as the
      `Terminator` bytes the read loop waits for in the response. */
  const BlankLine: string := "\r\n\r\n"

  /** A header line: not empty, and no line break inside it. */
  predicate CleanLine(l: string) {
    |l| > 0 && '\r' !in l && '\n' !in l
  }

  /** Each line followed by CR LF, then the empty line that ends the block. */
  function HeaderBlock(lines: seq<string>): string {
    if |lines| == 0 then CrLf else lines[0] + CrLf + HeaderBlock(lines[1..])
  }

  /** The opening handshake request; `key` is the base64 Sec-WebSocket-Key. */
  function UpgradeRequest(path: string, host: string, key: string): string {
    HeaderBlock([
      "GET " + path + " HTTP/1.1",
      "Host: " + host,
      "Upgrade: websocket",
      "Connection: Upgrade",
      "Sec-WebSocket-Key: " + key,
      "Sec-WebSocket-Version: 13"])
  }

  /** In a block of clean lines the empty line occurs once, at the very end, so a reader
      that stops at the first CR LF CR LF reads the whole block and nothing past it. */
  lemma {:induction false} BlankLineOnlyAtEnd(lines: seq<string>)
    requires forall i :: 0 <= i < |lines| ==> CleanLine(lines[i])
    ensures |lines| > 0 ==> |HeaderBlock(lines)| >= 4
    ensures forall j: nat :: InfixAt(HeaderBlock(lines), BlankLine, j) ==> j == |HeaderBlock(lines)| - 4
    ensures |lines| > 0 ==> InfixAt(HeaderBlock(lines), BlankLine, |HeaderBlock(lines)| - 4)
    ensures |lines| > 0 ==> HeaderBlock(lines)[0] != '\r'
  {
    var s := HeaderBlock(lines);
    if |lines| == 0 {
      assert |s| == 2;
    } else {
      var l := lines[0];
      var rest := lines[1..];
      var h := HeaderBlock(rest);
      assert s == l + CrLf + h;
      BlankLineOnlyAtEnd(rest);
      assert |rest| == 0 ==> h == CrLf;
      forall j: nat | j != |s| - 4
        ensures !InfixAt(s, BlankLine, j)
      {
        if j + 4 > |s| {
        } else if j < |l| {
          assert s[j..j + 4][0] == l[j];
          assert l[j] in l;
        } else if j == |l| {
          assert |rest| > 0;
          assert s[j..j + 4][2] == h[0];
        } else if j == |l| + 1 {
          assert s[j..j + 4][0] == '\n';
        } else {
          var j': nat := j - |l| - 2;
          assert s[j..j + 4] == h[j'..j' + 4];
          assert !InfixAt(h, BlankLine, j');
        }
      }
      if |rest| == 0 {
        assert s[|s| - 4..] == BlankLine;
      } else {
        var j' := |h| - 4;
        assert s[|s| - 4..] == h[j'..j' + 4];
      }
      assert s[0] == l[0];
      assert l[0] in l;
    }
  }

  /** Joining text without line breaks gives text without line breaks. */
  lemma NoBreakJoin(a: string, b: string)
    requires '\r' !in a && '\n' !in a && '\r' !in b && '\n' !in b
    ensures '\r' !in a + b && '\n' !in a + b
  {
    forall c | c in a + b
      ensures c != '\r' && c != '\n'
    {
      if c !in a {
        assert c in b;
      }
    }
  }

  /** The literal pieces of the request carry no line breaks. */
  lemma LiteralsClean()
    ensures CleanLine("Upgrade: websocket") && CleanLine("Connection: Upgrade")
    ensures CleanLine("Sec-WebSocket-Version: 13")
    ensures '\r' !in "GET " && '\n' !in "GET " && '\r' !in " HTTP/1.1" && '\n' !in " HTTP/1.1"
    ensures '\r' !in "Host: " && '\n' !in "Host: "
    ensures '\r' !in "Sec-WebSocket-Key: " && '\n' !in "Sec-WebSocket-Key: "
  {
  }

  /** The handshake request ends at its first CR LF CR LF, provided path, host and key
      carry no line breaks. */
  lemma UpgradeRequestEndsAtBlankLine(path: string, host: string, key: string)
    requires '\r' !in path && '\n' !in path && '\r' !in host && '\n' !in host
    requires '\r' !in key && '\n' !in key
    ensures var req := UpgradeRequest(path, host, key);
      |req| >= 4 && InfixAt(req, BlankLine, |req| - 4) && forall j: nat :: InfixAt(req, BlankLine, j) ==> j == |req| - 4
  {
    LiteralsClean();
    var get := "GET " + path;
    NoBreakJoin("GET ", path);
    NoBreakJoin(get, " HTTP/1.1");
    NoBreakJoin("Host: ", host);
    NoBreakJoin("Sec-WebSocket-Key: ", key);
    var lines := [
      get + " HTTP/1.1",
      "Host: " + host,
      "Upgrade: websocket",
      "Connection: Upgrade",
      "Sec-WebSocket-Key: " + key,
      "Sec-WebSocket-Version: 13"];
    assert CleanLine(lines[0]) && CleanLine(lines[1]) && CleanLine(lines[4]);
    assert forall i :: 0 <= i < |lines| ==> CleanLine(lines[i]);
    BlankLineOnlyAtEnd(lines);
  }
}
