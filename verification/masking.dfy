/**
 Client-to-server masking (section 5.3 of RFC 6455): every payload byte is XOR-ed with
 the byte of a 4-byte key at the same position modulo 4.
 */
module Masking {
  import opened Bytes

  /** The 4-byte masking key (`os.urandom(4)` in the client, an input here). */
  type MaskKey = k: seq<byte> | |k| == 4 witness [0, 0, 0, 0]

  /** The masked payload: byte `i` of `data` XOR-ed with key byte `i % 4`. */
  function Mask(data: seq<byte>, key: MaskKey): (r: seq<byte>)
    ensures |r| == |data|
    ensures forall i :: 0 <= i < |data| ==> Xor(r[i], key[i % 4]) == data[i]
  {
    var r := seq(|data|, i requires 0 <= i < |data| => Xor(data[i], key[i % 4]));
    assert forall i :: 0 <= i < |data| ==> Xor(r[i], key[i % 4]) == data[i] by {
      forall i | 0 <= i < |data| {
        XorTwice(data[i], key[i % 4]);
      }
    }
    r
  }

  /** Masking is its own inverse: the receiver unmasks with the same key. */
  lemma MaskInvolution(data: seq<byte>, key: MaskKey)
    ensures Mask(Mask(data, key), key) == data
  {
    var m := Mask(data, key);
    assert forall i :: 0 <= i < |data| ==> Mask(m, key)[i] == Xor(m[i], key[i % 4]);
  }
}
