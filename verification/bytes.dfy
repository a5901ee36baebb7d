/**
 Byte sequences and the few byte-level operations the tunnel client builds on:
 Python slicing with clamped bounds, the big-endian integers that `struct.pack('>H')`,
 `struct.pack('>Q')` and `struct.unpack` read and write, concatenation of a list of
 chunks, and the substring test behind Python's `in` on `bytes`.
 */
module Bytes {

  /** A byte as Python's `bytes` indexing yields it: an integer in 0..255. */
  type byte = b: int | 0 <= b < 256

  function Min(a: nat, b: nat): nat {
    if a <= b then a else b
  }

  /** 256 to the power `n`: one more than the largest `n`-byte unsigned integer. */
  function Pow256(n: nat): (r: nat)
    ensures r >= 1
  {
    if n == 0 then 1 else 256 * Pow256(n - 1)
  }

  /** 2 to the power `n`. */
  function Pow2(n: nat): (r: nat)
    ensures r >= 1
  {
    if n == 0 then 1 else 2 * Pow2(n - 1)
  }

  /** Bitwise exclusive or of the low `width` bits of `a` and `b`, lowest bit first. */
  function XorBits(a: nat, b: nat, width: nat): (r: nat)
    requires a < Pow2(width) && b < Pow2(width)
    ensures r < Pow2(width)
  {
    if width == 0 then 0 else (a + b) % 2 + 2 * XorBits(a / 2, b / 2, width - 1)
  }

  /** Python's `a ^ b` on two bytes. */
  function Xor(a: byte, b: byte): byte {
    assert Pow2(8) == 256;
    XorBits(a, b, 8)
  }

  /** Exclusive or with the same bits twice gives back the original bits. */
  lemma {:induction false} XorBitsTwice(a: nat, b: nat, width: nat)
    requires a < Pow2(width) && b < Pow2(width)
    ensures XorBits(XorBits(a, b, width), b, width) == a
  {
    if width > 0 {
      var high := XorBits(a / 2, b / 2, width - 1);
      var x := XorBits(a, b, width);
      XorBitsStep(a, b, width);
      SplitLowBit((a + b) % 2, high);
      XorBitsTwice(a / 2, b / 2, width - 1);
      ParityTwice(a, b, x);
      XorBitsStep(x, b, width);
      SplitLowBit(a % 2, a / 2);
    }
  }

  /** One bit of XorBits: the low bit, then the rest shifted down. */
  lemma XorBitsStep(a: nat, b: nat, width: nat)
    requires 0 < width && a < Pow2(width) && b < Pow2(width)
    ensures XorBits(a, b, width) == (a + b) % 2 + 2 * XorBits(a / 2, b / 2, width - 1)
  {
  }

  /** A bit flipped by the same bit twice comes back. */
  lemma ParityTwice(a: nat, b: nat, x: nat)
    requires x % 2 == (a + b) % 2
    ensures (x + b) % 2 == a % 2
  {
  }

  /** A number is its lowest bit plus twice the rest. */
  lemma SplitLowBit(low: nat, high: nat)
    requires low < 2
    ensures (low + 2 * high) / 2 == high && (low + 2 * high) % 2 == low
  {
  }

  /** Bit `k` of `x`, counting from the lowest. */
  function Bit(x: nat, k: nat): nat {
    (x / Pow2(k)) % 2
  }

  /** A quotient and remainder within bounds are the ones division gives. */
  lemma DivUnique(x: nat, d: nat, q: nat, rem: nat)
    requires 0 <= rem < d && x == q * d + rem
    ensures x / d == q
  {
    var k := x / d - q;
    assert k * d == rem - x % d;
    SmallMultiple(k, d);
  }

  /** The only multiple of `d` strictly between `-d` and `d` is zero. */
  lemma SmallMultiple(k: int, d: nat)
    requires -(d as int) < k * d < d
    ensures k == 0
  {
    assert k < 1;
    assert k > -1;
  }

  /** Dividing by `2p` is halving and then dividing by `p`. */
  lemma DivDouble(x: nat, p: nat)
    requires p >= 1
    ensures x / (2 * p) == (x / 2) / p
  {
    var q := (x / 2) / p;
    var rem := (x / 2) % p;
    assert x / 2 == q * p + rem;
    assert x == q * (2 * p) + (2 * rem + x % 2);
    DivUnique(x, 2 * p, q, 2 * rem + x % 2);
  }

  /** Bit `k` of `x` is bit `k - 1` of `x` halved. */
  lemma BitShift(x: nat, k: nat)
    requires k > 0
    ensures Bit(x, k) == Bit(x / 2, k - 1)
  {
    DivDouble(x, Pow2(k - 1));
  }

  /** Every bit of `XorBits` is the exclusive or of the two bits in that place. */
  lemma {:induction false} XorBitsBit(a: nat, b: nat, width: nat, k: nat)
    requires a < Pow2(width) && b < Pow2(width) && k < width
    ensures Bit(XorBits(a, b, width), k) == (Bit(a, k) + Bit(b, k)) % 2
  {
    if k == 0 {
      XorBitsLow(a, b, width);
      BitZero(XorBits(a, b, width));
      BitZero(a);
      BitZero(b);
      ParitySum(a, b);
    } else {
      XorBitsBit(a / 2, b / 2, width - 1, k - 1);
      XorBitsHigh(a, b, width);
      BitShift(XorBits(a, b, width), k);
      BitShift(a, k);
      BitShift(b, k);
    }
  }

  /** The lowest bit of `XorBits` is the parity of the sum. */
  lemma XorBitsLow(a: nat, b: nat, width: nat)
    requires a < Pow2(width) && b < Pow2(width) && 0 < width
    ensures XorBits(a, b, width) % 2 == (a + b) % 2
  {
    XorBitsStep(a, b, width);
    SplitLowBit((a + b) % 2, XorBits(a / 2, b / 2, width - 1));
  }

  /** The parity of a sum is the sum of the parities, taken modulo two. */
  lemma ParitySum(a: nat, b: nat)
    ensures (a + b) % 2 == (a % 2 + b % 2) % 2
  {
  }

  /** Bit 0 is the remainder by two. */
  lemma BitZero(x: nat)
    ensures Bit(x, 0) == x % 2
  {
    assert Pow2(0) == 1;
  }

  /** `XorBits` halved is `XorBits` of the halves. */
  lemma XorBitsHigh(a: nat, b: nat, width: nat)
    requires a < Pow2(width) && b < Pow2(width) && 0 < width
    ensures XorBits(a, b, width) / 2 == XorBits(a / 2, b / 2, width - 1)
  {
    XorBitsStep(a, b, width);
    SplitLowBit((a + b) % 2, XorBits(a / 2, b / 2, width - 1));
  }

  /** `a ^ b` on bytes is bitwise: each of the eight bits of the result is set exactly
      when the two bits in that place differ. */
  lemma XorIsBitwise(a: byte, b: byte, k: nat)
    requires k < 8
    ensures Bit(Xor(a, b), k) == (Bit(a, k) + Bit(b, k)) % 2
    ensures Bit(Xor(a, b), k) == 1 <==> Bit(a, k) != Bit(b, k)
  {
    assert Pow2(8) == 256;
    XorBitsBit(a, b, 8, k);
  }

  /** `(a ^ b) ^ b == a` on bytes. */
  lemma XorTwice(a: byte, b: byte)
    ensures Xor(Xor(a, b), b) == a
  {
    assert Pow2(8) == 256;
    XorBitsTwice(a, b, 8);
  }

  /** The unsigned big-endian integer a byte string denotes (`struct.unpack('>H' / '>Q')`). */
  function BigEndianValue(s: seq<byte>): nat {
    if |s| == 0 then 0 else BigEndianValue(s[..|s| - 1]) * 256 + s[|s| - 1]
  }

  /** An `n`-byte string denotes a value below 256^n. */
  lemma {:induction false} BigEndianBound(s: seq<byte>)
    ensures BigEndianValue(s) < Pow256(|s|)
  {
    if |s| > 0 {
      BigEndianBound(s[..|s| - 1]);
      BoundStep(BigEndianValue(s[..|s| - 1]), s[|s| - 1], Pow256(|s| - 1));
    }
  }

  lemma BoundStep(high: nat, low: nat, p: nat)
    requires high < p && low < 256
    ensures high * 256 + low < 256 * p
  {
  }

  /** The `width`-byte big-endian encoding of `n` (`struct.pack('>H')` for width 2,
      `struct.pack('>Q')` for width 8); `n` must fit, as `struct.pack` demands. */
  function BigEndian(n: nat, width: nat): (r: seq<byte>)
    requires n < Pow256(width)
    ensures |r| == width
    ensures BigEndianValue(r) == n
  {
    if width == 0 then []
    else
      var high := BigEndian(n / 256, width - 1);
      var r := high + [n % 256];
      assert r[..|r| - 1] == high;
      r
  }

  /** Python's `s[lo:hi]` for non-negative bounds: both bounds are clamped to `|s|` and
      an empty range gives the empty sequence. */
  function Slice<T>(s: seq<T>, lo: nat, hi: nat): (r: seq<T>)
    ensures lo <= hi <= |s| ==> r == s[lo..hi]
    ensures lo <= |s| <= hi ==> r == s[lo..]
    ensures |s| <= lo ==> r == []
    ensures hi <= lo ==> r == []
  {
    if lo >= |s| || lo >= hi then [] else s[lo..Min(hi, |s|)]
  }

  /** Slicing after a prefix is slicing what follows the prefix. */
  lemma SliceAfter<T>(s: seq<T>, lo: nat, n: nat)
    requires lo <= |s|
    ensures Slice(s, lo, lo + n) == Slice(s[lo..], 0, n)
  {
  }

  /** Python's `s[lo:]` for a non-negative bound. */
  function Drop<T>(s: seq<T>, lo: nat): (r: seq<T>)
    ensures lo <= |s| ==> r == s[lo..]
    ensures |s| <= lo ==> r == []
  {
    if lo >= |s| then [] else s[lo..]
  }

  /** The chunks joined in order. */
  function Flatten<T>(chunks: seq<seq<T>>): seq<T> {
    if |chunks| == 0 then [] else chunks[0] + Flatten(chunks[1..])
  }

  /** Joining one more chunk at the end extends the joined prefix by that chunk. */
  lemma {:induction false} FlattenSnoc<T>(chunks: seq<seq<T>>, i: nat)
    requires i < |chunks|
    ensures Flatten(chunks[..i + 1]) == Flatten(chunks[..i]) + chunks[i]
  {
    if i > 0 {
      FlattenSnoc(chunks[1..], i - 1);
      assert chunks[1..][..i] == chunks[..i + 1][1..];
      assert chunks[1..][..i - 1] == chunks[..i][1..];
    }
  }

  /** `pat` occurs in `s` starting at index `i`. */
  predicate InfixAt<T(==)>(s: seq<T>, pat: seq<T>, i: nat) {
    i + |pat| <= |s| && s[i..i + |pat|] == pat
  }

  /** Python's `pat in s` for byte strings: `pat` occurs somewhere in `s`. */
  predicate HasInfix<T(==)>(s: seq<T>, pat: seq<T>) {
    exists i :: 0 <= i <= |s| && InfixAt(s, pat, i)
  }
}
