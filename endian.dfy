// Fixed-width integers and their big-endian byte encodings.  The C code
// reaches these through htobe32/htobe64 and memcpy; here they are explicit
// encode and decode functions with their round trips.

module Endian {
  type byte = bv8
  type word = bv32

  /** Values of a uint32_t lie below U32 = 2^32, those of a uint64_t below U64 = 2^64. */
  const U32: nat := 0x1_0000_0000
  const U64: nat := 0x1_0000_0000_0000_0000

  /** The four bytes of `w`, most significant first (htobe32 followed by a memcpy). */
  function WordBytes(w: word): (b: seq<byte>)
    ensures |b| == 4
  {
    [((w >> 24) & 0xFF) as byte, ((w >> 16) & 0xFF) as byte,
     ((w >> 8) & 0xFF) as byte, (w & 0xFF) as byte]
  }

  /** The word whose big-endian encoding is `b`. */
  function BeWord(b: seq<byte>): word
    requires |b| == 4
  {
    ((b[0] as word) << 24) | ((b[1] as word) << 16) | ((b[2] as word) << 8) | (b[3] as word)
  }

  /** Decoding the encoding of a word gives the word back. */
  lemma WordBytesBe(w: word)
    ensures BeWord(WordBytes(w)) == w
  {
  }

  /** Encoding the decoding of four bytes gives the bytes back. */
  lemma BeWordBytes(b: seq<byte>)
    requires |b| == 4
    ensures WordBytes(BeWord(b)) == b
  {
    ByteLanes(b[0], b[1], b[2], b[3]);
    assert b == [b[0], b[1], b[2], b[3]];
  }

  /** Each byte lane of a word assembled from four bytes is that byte. */
  lemma ByteLanes(b0: byte, b1: byte, b2: byte, b3: byte)
    ensures var w := ((b0 as word) << 24) | ((b1 as word) << 16) | ((b2 as word) << 8) | (b3 as word);
      ((w >> 24) & 0xFF) as byte == b0 && ((w >> 16) & 0xFF) as byte == b1 &&
      ((w >> 8) & 0xFF) as byte == b2 && (w & 0xFF) as byte == b3
  {
  }

  /** The unsigned value of a byte string read most significant byte first. */
  function BeValue(b: seq<byte>): nat
  {
    if |b| == 0 then 0 else BeValue(b[..|b| - 1]) * 256 + b[|b| - 1] as int
  }

  /** 256 to the power `k`: one more than the largest value `k` bytes can hold. */
  function Pow256(k: nat): (p: nat)
    ensures p > 0
  {
    if k == 0 then 1 else 256 * Pow256(k - 1)
  }

  /**
   * The `k` low-order bytes of `x`, most significant first: a truncating
   * cast to a `k`-byte unsigned integer followed by htobe32/htobe64 and a memcpy.
   */
  function BeBytes(x: nat, k: nat): (b: seq<byte>)
    ensures |b| == k
  {
    if k == 0 then [] else BeBytes(x / 256, k - 1) + [(x % 256) as byte]
  }

  /** Reading back the encoding of a value that fits in `k` bytes gives the value. */
  lemma {:induction false} BeBytesValue(x: nat, k: nat)
    requires x < Pow256(k)
    ensures BeValue(BeBytes(x, k)) == x
  {
    if k > 0 {
      var front, last := BeBytes(x / 256, k - 1), (x % 256) as byte;
      BeBytesValue(x / 256, k - 1);
      ByteValue(x % 256);
      assert (front + [last])[..k - 1] == front;
    }
  }

  /** A number below 256 survives the round trip through a byte. */
  lemma ByteValue(v: nat)
    requires v < 256
    ensures (v as byte) as int == v
  {
    assert v % 256 == v;
  }

  /** `n` zero bytes. */
  function Zeros(n: nat): (z: seq<byte>)
    ensures |z| == n
  {
    seq(n, _ => 0)
  }
}
