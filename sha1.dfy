// The streaming SHA-1 engine: initial values, buffering of arbitrary input
// into 64-byte blocks, and the final padding and digest serialisation
// (FIPS 180-4 sections 5.1.1, 5.3.1 and 6.1.2).

module Sha1 {
  import opened Endian
  import opened Sha1Generic
  import opened Seqs

  /** Bytes per block and per digest. */
  const BlockSize: nat := 64
  const DigestSize: nat := 20

  /** The initial hash value H(0) of FIPS 180-4 section 5.3.1. */
  const IV: seq<word> := [0x67452301, 0xEFCDAB89, 0x98BADCFE, 0x10325476, 0xC3D2E1F0]

  /** The chaining words after compressing the whole 64-byte blocks of `data`, in order. */
  function Chain(h: seq<word>, data: seq<byte>): (r: seq<word>)
    requires |h| == 5
    ensures |r| == 5
    decreases |data|
  {
    if |data| < 64 then h else Chain(Compress(h, data[..64]), data[64..])
  }

  /** Compressing one more block after `n` whole blocks extends the chain by one step. */
  lemma {:induction false} ChainBlock(h: seq<word>, data: seq<byte>, n: nat, blk: seq<byte>)
    requires |h| == 5 && |data| == 64 * n && |blk| == 64
    ensures Chain(h, data + blk) == Compress(Chain(h, data), blk)
    decreases n
  {
    var d := data + blk;
    if n == 0 {
      assert d == blk && d[..64] == blk && d[64..] == [];
      assert Chain(h, d) == Chain(Compress(h, blk), []);
    } else {
      assert d[..64] == data[..64] && d[64..] == data[64..] + blk;
      ChainBlock(Compress(h, data[..64]), data[64..], n - 1, blk);
    }
  }

  /** Feeding whole blocks and then more data chains through the parts. */
  lemma {:induction false} ChainAppend(h: seq<word>, a: seq<byte>, n: nat, b: seq<byte>)
    requires |h| == 5 && |a| == 64 * n
    ensures Chain(h, a + b) == Chain(Chain(h, a), b)
    decreases n
  {
    var d := a + b;
    if n == 0 {
      assert d == b;
    } else {
      assert d[..64] == a[..64] && d[64..] == a[64..] + b;
      ChainAppend(Compress(h, a[..64]), a[64..], n - 1, b);
    }
  }

  /** The number of zero bytes between the 0x80 marker and the length field. */
  function PadZeros(n: nat): (z: nat)
    ensures z < 64 && (n + 1 + z + 8) % 64 == 0
  {
    (55 - n) % 64
  }

  /** The padded message of FIPS 180-4 section 5.1.1 for a message of whole bytes. */
  function Pad(msg: seq<byte>): (p: seq<byte>)
    requires 8 * |msg| < U64
    ensures |p| % 64 == 0 && |msg| + 9 <= |p| <= |msg| + 72
  {
    msg + [0x80] + Zeros(PadZeros(|msg|)) + BeBytes(8 * |msg|, 8)
  }

  /**
   * The padded message is the message, the byte 0x80, zero bytes, and the
   * message length in bits as a big-endian 64-bit number.
   */
  lemma PadShape(msg: seq<byte>)
    requires 8 * |msg| < U64
    ensures var p := Pad(msg);
            p[..|msg|] == msg && p[|msg|] == 0x80 &&
            (forall i :: |msg| < i < |p| - 8 ==> p[i] == 0) &&
            p[|p| - 8..] == BeBytes(8 * |msg|, 8)
  {
    var p := Pad(msg);
    var a, z, d := msg + [0x80], Zeros(PadZeros(|msg|)), BeBytes(8 * |msg|, 8);
    assert p == (a + z) + d;
    Suffix(a + z, d);
    assert p[..|a + z|] == a + z;
    assert (a + z)[..|a|] == a;
    assert a[..|msg|] == msg;
    assert forall i :: |msg| < i < |p| - 8 ==> p[i] == (a + z)[i] == z[i - |a|];
  }

  /** The chaining words, each big-endian, one after the other. */
  function Serialize(h: seq<word>): (out: seq<byte>)
    ensures |out| == 4 * |h|
  {
    if |h| == 0 then [] else Serialize(h[..|h| - 1]) + WordBytes(h[|h| - 1])
  }

  /** Storing the sixteen message words of a block big-endian gives the block back. */
  lemma SerializeMessageWords(blk: seq<byte>)
    requires |blk| == 64
    ensures Serialize(MessageWords(blk)) == blk
  {
    var m := MessageWords(blk);
    forall k | 0 <= k < 64
      ensures Serialize(m)[k] == blk[k]
    {
      var i := k / 4;
      SerializeWord(m, i);
      assert Serialize(m)[k] == Serialize(m)[4 * i .. 4 * i + 4][k - 4 * i];
      assert blk[k] == blk[4 * i .. 4 * i + 4][k - 4 * i];
    }
  }

  /** Serialising one more word appends its four bytes. */
  lemma SerializeStep(h: seq<word>, i: nat)
    requires i < |h|
    ensures Serialize(h[..i + 1]) == Serialize(h[..i]) + WordBytes(h[i])
  {
    assert h[..i + 1][..i] == h[..i];
  }

  /** Bytes 4i..4i+3 of the serialisation are word i, most significant byte first. */
  lemma {:induction false} SerializeWord(h: seq<word>, i: nat)
    requires i < |h|
    ensures Serialize(h)[4 * i .. 4 * i + 4] == WordBytes(h[i])
    decreases |h|
  {
    var front := h[..|h| - 1];
    var a, b := Serialize(front), WordBytes(h[|h| - 1]);
    if i < |h| - 1 {
      SerializeWord(front, i);
      assert (a + b)[4 * i .. 4 * i + 4] == a[4 * i .. 4 * i + 4];
    } else {
      assert (a + b)[4 * i .. 4 * i + 4] == b;
    }
  }

  /** The SHA-1 digest of a message shorter than 2^64 bits. */
  function Digest(msg: seq<byte>): (d: seq<byte>)
    requires 8 * |msg| < U64
    ensures |d| == DigestSize
  {
    Serialize(Chain(IV, Pad(msg)))
  }

  /** A tail of 55 bytes or fewer leaves room for the marker and the length in one final block. */
  lemma {:induction false} PadOneBlock(msg: seq<byte>, n: nat, r: nat, bits: nat)
    requires bits == 8 * |msg| < U64 && |msg| == 64 * n + r && r < 56
    ensures Pad(msg) == msg[..64 * n] + (msg[64 * n..] + [0x80] + Zeros(55 - r) + BeBytes(bits, 8))
  {
    assert PadZeros(|msg|) == 55 - r;
    assert msg == msg[..64 * n] + msg[64 * n..];
  }

  /** A tail of 56 bytes or more needs a second block holding zeros and the length. */
  lemma {:induction false} PadTwoBlocks(msg: seq<byte>, n: nat, r: nat, bits: nat)
    requires bits == 8 * |msg| < U64 && |msg| == 64 * n + r && 56 <= r < 64
    ensures Pad(msg) == msg[..64 * n] + (msg[64 * n..] + [0x80] + Zeros(63 - r)) + (Zeros(56) + BeBytes(bits, 8))
  {
    assert PadZeros(|msg|) == 119 - r;
    assert Zeros(119 - r) == Zeros(63 - r) + Zeros(56);
    assert msg == msg[..64 * n] + msg[64 * n..];
  }

  /** The sha1_t state: chaining words, bit counter, block buffer and its fill count. */
  class Context {
    var dgst: array<word>
    var msgsz: nat
    var buf: array<byte>
    var bufsz: nat
    /** Every byte fed since the last Init, and how many whole blocks of it were compressed. */
    ghost var msg: seq<byte>
    ghost var blocks: nat

    /** The chaining words and the buffer hold exactly what the bytes fed so far determine. */
    ghost predicate Buffered()
      reads this, dgst, buf
    {
      dgst.Length == 5 && buf.Length == BlockSize &&
      bufsz < BlockSize && |msg| == 64 * blocks + bufsz &&
      dgst[..] == Chain(IV, msg[..64 * blocks]) &&
      buf[..bufsz] == msg[64 * blocks..]
    }

    /** Buffered, and the bit counter counts the bytes fed so far. */
    ghost predicate Valid()
      reads this, dgst, buf
    {
      Buffered() && msgsz == 8 * |msg| && msgsz < U64
    }

    /** Storage for an uninitialised sha1_t; Init makes it usable. */
    constructor ()
      ensures fresh(dgst) && fresh(buf) && dgst.Length == 5 && buf.Length == BlockSize
    {
      dgst := new word[5];
      buf := new byte[64];
      msgsz, bufsz := 0, 0;
      msg, blocks := [], 0;
    }

    /** sha1init: the initial chaining words, an empty buffer and a zero bit counter. */
    method Init()
      requires dgst.Length == 5 && buf.Length == BlockSize
      modifies this, dgst
      ensures Valid() && msg == []
      ensures dgst == old(dgst) && buf == old(buf)
      ensures dgst[..] == IV && msgsz == 0 && bufsz == 0
    {
      dgst[0], dgst[1], dgst[2], dgst[3], dgst[4] := IV[0], IV[1], IV[2], IV[3], IV[4];
      msgsz, bufsz := 0, 0;
      msg, blocks := [], 0;
      assert dgst[..] == IV;
    }

    /**
     * sha1hash: feeds `m`, compressing each block as it fills.  A bit
     * counter that would pass 2^64 is an error, and then nothing changes.
     */
    method Hash(m: seq<byte>) returns (ok: bool)
      requires Valid()
      modifies this, dgst, buf
      ensures dgst == old(dgst) && buf == old(buf)
      ensures ok <==> old(msgsz) + 8 * |m| < U64
      ensures Valid()
      ensures msg == if ok then old(msg) + m else old(msg)
      ensures !ok ==> unchanged(this) && unchanged(dgst) && unchanged(buf)
    {
      if msgsz + 8 * |m| >= U64 {
        return false;
      }
      msgsz := msgsz + 8 * |m|;
      Feed(m);
      ok := true;
    }

    /** The loop of sha1hash: `m` is copied into the buffer, each full block compressed. */
    method Feed(m: seq<byte>)
      requires Buffered()
      modifies this`bufsz, this`blocks, this`msg, dgst, buf
      ensures Buffered() && msg == old(msg) + m
    {
      ghost var m0 := msg;
      ghost var fed := m0;
      ghost var done := m0[..64 * blocks];
      var pos: nat, rest: nat := 0, |m|;
      assert m[..pos] == [] && fed == m0 + m[..pos] && fed == done + buf[..bufsz];
      while rest != 0
        invariant pos + rest == |m| && fed == m0 + m[..pos]
        invariant bufsz < 64 && |done| == 64 * blocks && fed == done + buf[..bufsz]
        invariant dgst[..] == Chain(IV, done)
        modifies this`bufsz, this`blocks, dgst, buf
        decreases rest
      {
        var free := BlockSize - bufsz;
        var ncpy := if rest < free then rest else free;
        PrefixStep(m0, m, pos, ncpy);
        done := Absorb(m[pos..pos + ncpy], done);
        fed := m0 + m[..pos + ncpy];
        pos := pos + ncpy;
        rest := rest - ncpy;
      }
      assert m[..pos] == m;
      assert |fed| == 64 * blocks + bufsz;
      assert fed[..64 * blocks] == done && fed[64 * blocks..] == buf[..bufsz];
      msg := fed;
      assert dgst[..] == Chain(IV, msg[..64 * blocks]);
    }

    /**
     * One pass of the sha1hash loop: the memcpy of `chunk` behind the
     * buffered bytes, and the compression of the buffer once it is full.
     */
    method Absorb(chunk: seq<byte>, ghost done: seq<byte>) returns (ghost done': seq<byte>)
      requires dgst.Length == 5 && buf.Length == BlockSize && bufsz + |chunk| <= BlockSize
      requires |done| == 64 * blocks && dgst[..] == Chain(IV, done)
      modifies this`bufsz, this`blocks, dgst, buf
      ensures bufsz < BlockSize && |done'| == 64 * blocks && dgst[..] == Chain(IV, done')
      ensures done' + buf[..bufsz] == done + old(buf[..bufsz]) + chunk
    {
      ghost var held := buf[..bufsz];
      Copy(buf, bufsz, chunk);
      bufsz := bufsz + |chunk|;
      assert buf[..bufsz] == held + chunk;
      done' := done;
      if bufsz == BlockSize {
        assert buf[..] == held + chunk;
        HashBuffer(done, blocks);
        done' := done + buf[..];
        blocks := blocks + 1;
        bufsz := 0;
        assert buf[..bufsz] == [];
      }
      Associative(done, held, chunk);
    }

    /** sha1hashblk on the full buffer: the chain advances over one more block. */
    method HashBuffer(ghost done: seq<byte>, ghost n: nat)
      requires dgst.Length == 5 && buf.Length == BlockSize
      requires |done| == 64 * n && dgst[..] == Chain(IV, done)
      modifies dgst
      ensures dgst[..] == Chain(IV, done + buf[..])
    {
      ChainBlock(IV, done, n, buf[..]);
      HashBlock(dgst, buf[..]);
    }

    /**
     * sha1end: appends the padding and length, compresses the final one or
     * two blocks and writes the 20-byte digest of everything fed into `out`.
     */
    method End(out: array<byte>)
      requires Valid() && out.Length >= DigestSize && out != buf
      modifies this`bufsz, dgst, buf, out
      ensures out[..DigestSize] == Digest(msg)
      ensures out[DigestSize..] == old(out[DigestSize..])
      ensures dgst[..] == Chain(IV, Pad(msg))
      ensures bufsz == 56 && buf[..] == Pad(msg)[|Pad(msg)| - 64..]
    {
      ghost var done, n := PadFinal();
      HashBuffer(done, n);
      WriteDigest(out);
      Suffix(done, buf[..]);
    }

    /**
     * The padding of sha1end: the marker byte, zeros, and the bit count in
     * the last eight bytes, compressing a first block when the length does
     * not fit behind the marker.  Afterwards the buffer is the last block of
     * the padded message and the chain covers everything before it.
     */
    method PadFinal() returns (ghost done: seq<byte>, ghost n: nat)
      requires Valid()
      modifies this`bufsz, dgst, buf
      ensures |done| == 64 * n && dgst[..] == Chain(IV, done)
      ensures Pad(msg) == done + buf[..] && bufsz == 56
    {
      ghost var m := msg;
      done, n := m[..64 * blocks], blocks;
      ghost var r := bufsz;
      ghost var cur := m[64 * n..] + [0x80];
      var L := BeBytes(msgsz, 8);
      Copy(buf, bufsz, [0x80]);
      bufsz := bufsz + 1;
      assert buf[..bufsz] == cur;
      if bufsz > BlockSize - 8 {
        done, n := PadTwo(m, done, n, cur, msgsz, L);
      } else {
        PadOneBlock(m, n, r, msgsz);
        PadLast(L);
        assert buf[..] == cur + Zeros(55 - r) + L;
      }
    }

    /** The two-block case of sha1end: the marker left no room for the bit count. */
    method PadTwo(ghost m: seq<byte>, ghost done: seq<byte>, ghost n: nat, ghost cur: seq<byte>, ghost bits: nat, L: seq<byte>)
        returns (ghost done': seq<byte>, ghost n': nat)
      requires dgst.Length == 5 && buf.Length == BlockSize && 56 < bufsz <= BlockSize
      requires 8 * |m| < U64 && |m| == 64 * n + bufsz - 1
      requires done == m[..64 * n] && cur == m[64 * n..] + [0x80] && buf[..bufsz] == cur
      requires bits == 8 * |m| && L == BeBytes(bits, 8) && dgst[..] == Chain(IV, done)
      modifies this`bufsz, dgst, buf
      ensures |done'| == 64 * n' && dgst[..] == Chain(IV, done')
      ensures Pad(m) == done' + buf[..] && bufsz == 56
    {
      ghost var r := bufsz - 1;
      PadTwoBlocks(m, n, r, bits);
      done' := FlushFirst(done, n);
      n' := n + 1;
      assert done' == done + (cur + Zeros(63 - r));
      PadLast(L);
      assert buf[..] == Zeros(56) + L;
    }

    /** The first of two final blocks: zeros to the end of the buffer, then compression. */
    method FlushFirst(ghost done: seq<byte>, ghost n: nat) returns (ghost done': seq<byte>)
      requires dgst.Length == 5 && buf.Length == BlockSize && bufsz <= BlockSize
      requires |done| == 64 * n && dgst[..] == Chain(IV, done)
      modifies this`bufsz, dgst, buf
      ensures bufsz == 0 && |done'| == 64 * (n + 1) && dgst[..] == Chain(IV, done')
      ensures done' == done + (old(buf[..bufsz]) + Zeros(BlockSize - old(bufsz)))
    {
      ZeroTo(BlockSize);
      assert buf[..] == buf[..BlockSize];
      HashBuffer(done, n);
      done' := done + buf[..];
      bufsz := 0;
    }

    /** The last block: zeros up to byte 56 and the bit count big-endian in bytes 56..63. */
    method PadLast(L: seq<byte>)
      requires buf.Length == BlockSize && bufsz <= 56 && |L| == 8
      modifies this`bufsz, buf
      ensures bufsz == 56
      ensures buf[..] == old(buf[..bufsz]) + Zeros(56 - old(bufsz)) + L
    {
      ZeroTo(56);
      Copy(buf, 56, L);
      assert buf[..] == buf[..64];
    }

    /** The padding loops of sha1end: zero bytes up to `limit`. */
    method ZeroTo(limit: nat)
      requires buf.Length == BlockSize && bufsz <= limit <= BlockSize
      modifies this`bufsz, buf
      ensures bufsz == limit
      ensures buf[..limit] == old(buf[..bufsz]) + Zeros(limit - old(bufsz))
      ensures buf[limit..] == old(buf[limit..])
    {
      ghost var start := bufsz;
      while bufsz < limit
        invariant start <= bufsz <= limit
        invariant buf[..bufsz] == old(buf[..start]) + Zeros(bufsz - start)
        invariant buf[limit..] == old(buf[limit..])
      {
        buf[bufsz] := 0;
        bufsz := bufsz + 1;
      }
    }

    /** The final loop of sha1end: the chaining words, big-endian, into `out`. */
    method WriteDigest(out: array<byte>)
      requires dgst.Length == 5 && out.Length >= DigestSize
      modifies out
      ensures out[..DigestSize] == Serialize(dgst[..])
      ensures out[DigestSize..] == old(out[DigestSize..])
    {
      ghost var h := dgst[..];
      for i := 0 to 5
        invariant out[..4 * i] == Serialize(h[..i])
        invariant out[DigestSize..] == old(out[DigestSize..])
      {
        Copy(out, 4 * i, WordBytes(dgst[i]));
        SerializeStep(h, i);
      }
      assert h[..5] == h;
    }
  }

  /** memcpy of `src` into `dst` at offset `off`; every other byte keeps its value. */
  method Copy(dst: array<byte>, off: nat, src: seq<byte>)
    requires off + |src| <= dst.Length
    modifies dst
    ensures dst[..off + |src|] == old(dst[..off]) + src
    ensures dst[off + |src|..] == old(dst[off + |src|..])
  {
    forall i | 0 <= i < |src| {
      dst[off + i] := src[i];
    }
    assert dst[..off + |src|] == old(dst[..off]) + src;
  }

  /** Feeding `m` up to `pos + k` is feeding it up to `pos` and then the next `k` bytes. */
  lemma PrefixStep(m0: seq<byte>, m: seq<byte>, pos: nat, k: nat)
    requires pos + k <= |m|
    ensures m0 + m[..pos + k] == (m0 + m[..pos]) + m[pos..pos + k]
  {
    assert m[..pos + k] == m[..pos] + m[pos..pos + k];
  }
  /**
   * The overflow test of sha1hash as written: the byte count times eight and
   * the new bit counter are both computed modulo 2^64 before the comparison.
   */
  function OverflowAsWritten(total: nat, n: nat): (over: bool)
    requires total < U64 && n < U64
    ensures over ==> total + 8 * n >= U64
  {
    var sum := (total + (8 * n) % U64) % U64;
    assert sum != total + (8 * n) % U64 ==> total + 8 * n >= U64;
    sum < total
  }

  /** Below 2^61 bytes the product cannot wrap, and then the test fires exactly when the counter would. */
  lemma OverflowExact(total: nat, n: nat)
    requires total < U64 && 8 * n < U64
    ensures OverflowAsWritten(total, n) <==> total + 8 * n >= U64
  {
    assert (8 * n) % U64 == 8 * n;
    if total + 8 * n >= U64 {
      assert (total + 8 * n) % U64 == total + 8 * n - U64;
    } else {
      assert (total + 8 * n) % U64 == total + 8 * n;
    }
  }

  /** A chunk of 2^61 bytes wraps the product to zero: the test lets it through on a fresh context. */
  lemma OverflowMissed()
    ensures 8 * 0x2000_0000_0000_0000 >= U64
    ensures !OverflowAsWritten(0, 0x2000_0000_0000_0000)
  {
    assert (8 * 0x2000_0000_0000_0000) % U64 == 0;
  }
}
