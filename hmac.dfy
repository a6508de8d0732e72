// HMAC-SHA1 (RFC 2104 section 2) as hmac_sha1 computes it: the key is
// brought to one 64-byte block, XORed with the inner and outer pad bytes,
// and the message is hashed twice.

module Hmac {
  import opened Endian
  import opened Seqs
  import opened Sha1

  /** The inner and outer pad bytes of RFC 2104. */
  const IPad: byte := 0x36
  const OPad: byte := 0x5C

  /**
   * keyext: a key longer than a block is replaced by its digest, and the
   * result is zero-extended to one block.
   */
  function KeyBlock(key: seq<byte>): (k: seq<byte>)
    requires 8 * |key| < U64
    ensures |k| == BlockSize
  {
    if |key| > BlockSize then Digest(key) + Zeros(BlockSize - DigestSize)
    else key + Zeros(BlockSize - |key|)
  }

  /** Every byte of `k` XORed with the pad byte `p`. */
  function XorPad(k: seq<byte>, p: byte): (r: seq<byte>)
    ensures |r| == |k|
  {
    seq(|k|, i requires 0 <= i < |k| => k[i] ^ p)
  }

  /** Messages whose inner hash input, the pad block and the message, stays below 2^64 bits. */
  predicate Fits(key: seq<byte>, msg: seq<byte>)
  {
    8 * |key| < U64 && 8 * (BlockSize + |msg|) < U64
  }

  /** HMAC-SHA1: H((K' xor opad) ++ H((K' xor ipad) ++ msg)), K' the key block. */
  function Mac(key: seq<byte>, msg: seq<byte>): (d: seq<byte>)
    requires Fits(key, msg)
    ensures |d| == DigestSize
  {
    var k := KeyBlock(key);
    Digest(XorPad(k, OPad) + Digest(XorPad(k, IPad) + msg))
  }

  /** XORing with the same pad byte twice gives the key block back. */
  lemma XorPadTwice(k: seq<byte>, p: byte)
    ensures XorPad(XorPad(k, p), p) == k
  {
    forall i | 0 <= i < |k|
      ensures XorPad(XorPad(k, p), p)[i] == k[i]
    {
      XorSelf(k[i], p);
    }
  }

  lemma XorSelf(x: byte, p: byte)
    ensures (x ^ p) ^ p == x
  {
  }

  /** The outer pad block is the inner one XORed with ipad ^ opad, so the two blocks always differ. */
  lemma PadsDiffer(k: seq<byte>)
    requires |k| == BlockSize
    ensures XorPad(XorPad(k, IPad), IPad ^ OPad) == XorPad(k, OPad)
    ensures XorPad(k, IPad) != XorPad(k, OPad)
  {
    forall i | 0 <= i < |k|
      ensures XorPad(XorPad(k, IPad), IPad ^ OPad)[i] == XorPad(k, OPad)[i]
    {
      XorPads(k[i]);
    }
    XorPads(k[0]);
    assert XorPad(k, IPad)[0] != XorPad(k, OPad)[0];
  }

  lemma XorPads(x: byte)
    ensures (x ^ IPad) ^ (IPad ^ OPad) == x ^ OPad && x ^ IPad != x ^ OPad
  {
  }

  /** A key of at most one block is used as it is, followed by zeros; it is never hashed. */
  lemma ShortKeyBlock(key: seq<byte>)
    requires |key| <= BlockSize
    ensures KeyBlock(key)[..|key|] == key
    ensures forall i :: |key| <= i < BlockSize ==> KeyBlock(key)[i] == 0
  {
    var z := Zeros(BlockSize - |key|);
    assert KeyBlock(key) == key + z;
    assert forall i :: |key| <= i < BlockSize ==> KeyBlock(key)[i] == z[i - |key|];
  }

  /** A key longer than a block contributes its 20-byte digest followed by 44 zeros. */
  lemma LongKeyBlock(key: seq<byte>)
    requires BlockSize < |key| && 8 * |key| < U64
    ensures KeyBlock(key)[..DigestSize] == Digest(key)
    ensures forall i :: DigestSize <= i < BlockSize ==> KeyBlock(key)[i] == 0
  {
    var z := Zeros(BlockSize - DigestSize);
    assert KeyBlock(key) == Digest(key) + z;
    assert forall i :: DigestSize <= i < BlockSize ==> KeyBlock(key)[i] == z[i - DigestSize];
  }

  /** A long key and its digest are the same HMAC key. */
  lemma LongKeyIsDigest(key: seq<byte>, msg: seq<byte>)
    requires BlockSize < |key| && Fits(key, msg)
    ensures Fits(Digest(key), msg) && Mac(key, msg) == Mac(Digest(key), msg)
  {
    assert KeyBlock(Digest(key)) == KeyBlock(key);
  }

  /** Appending a zero byte to a key shorter than a block gives the same HMAC key. */
  lemma ZeroExtendedKey(key: seq<byte>, msg: seq<byte>)
    requires |key| < BlockSize && Fits(key, msg)
    ensures Fits(key + [0], msg) && Mac(key, msg) == Mac(key + [0], msg)
  {
    assert Zeros(BlockSize - |key|) == [0] + Zeros(BlockSize - |key| - 1);
    assert KeyBlock(key + [0]) == KeyBlock(key);
  }

  /**
   * hmac_sha1: writes the 20-byte MAC of `msg` under `key` into `out`.  The
   * bit-counter overflow of sha1hash, which exits in the C code, is reported
   * as a false result before `out` is written.
   */
  method HmacSha1(out: array<byte>, key: seq<byte>, msg: seq<byte>) returns (ok: bool)
    requires out.Length >= DigestSize
    modifies out
    ensures ok <==> Fits(key, msg)
    ensures ok ==> out[..DigestSize] == Mac(key, msg)
    ensures ok ==> out[DigestSize..] == old(out[DigestSize..])
    ensures !ok ==> out[..] == old(out[..])
  {
    var keyext := new byte[BlockSize](_ => 0);
    assert keyext[..] == Zeros(BlockSize);
    ok := ExtendKey(keyext, key);
    if !ok {
      return;
    }
    ghost var k := KeyBlock(key);
    ghost var ip, op := XorPad(k, IPad), XorPad(k, OPad);
    var keyipad := new byte[BlockSize];
    var keyopad := new byte[BlockSize];
    XorBlocks(keyipad, keyopad, keyext);
    var ipad, opad := keyipad[..], keyopad[..];
    assert ipad == ip && opad == op;
    var sha := new Context();
    var dgst := new byte[DigestSize];
    ok := Inner(sha, ipad, msg, dgst);
    if !ok {
      return;
    }
    var inner := dgst[..];
    assert inner == Digest(ip + msg);
    Outer(sha, opad, inner, out);
    assert out[..DigestSize] == Digest(op + inner);
  }

  /** The pad loop of hmac_sha1: both pad blocks from the key block in one pass. */
  method XorBlocks(keyipad: array<byte>, keyopad: array<byte>, keyext: array<byte>)
    requires keyipad.Length == keyopad.Length == keyext.Length
    requires keyipad != keyext && keyopad != keyext && keyipad != keyopad
    modifies keyipad, keyopad
    ensures keyipad[..] == XorPad(keyext[..], IPad)
    ensures keyopad[..] == XorPad(keyext[..], OPad)
  {
    for i := 0 to keyext.Length
      invariant forall j :: 0 <= j < i ==> keyipad[j] == keyext[j] ^ IPad
      invariant forall j :: 0 <= j < i ==> keyopad[j] == keyext[j] ^ OPad
    {
      keyipad[i] := keyext[i] ^ IPad;
      keyopad[i] := keyext[i] ^ OPad;
    }
  }

  /** The key extension of hmac_sha1: keyext, all zeros on entry, becomes the key block. */
  method ExtendKey(keyext: array<byte>, key: seq<byte>) returns (ok: bool)
    requires keyext.Length == BlockSize && keyext[..] == Zeros(BlockSize)
    modifies keyext
    ensures ok <==> 8 * |key| < U64
    ensures ok ==> keyext[..] == KeyBlock(key)
  {
    if |key| > BlockSize {
      ghost var rest := keyext[DigestSize..];
      assert rest == Zeros(BlockSize - DigestSize);
      ok := HashKey(keyext, key);
      if ok {
        assert keyext[..] == keyext[..DigestSize] + keyext[DigestSize..];
      }
    } else {
      Copy(keyext, 0, key);
      assert keyext[..] == keyext[..|key|] + keyext[|key|..];
      ok := true;
    }
  }

  /** A key longer than a block: its digest goes into the first 20 bytes of keyext. */
  method HashKey(keyext: array<byte>, key: seq<byte>) returns (ok: bool)
    requires keyext.Length == BlockSize
    modifies keyext
    ensures ok <==> 8 * |key| < U64
    ensures ok ==> keyext[..DigestSize] == Digest(key)
    ensures keyext[DigestSize..] == old(keyext[DigestSize..])
  {
    var sha := new Context();
    sha.Init();
    ok := sha.Hash(key);
    if !ok {
      return;
    }
    assert sha.msg == key;
    sha.End(keyext);
  }

  /** The inner hash of hmac_sha1: the digest of the inner pad block followed by the message. */
  method Inner(sha: Context, ipad: seq<byte>, msg: seq<byte>, dgst: array<byte>) returns (ok: bool)
    requires |ipad| == BlockSize && dgst.Length == DigestSize
    requires sha.dgst.Length == 5 && sha.buf.Length == BlockSize && dgst != sha.buf
    modifies sha, sha.dgst, sha.buf, dgst
    ensures sha.dgst == old(sha.dgst) && sha.buf == old(sha.buf)
    ensures ok <==> 8 * (BlockSize + |msg|) < U64
    ensures ok ==> dgst[..] == Digest(ipad + msg)
  {
    sha.Init();
    ok := sha.Hash(ipad);
    assert ok && sha.msg == ipad;
    ok := sha.Hash(msg);
    if !ok {
      return;
    }
    assert sha.msg == ipad + msg;
    sha.End(dgst);
    assert dgst[..] == dgst[..DigestSize];
  }

  /** The outer hash of hmac_sha1: the digest of the outer pad block followed by the inner digest. */
  method Outer(sha: Context, opad: seq<byte>, inner: seq<byte>, out: array<byte>)
    requires |opad| == BlockSize && |inner| == DigestSize && out.Length >= DigestSize
    requires sha.dgst.Length == 5 && sha.buf.Length == BlockSize && out != sha.buf
    modifies sha, sha.dgst, sha.buf, out
    ensures out[..DigestSize] == Digest(opad + inner)
    ensures out[DigestSize..] == old(out[DigestSize..])
  {
    sha.Init();
    var ok := sha.Hash(opad);
    assert ok && sha.msg == opad;
    ok := sha.Hash(inner);
    assert ok && sha.msg == opad + inner;
    sha.End(out);
  }
}
