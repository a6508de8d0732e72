// The portable SHA-1 block compression: message schedule, 80 rounds and the
// addition into the chaining words (FIPS 180-4 section 6.1.2).  The
// specification below is the textbook one; the method follows the C code,
// whose schedule words 32..79 use an equivalent shortcut recurrence.

module Sha1Generic {
  import opened Endian

  /** The round constants K[0..3] (FIPS 180-4 section 4.2.1). */
  const K: seq<word> := [0x5A827999, 0x6ED9EBA1, 0x8F1BBCDC, 0xCA62C1D6]

  /** Left rotation of a 32-bit word by 0 < bits < 32 places (the portable branch of rotl32). */
  function Rotl32(x: word, bits: word): word
    requires 0 < bits < 32
  {
    (x << bits) | (x >> (32 - bits))
  }

  /** Rotating right by the same amount undoes the rotation, so no bit is lost. */
  lemma RotlInvertible(x: word, bits: word)
    requires 0 < bits < 32
    ensures (Rotl32(x, bits) >> bits) | (Rotl32(x, bits) << (32 - bits)) == x
  {
  }

  /** Round functions in the form FIPS 180-4 section 4.1.1 gives them. */
  function Ch(x: word, y: word, z: word): word { (x & y) ^ (!x & z) }
  function Parity(x: word, y: word, z: word): word { x ^ y ^ z }
  function Maj(x: word, y: word, z: word): word { (x & y) ^ (x & z) ^ (y & z) }

  /** The C code writes Ch and Maj with OR instead of XOR; both spellings agree. */
  lemma ChOr(b: word, c: word, d: word)
    ensures (b & c) | (!b & d) == Ch(b, c, d)
  {
  }

  lemma MajOr(b: word, c: word, d: word)
    ensures (b & c) | (b & d) | (c & d) == Maj(b, c, d)
  {
  }

  /** The round function f_t and constant K_t used in round t. */
  function F(t: nat, b: word, c: word, d: word): word
    requires t < 80
  {
    if t < 20 then Ch(b, c, d) else if t < 40 then Parity(b, c, d)
    else if t < 60 then Maj(b, c, d) else Parity(b, c, d)
  }

  function KAt(t: nat): (k: word)
    requires t < 80
    ensures k == K[t / 20]
  {
    if t < 20 then K[0] else if t < 40 then K[1] else if t < 60 then K[2] else K[3]
  }

  /** The round function of each range of rounds, in the C code's spelling. */
  lemma RangeCh(t: nat, b: word, c: word, d: word)
    requires t < 80
    ensures t < 20 ==> F(t, b, c, d) == (b & c) | (!b & d)
  {
    ChOr(b, c, d);
  }

  lemma RangeParity(t: nat, b: word, c: word, d: word)
    requires t < 80
    ensures 20 <= t < 40 ==> F(t, b, c, d) == b ^ c ^ d
    ensures 60 <= t ==> F(t, b, c, d) == b ^ c ^ d
  {
  }

  lemma RangeMaj(t: nat, b: word, c: word, d: word)
    requires t < 80
    ensures 40 <= t < 60 ==> F(t, b, c, d) == (b & c) | (b & d) | (c & d)
  {
    MajOr(b, c, d);
  }

  /** The four-way exclusive or of a schedule recurrence. */
  function Xor4(a: word, b: word, c: word, d: word): word { a ^ b ^ c ^ d }

  /** The sixteen message words of a 64-byte block, each read big-endian. */
  function MessageWords(blk: seq<byte>): (m: seq<word>)
    requires |blk| == 64
    ensures |m| == 16
    ensures forall i :: 0 <= i < 16 ==> WordBytes(m[i]) == blk[4 * i .. 4 * i + 4]
  {
    WordsLoaded(blk);
    seq(16, i requires 0 <= i < 16 => BeWord(blk[4 * i .. 4 * i + 4]))
  }

  /** Each big-endian load writes back to the four bytes it read. */
  lemma WordsLoaded(blk: seq<byte>)
    requires |blk| == 64
    ensures forall i :: 0 <= i < 16 ==> WordBytes(BeWord(blk[4 * i .. 4 * i + 4])) == blk[4 * i .. 4 * i + 4]
  {
    forall i | 0 <= i < 16
      ensures WordBytes(BeWord(blk[4 * i .. 4 * i + 4])) == blk[4 * i .. 4 * i + 4]
    {
      BeWordBytes(blk[4 * i .. 4 * i + 4]);
    }
  }

  /** Word t of a schedule follows the textbook recurrence. */
  ghost predicate Expanded(w: seq<word>, t: nat)
    requires 16 <= t < |w|
  {
    w[t] == Rotl32(Xor4(w[t - 3], w[t - 8], w[t - 14], w[t - 16]), 1)
  }

  /** Completes a schedule prefix to 80 words with the textbook recurrence. */
  function Extend(w: seq<word>): (r: seq<word>)
    requires 16 <= |w| <= 80
    ensures |r| == 80 && r[..|w|] == w
    ensures forall t :: |w| <= t < 80 ==> Expanded(r, t)
    decreases 80 - |w|
  {
    if |w| == 80 then w
    else
      var n := |w|;
      var next := w + [Rotl32(Xor4(w[n - 3], w[n - 8], w[n - 14], w[n - 16]), 1)];
      assert Expanded(next, n);
      Extend(next)
  }

  /** The message schedule W_0..W_79 of FIPS 180-4 section 6.1.2 step 1. */
  function Schedule(blk: seq<byte>): (w: seq<word>)
    requires |blk| == 64
    ensures |w| == 80
  {
    Extend(MessageWords(blk))
  }

  /** The schedule starts with the message words and follows the recurrence after them. */
  lemma ScheduleWords(blk: seq<byte>)
    requires |blk| == 64
    ensures Schedule(blk)[..16] == MessageWords(blk)
    ensures forall t :: 16 <= t < 80 ==> Expanded(Schedule(blk), t)
  {
  }

  // ---- The shortcut recurrence for words 32..79 ----------------------------
  // Exclusive or is kept behind the binary function X so that the algebra
  // below is carried out on terms rather than on individual bits.

  ghost function X(a: word, b: word): word { a ^ b }

  lemma Flat(a: word, b: word, c: word, d: word)
    ensures X(X(a, b), X(c, d)) == Xor4(a, b, c, d)
  {
  }

  lemma Swap(a: word, b: word, c: word, d: word)
    ensures X(X(a, b), X(c, d)) == X(X(a, c), X(b, d))
  {
    Flat(a, b, c, d);
    Flat(a, c, b, d);
  }

  lemma Cancel(a: word, b: word, c: word)
    ensures X(X(a, b), X(b, c)) == X(a, c)
  {
  }

  lemma RotlX(a: word, b: word)
    ensures Rotl32(X(a, b), 1) == X(Rotl32(a, 1), Rotl32(b, 1))
  {
  }

  lemma RotlTwice(x: word)
    ensures Rotl32(Rotl32(x, 1), 1) == Rotl32(x, 2)
  {
  }

  /** In the exclusive or of a symmetric 4x4 arrangement, every off-diagonal entry cancels. */
  lemma {:induction false} SymmetricCancel(x0: word, x1: word, x2: word, x3: word, x4: word,
                                           x5: word, x6: word, x7: word, x8: word, x9: word)
    ensures X(X(X(X(x0, x1), X(x2, x3)), X(X(x1, x4), X(x5, x6))),
              X(X(X(x2, x5), X(x7, x8)), X(X(x3, x6), X(x8, x9))))
         == X(X(x0, x4), X(x7, x9))
  {
    Swap(X(x0, x1), X(x2, x3), X(x1, x4), X(x5, x6));
    Cancel(x0, x1, x4);
    Swap(X(x2, x5), X(x7, x8), X(x3, x6), X(x8, x9));
    Cancel(x7, x8, x9);
    Swap(x2, x3, x5, x6);
    Cancel(X(x0, x4), X(X(x2, x5), X(x3, x6)), X(x7, x9));
  }

  lemma {:induction false} TwoLevels(x0: word, x1: word, x2: word, x3: word, x4: word,
                                     x5: word, x6: word, x7: word, x8: word, x9: word)
    ensures Rotl32(X(X(Rotl32(X(X(x0, x1), X(x2, x3)), 1), Rotl32(X(X(x1, x4), X(x5, x6)), 1)),
                     X(Rotl32(X(X(x2, x5), X(x7, x8)), 1), Rotl32(X(X(x3, x6), X(x8, x9)), 1))), 1)
         == Rotl32(X(X(x0, x4), X(x7, x9)), 2)
  {
    var a, b := X(X(x0, x1), X(x2, x3)), X(X(x1, x4), X(x5, x6));
    var c, d := X(X(x2, x5), X(x7, x8)), X(X(x3, x6), X(x8, x9));
    RotlX(a, b);
    RotlX(c, d);
    RotlX(X(a, b), X(c, d));
    SymmetricCancel(x0, x1, x2, x3, x4, x5, x6, x7, x8, x9);
    RotlTwice(X(X(x0, x4), X(x7, x9)));
  }

  /** One word of the shortcut: the textbook recurrence applied twice over. */
  lemma {:induction false} Shortcut(w: seq<word>, t: nat)
    requires |w| == 80 && 32 <= t < 80
    requires Expanded(w, t) && Expanded(w, t - 3) && Expanded(w, t - 8)
    requires Expanded(w, t - 14) && Expanded(w, t - 16)
    ensures w[t] == Rotl32(Xor4(w[t - 6], w[t - 16], w[t - 28], w[t - 32]), 2)
  {
    Flat(w[t - 3], w[t - 8], w[t - 14], w[t - 16]);
    Flat(w[t - 6], w[t - 11], w[t - 17], w[t - 19]);
    Flat(w[t - 11], w[t - 16], w[t - 22], w[t - 24]);
    Flat(w[t - 17], w[t - 22], w[t - 28], w[t - 30]);
    Flat(w[t - 19], w[t - 24], w[t - 30], w[t - 32]);
    Flat(w[t - 6], w[t - 16], w[t - 28], w[t - 32]);
    TwoLevels(w[t - 6], w[t - 11], w[t - 17], w[t - 19], w[t - 16],
              w[t - 22], w[t - 24], w[t - 28], w[t - 30], w[t - 32]);
  }

  /** The textbook schedule satisfies the shortcut recurrence at every word 32..79. */
  lemma {:induction false} ScheduleShortcut(blk: seq<byte>, t: nat)
    requires |blk| == 64 && 32 <= t < 80
    ensures Schedule(blk)[t] == Rotl32(Xor4(Schedule(blk)[t - 6], Schedule(blk)[t - 16],
                                            Schedule(blk)[t - 28], Schedule(blk)[t - 32]), 2)
  {
    var w := Schedule(blk);
    ScheduleWords(blk);
    assert Expanded(w, t) && Expanded(w, t - 3) && Expanded(w, t - 8);
    assert Expanded(w, t - 14) && Expanded(w, t - 16);
    Shortcut(w, t);
  }

  // ---- Rounds and compression --------------------------------------------

  /** The working variables a..e. */
  datatype Vars = Vars(a: word, b: word, c: word, d: word, e: word)

  /** Addition modulo 2^32 (the wrap-around of uint32_t). */
  function Add(x: word, y: word): word
  {
    x + y
  }

  /** The temporary word T of a round, additions modulo 2^32. */
  function T(a: word, f: word, e: word, wt: word, k: word): word
  {
    Add(Add(Add(Add(Rotl32(a, 5), f), e), wt), k)
  }

  /** One round (FIPS 180-4 section 6.1.2 step 3). */
  function Step(v: Vars, t: nat, wt: word): Vars
    requires t < 80
  {
    Vars(T(v.a, F(t, v.b, v.c, v.d), v.e, wt, KAt(t)), v.a, Rotl32(v.b, 30), v.c, v.d)
  }

  /** The working variables after rounds 0..n-1. */
  function Rounds(v: Vars, w: seq<word>, n: nat): Vars
    requires n <= |w| && n <= 80
  {
    if n == 0 then v else Step(Rounds(v, w, n - 1), n - 1, w[n - 1])
  }

  /** The compression function: the new chaining words for a 64-byte block. */
  function Compress(h: seq<word>, blk: seq<byte>): (r: seq<word>)
    requires |h| == 5 && |blk| == 64
    ensures |r| == 5
  {
    var v := Rounds(Vars(h[0], h[1], h[2], h[3], h[4]), Schedule(blk), 80);
    [Add(h[0], v.a), Add(h[1], v.b), Add(h[2], v.c), Add(h[3], v.d), Add(h[4], v.e)]
  }

  /** The schedule loops of sha1hashblk: a fresh 80-word array holding W_0..W_79. */
  method ExpandSchedule(blk: seq<byte>) returns (w: array<word>)
    requires |blk| == 64
    ensures fresh(w) && w[..] == Schedule(blk)
  {
    ghost var s := Schedule(blk);
    ScheduleWords(blk);
    w := new word[80];
    LoadWords(w, blk, s);
    ExtendRotl1(w, s);
    ExtendRotl2(w, blk, s);
    assert w[..] == s;
  }

  /** The first schedule loop: W_0..W_15 are the block's words, big-endian. */
  method LoadWords(w: array<word>, blk: seq<byte>, ghost s: seq<word>)
    requires w.Length == 80 && |blk| == 64 && |s| == 80 && s[..16] == MessageWords(blk)
    modifies w
    ensures forall j :: 0 <= j < 16 ==> w[j] == s[j]
  {
    for i := 0 to 16
      invariant forall j :: 0 <= j < i ==> w[j] == s[j]
    {
      w[i] := BeWord(blk[4 * i .. 4 * i + 4]);
      assert s[i] == s[..16][i];
    }
  }

  /** The second schedule loop: W_16..W_31 by the textbook recurrence. */
  method ExtendRotl1(w: array<word>, ghost s: seq<word>)
    requires w.Length == 80 && |s| == 80 && forall t :: 16 <= t < 80 ==> Expanded(s, t)
    requires forall j :: 0 <= j < 16 ==> w[j] == s[j]
    modifies w
    ensures forall j :: 0 <= j < 32 ==> w[j] == s[j]
  {
    for i := 16 to 32
      invariant forall j :: 0 <= j < i ==> w[j] == s[j]
    {
      w[i] := Rotl32(Xor4(w[i - 3], w[i - 8], w[i - 14], w[i - 16]), 1);
      assert Expanded(s, i);
    }
  }

  /** The third schedule loop: W_32..W_79 by the shortcut recurrence. */
  method ExtendRotl2(w: array<word>, blk: seq<byte>, ghost s: seq<word>)
    requires w.Length == 80 && |blk| == 64 && s == Schedule(blk)
    requires forall j :: 0 <= j < 32 ==> w[j] == s[j]
    modifies w
    ensures forall j :: 0 <= j < 80 ==> w[j] == s[j]
  {
    for i := 32 to 80
      invariant forall j :: 0 <= j < i ==> w[j] == s[j]
    {
      w[i] := Rotl32(Xor4(w[i - 6], w[i - 16], w[i - 28], w[i - 32]), 2);
      ScheduleShortcut(blk, i);
    }
  }

  /**
   * sha1hashblk: compresses one block into the chaining words `dgst`,
   * which is all of the hash state it changes.
   */
  method HashBlock(dgst: array<word>, blk: seq<byte>)
    requires dgst.Length == 5 && |blk| == 64
    modifies dgst
    ensures dgst[..] == Compress(old(dgst[..]), blk)
  {
    var w := ExpandSchedule(blk);
    var a, b, c, d, e := RunRounds(w, Schedule(blk), dgst[0], dgst[1], dgst[2], dgst[3], dgst[4]);
    AddVars(dgst, a, b, c, d, e);
  }

  /** The final additions of sha1hashblk: each chaining word gains its working variable. */
  method AddVars(dgst: array<word>, a: word, b: word, c: word, d: word, e: word)
    requires dgst.Length == 5
    modifies dgst
    ensures dgst[..] == [Add(old(dgst[0]), a), Add(old(dgst[1]), b), Add(old(dgst[2]), c),
                         Add(old(dgst[3]), d), Add(old(dgst[4]), e)]
  {
    dgst[0] := Add(dgst[0], a);
    dgst[1] := Add(dgst[1], b);
    dgst[2] := Add(dgst[2], c);
    dgst[3] := Add(dgst[3], d);
    dgst[4] := Add(dgst[4], e);
  }

  /** The round loop of sha1hashblk, on the working variables a..e. */
  method RunRounds(w: array<word>, ghost s: seq<word>, a0: word, b0: word, c0: word, d0: word, e0: word)
      returns (a: word, b: word, c: word, d: word, e: word)
    requires w[..] == s && |s| == 80
    ensures Vars(a, b, c, d, e) == Rounds(Vars(a0, b0, c0, d0, e0), s, 80)
  {
    ghost var v0 := Vars(a0, b0, c0, d0, e0);
    a, b, c, d, e := a0, b0, c0, d0, e0;
    for i := 0 to 80
      invariant Vars(a, b, c, d, e) == Rounds(v0, s, i)
    {
      RangeCh(i, b, c, d);
      RangeParity(i, b, c, d);
      RangeMaj(i, b, c, d);
      var f, k;
      if i < 20 {
        f := (b & c) | (!b & d);
        k := K[0];
      } else if i < 40 {
        f := b ^ c ^ d;
        k := K[1];
      } else if i < 60 {
        f := (b & c) | (b & d) | (c & d);
        k := K[2];
      } else {
        f := b ^ c ^ d;
        k := K[3];
      }
      assert w[i] == s[i];
      var tmp := T(a, f, e, w[i], k);
      e := d;
      d := c;
      c := Rotl32(b, 30);
      b := a;
      a := tmp;
    }
  }
}
