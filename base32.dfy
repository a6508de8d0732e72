// Base32 decoding (RFC 4648 section 6) as b32.c performs it: a 256-entry
// lookup table from bytes to 5-bit values and a decoder that packs every
// group of eight values into five bytes.

module Base32 {
  import opened Endian
  import opened Seqs

  /** The padding character '='. */
  const PadChar: byte := 0x3D

  /** The table entry of a byte outside the alphabet (-1 stored in a uint8_t). */
  const NoValue: byte := 255

  /** ctov: the 5-bit value of every byte, row by row as in the C table. */
  const Ctov: seq<byte> :=
    ([255, 255, 255, 255, 255, 255, 255, 255, 255, 255, 255, 255, 255, 255, 255, 255] +
     [255, 255, 255, 255, 255, 255, 255, 255, 255, 255, 255, 255, 255, 255, 255, 255] +
     [255, 255, 255, 255, 255, 255, 255, 255, 255, 255, 255, 255, 255, 255, 255, 255] +
     [255, 255,  26,  27,  28,  29,  30,  31, 255, 255, 255, 255, 255,   0, 255, 255]) +
    ([255,   0,   1,   2,   3,   4,   5,   6,   7,   8,   9,  10,  11,  12,  13,  14] +
     [ 15,  16,  17,  18,  19,  20,  21,  22,  23,  24,  25, 255, 255, 255, 255, 255] +
     [255, 255, 255, 255, 255, 255, 255, 255, 255, 255, 255, 255, 255, 255, 255, 255] +
     [255, 255, 255, 255, 255, 255, 255, 255, 255, 255, 255, 255, 255, 255, 255, 255]) +
    ([255, 255, 255, 255, 255, 255, 255, 255, 255, 255, 255, 255, 255, 255, 255, 255] +
     [255, 255, 255, 255, 255, 255, 255, 255, 255, 255, 255, 255, 255, 255, 255, 255] +
     [255, 255, 255, 255, 255, 255, 255, 255, 255, 255, 255, 255, 255, 255, 255, 255] +
     [255, 255, 255, 255, 255, 255, 255, 255, 255, 255, 255, 255, 255, 255, 255, 255]) +
    ([255, 255, 255, 255, 255, 255, 255, 255, 255, 255, 255, 255, 255, 255, 255, 255] +
     [255, 255, 255, 255, 255, 255, 255, 255, 255, 255, 255, 255, 255, 255, 255, 255] +
     [255, 255, 255, 255, 255, 255, 255, 255, 255, 255, 255, 255, 255, 255, 255, 255] +
     [255, 255, 255, 255, 255, 255, 255, 255, 255, 255, 255, 255, 255, 255, 255, 255])

  /**
   * The RFC 4648 value of a character: 'A'..'Z' are 0..25 and '2'..'7' are
   * 26..31.  This decoder also gives '=' the value 0; every other byte,
   * lower-case letters included, has no value.
   */
  function Value(c: int): (v: int)
    ensures v == NoValue as int || 0 <= v < 32
  {
    if 0x41 <= c <= 0x5A then c - 0x41
    else if 0x32 <= c <= 0x37 then c - 0x32 + 26
    else if c == PadChar as int then 0
    else NoValue as int
  }

  /** The RFC 4648 Base32 alphabet "ABCDEFGHIJKLMNOPQRSTUVWXYZ234567", value order. */
  const Alphabet: seq<byte> :=
    [0x41, 0x42, 0x43, 0x44, 0x45, 0x46, 0x47, 0x48, 0x49, 0x4A, 0x4B, 0x4C, 0x4D, 0x4E, 0x4F, 0x50] +
    [0x51, 0x52, 0x53, 0x54, 0x55, 0x56, 0x57, 0x58, 0x59, 0x5A, 0x32, 0x33, 0x34, 0x35, 0x36, 0x37]

  /** Every letter of the alphabet has its position as value. */
  lemma AlphabetValue(v: int)
    requires 0 <= v < 32
    ensures Value(Alphabet[v] as int) == v
  {
    if v < 16 {
      AlphabetLow(v);
    } else {
      AlphabetHigh(v);
    }
  }

  lemma AlphabetLow(v: int)
    requires 0 <= v < 16
    ensures Value(Alphabet[v] as int) == v
  {
  }

  lemma AlphabetHigh(v: int)
    requires 16 <= v < 32
    ensures Value(Alphabet[v] as int) == v
  {
  }

  /** Every byte with a value, other than '=', is the alphabet letter at that value. */
  lemma ValueAlphabet(c: byte)
    requires Value(c as int) != NoValue as int && c != PadChar
    ensures Alphabet[Value(c as int)] == c
  {
  }

  // The table agrees with Value one row of sixteen entries at a time.

  lemma CtovRow0(c: int)
    requires 0 <= c < 16
    ensures Ctov[c] as int == Value(c)
  {
  }

  lemma CtovRow1(c: int)
    requires 16 <= c < 32
    ensures Ctov[c] as int == Value(c)
  {
  }

  lemma CtovRow2(c: int)
    requires 32 <= c < 48
    ensures Ctov[c] as int == Value(c)
  {
  }

  lemma CtovRow3(c: int)
    requires 48 <= c < 64
    ensures Ctov[c] as int == Value(c)
  {
  }

  lemma CtovRow4(c: int)
    requires 64 <= c < 80
    ensures Ctov[c] as int == Value(c)
  {
  }

  lemma CtovRow5(c: int)
    requires 80 <= c < 96
    ensures Ctov[c] as int == Value(c)
  {
  }

  lemma CtovRow6(c: int)
    requires 96 <= c < 112
    ensures Ctov[c] as int == Value(c)
  {
  }

  lemma CtovRow7(c: int)
    requires 112 <= c < 128
    ensures Ctov[c] as int == Value(c)
  {
  }

  lemma CtovRow8(c: int)
    requires 128 <= c < 144
    ensures Ctov[c] as int == Value(c)
  {
  }

  lemma CtovRow9(c: int)
    requires 144 <= c < 160
    ensures Ctov[c] as int == Value(c)
  {
  }

  lemma CtovRow10(c: int)
    requires 160 <= c < 176
    ensures Ctov[c] as int == Value(c)
  {
  }

  lemma CtovRow11(c: int)
    requires 176 <= c < 192
    ensures Ctov[c] as int == Value(c)
  {
  }

  lemma CtovRow12(c: int)
    requires 192 <= c < 208
    ensures Ctov[c] as int == Value(c)
  {
  }

  lemma CtovRow13(c: int)
    requires 208 <= c < 224
    ensures Ctov[c] as int == Value(c)
  {
  }

  lemma CtovRow14(c: int)
    requires 224 <= c < 240
    ensures Ctov[c] as int == Value(c)
  {
  }

  lemma CtovRow15(c: int)
    requires 240 <= c < 256
    ensures Ctov[c] as int == Value(c)
  {
  }

  /** The C table is the RFC 4648 alphabet: ctov[c] == Value(c) for every byte. */
  lemma CtovValue(c: int)
    requires 0 <= c < 256
    ensures Ctov[c] as int == Value(c)
  {
    if c < 16 {
      CtovRow0(c);
    } else if c < 32 {
      CtovRow1(c);
    } else if c < 48 {
      CtovRow2(c);
    } else if c < 64 {
      CtovRow3(c);
    } else if c < 80 {
      CtovRow4(c);
    } else if c < 96 {
      CtovRow5(c);
    } else if c < 112 {
      CtovRow6(c);
    } else if c < 128 {
      CtovRow7(c);
    } else if c < 144 {
      CtovRow8(c);
    } else if c < 160 {
      CtovRow9(c);
    } else if c < 176 {
      CtovRow10(c);
    } else if c < 192 {
      CtovRow11(c);
    } else if c < 208 {
      CtovRow12(c);
    } else if c < 224 {
      CtovRow13(c);
    } else if c < 240 {
      CtovRow14(c);
    } else {
      CtovRow15(c);
    }
  }

  /** The table gives '=' the value 0, so a '=' decodes as five zero bits. */
  lemma PadIsZero()
    ensures Ctov[PadChar] == 0
  {
    CtovValue(PadChar as int);
  }

  /** Table lookup of a byte has no value exactly when the byte is neither a letter of the alphabet nor '='. */
  lemma CtovNoValue(c: byte)
    ensures Ctov[c] == NoValue <==> c !in Alphabet && c != PadChar
  {
    CtovValue(c as int);
    if Ctov[c] == NoValue {
      forall v | 0 <= v < 32
        ensures Alphabet[v] != c
      {
        AlphabetValue(v);
      }
    } else if c != PadChar {
      ValueAlphabet(c);
    }
  }

  // ---- Groups: eight 5-bit values and the five bytes they make -----------

  /** The five bytes b32toa stores for one group of eight values (b32.c:49-53). */
  function Pack(v: seq<byte>): (b: seq<byte>)
    requires |v| == 8
    ensures |b| == 5
  {
    [(v[0] << 3) | (v[1] >> 2),
     (v[1] << 6) | (v[2] << 1) | (v[3] >> 4),
     (v[3] << 4) | (v[4] >> 1),
     (v[4] << 7) | (v[5] << 2) | (v[6] >> 3),
     (v[6] << 5) | v[7]]
  }

  /** Eight 5-bit values side by side, the first in the most significant place. */
  function Group40(v: seq<byte>): bv40
    requires |v| == 8
  {
    ((v[0] as bv40) << 35) | ((v[1] as bv40) << 30) | ((v[2] as bv40) << 25) | ((v[3] as bv40) << 20) |
    ((v[4] as bv40) << 15) | ((v[5] as bv40) << 10) | ((v[6] as bv40) << 5) | (v[7] as bv40)
  }

  /** The five stores write the 40-bit concatenation of the eight values, most significant byte first. */
  lemma PackIsConcatenation(v: seq<byte>)
    requires |v| == 8 && forall i :: 0 <= i < 8 ==> v[i] < 32
    ensures var x := Group40(v);
      Pack(v) == [((x >> 32) & 0xFF) as byte, ((x >> 24) & 0xFF) as byte,
                  ((x >> 16) & 0xFF) as byte, ((x >> 8) & 0xFF) as byte, (x & 0xFF) as byte]
  {
  }

  /** The eight 5-bit values of five bytes: the encoding direction of a group. */
  function Unpack(b: seq<byte>): (v: seq<byte>)
    requires |b| == 5
    ensures |v| == 8 && forall i :: 0 <= i < 8 ==> v[i] < 32
  {
    [b[0] >> 3,
     ((b[0] & 7) << 2) | (b[1] >> 6),
     (b[1] >> 1) & 31,
     ((b[1] & 1) << 4) | (b[2] >> 4),
     ((b[2] & 15) << 1) | (b[3] >> 7),
     (b[3] >> 2) & 31,
     ((b[3] & 3) << 3) | (b[4] >> 5),
     b[4] & 31]
  }

  /** Every five bytes are the packing of some group: unpacking gives values below 32 that pack back. */
  lemma PackUnpack(b: seq<byte>)
    requires |b| == 5
    ensures Pack(Unpack(b)) == b
  {
    var b0, b1, b2, b3, b4 := b[0], b[1], b[2], b[3], b[4];
    assert b == [b0, b1, b2, b3, b4];
    UnpackBytes(b0, b1, b2, b3, b4);
  }

  lemma UnpackBytes(b0: byte, b1: byte, b2: byte, b3: byte, b4: byte)
    ensures Pack(Unpack([b0, b1, b2, b3, b4])) == [b0, b1, b2, b3, b4]
  {
  }

  /** A group of values below 32 is recovered from its five bytes: packing loses nothing. */
  lemma UnpackPack(v: seq<byte>)
    requires |v| == 8 && forall i :: 0 <= i < 8 ==> v[i] < 32
    ensures Unpack(Pack(v)) == v
  {
    var v0, v1, v2, v3, v4, v5, v6, v7 := v[0], v[1], v[2], v[3], v[4], v[5], v[6], v[7];
    assert v0 < 32 && v1 < 32 && v2 < 32 && v3 < 32 && v4 < 32 && v5 < 32 && v6 < 32 && v7 < 32;
    assert v == [v0, v1, v2, v3, v4, v5, v6, v7];
    PackValues(v0, v1, v2, v3, v4, v5, v6, v7);
  }

  lemma PackValues(v0: byte, v1: byte, v2: byte, v3: byte, v4: byte, v5: byte, v6: byte, v7: byte)
    requires v0 < 32 && v1 < 32 && v2 < 32 && v3 < 32 && v4 < 32 && v5 < 32 && v6 < 32 && v7 < 32
    ensures Unpack(Pack([v0, v1, v2, v3, v4, v5, v6, v7])) == [v0, v1, v2, v3, v4, v5, v6, v7]
  {
  }

  // ---- Whole inputs ------------------------------------------------------

  /** The table values of the bytes of `g`. */
  function Values(g: seq<byte>): seq<byte>
  {
    seq(|g|, i requires 0 <= i < |g| => Ctov[g[i]])
  }

  /**
   * The bytes b32toa writes for `s`: each complete group of eight characters,
   * looked up in the table, packed into five bytes, in order.
   */
  function Decode(s: seq<byte>): (d: seq<byte>)
    ensures |d| == |s| / 8 * 5
    decreases |s|
  {
    if |s| < 8 then []
    else
      var rest := Decode(s[8..]);
      assert |s[8..]| / 8 == |s| / 8 - 1;
      Pack(Values(s[..8])) + rest
  }

  /** Decoding one more group appends that group's five bytes. */
  lemma {:induction false} DecodeAppend(a: seq<byte>, b: seq<byte>)
    requires |a| % 8 == 0 && |b| == 8
    ensures Decode(a + b) == Decode(a) + Pack(Values(b))
    decreases |a|
  {
    if |a| == 0 {
      assert a + b == b && b[..8] == b;
      assert Decode(b) == Pack(Values(b)) + Decode(b[8..]);
      assert Decode(a) + Pack(Values(b)) == Pack(Values(b));
    } else {
      var x := Pack(Values(a[..8]));
      assert (a + b)[..8] == a[..8];
      assert (a + b)[8..] == a[8..] + b;
      assert Decode(a + b) == x + Decode(a[8..] + b);
      DecodeAppend(a[8..], b);
      assert Decode(a) == x + Decode(a[8..]);
      Associative(x, Decode(a[8..]), Pack(Values(b)));
    }
  }

  /** Group k of the input (characters 8k..8k+7) gives exactly output bytes 5k..5k+4. */
  lemma {:induction false} DecodeGroupAt(s: seq<byte>, k: nat)
    requires |s| % 8 == 0 && k < |s| / 8
    ensures Decode(s)[5 * k..5 * k + 5] == Pack(Values(s[8 * k..8 * k + 8]))
    decreases k
  {
    if k == 0 {
      assert Decode(s) == Pack(Values(s[..8])) + Decode(s[8..]);
    } else {
      var x, r := Pack(Values(s[..8])), Decode(s[8..]);
      assert Decode(s) == x + r;
      DecodeGroupAt(s[8..], k - 1);
      SliceOfSlice(s, 8, 8 * (k - 1), 8 * (k - 1) + 8);
      SliceRight(x, r, 5 * (k - 1), 5 * (k - 1) + 5);
    }
  }

  /** Decoding the first g groups of an input gives the first 5g bytes of its decoding. */
  lemma {:induction false} DecodePrefix(s: seq<byte>, g: nat)
    requires |s| % 8 == 0 && g <= |s| / 8
    ensures Decode(s[..8 * g]) == Decode(s)[..5 * g]
    decreases g
  {
    if g == 0 {
      assert s[..0] == [];
    } else {
      var x, r := Pack(Values(s[..8])), Decode(s[8..]);
      assert Decode(s) == x + r;
      var t := s[..8 * g];
      assert t[..8] == s[..8];
      assert t[8..] == s[8..][..8 * (g - 1)];
      assert Decode(t) == x + Decode(t[8..]);
      DecodePrefix(s[8..], g - 1);
      PrefixRight(x, r, 5 * (g - 1));
    }
  }

  // ---- Encoding: the inverse direction ----------------------------------

  /** The alphabet letters of a group of 5-bit values. */
  function Chars(v: seq<byte>): seq<byte>
    requires forall i :: 0 <= i < |v| ==> v[i] < 32
  {
    seq(|v|, i requires 0 <= i < |v| => Alphabet[v[i]])
  }

  /** RFC 4648 Base32 encoding of whole five-byte groups, without padding. */
  function Encode(b: seq<byte>): (s: seq<byte>)
    requires |b| % 5 == 0
    ensures |s| == |b| / 5 * 8
    decreases |b|
  {
    if |b| == 0 then []
    else
      var rest := Encode(b[5..]);
      assert |b[5..]| / 5 == |b| / 5 - 1;
      Chars(Unpack(b[..5])) + rest
  }

  /** Looking up the letters of a group gives the group back. */
  lemma ValuesChars(v: seq<byte>)
    requires forall i :: 0 <= i < |v| ==> v[i] < 32
    ensures Values(Chars(v)) == v
  {
    forall i | 0 <= i < |v|
      ensures Values(Chars(v))[i] == v[i]
    {
      AlphabetValue(v[i] as int);
      CtovValue(Alphabet[v[i]] as int);
    }
  }

  /** Spelling out the values of a group of letters gives the letters back. */
  lemma CharsValues(g: seq<byte>)
    requires forall i :: 0 <= i < |g| ==> g[i] in Alphabet
    ensures forall i :: 0 <= i < |g| ==> Values(g)[i] < 32
    ensures Chars(Values(g)) == g
  {
    forall i | 0 <= i < |g|
      ensures Values(g)[i] < 32 && Alphabet[Values(g)[i]] == g[i]
    {
      CtovNoValue(g[i]);
      CtovValue(g[i] as int);
      ValueAlphabet(g[i]);
    }
  }

  /** b32toa inverts encoding: decoding the encoding of any whole number of groups gives the bytes back. */
  lemma {:induction false} DecodeEncode(b: seq<byte>)
    requires |b| % 5 == 0
    ensures Decode(Encode(b)) == b
    decreases |b|
  {
    if |b| > 0 {
      var u := Unpack(b[..5]);
      var e, r := Encode(b), Encode(b[5..]);
      assert e == Chars(u) + r;
      assert e[..8] == Chars(u) && e[8..] == r;
      assert Decode(e) == Pack(Values(Chars(u))) + Decode(r);
      ValuesChars(u);
      PackUnpack(b[..5]);
      DecodeEncode(b[5..]);
      assert b == b[..5] + b[5..];
    }
  }

  /** Every character of an encoding is a letter of the alphabet. */
  lemma {:induction false} EncodeAlphabet(b: seq<byte>)
    requires |b| % 5 == 0
    ensures forall i :: 0 <= i < |Encode(b)| ==> Encode(b)[i] in Alphabet
    decreases |b|
  {
    if |b| > 0 {
      var u := Unpack(b[..5]);
      EncodeAlphabet(b[5..]);
      assert forall i :: 0 <= i < 8 ==> Chars(u)[i] in Alphabet;
    }
  }

  /** Encoding inverts b32toa on inputs made of alphabet letters only. */
  lemma {:induction false} EncodeDecode(s: seq<byte>)
    requires |s| % 8 == 0
    requires forall i :: 0 <= i < |s| ==> s[i] in Alphabet
    ensures |Decode(s)| % 5 == 0
    ensures Encode(Decode(s)) == s
    decreases |s|
  {
    FiveGroups(|s| / 8);
    if |s| > 0 {
      var g := s[..8];
      var v := Values(g);
      CharsValues(g);
      var d, r := Decode(s), Decode(s[8..]);
      FiveGroups(|s[8..]| / 8);
      assert d == Pack(v) + r;
      assert d[..5] == Pack(v) && d[5..] == r;
      assert Encode(d) == Chars(Unpack(Pack(v))) + Encode(r);
      UnpackPack(v);
      EncodeDecode(s[8..]);
      assert s == g + s[8..];
    }
  }

  /** Decoding depends on the characters only through their table values. */
  lemma {:induction false} DecodeValues(s: seq<byte>, t: seq<byte>)
    requires |s| == |t| && Values(s) == Values(t)
    ensures Decode(s) == Decode(t)
    decreases |s|
  {
    if |s| >= 8 {
      assert Values(s[..8]) == Values(t[..8]) by {
        forall i | 0 <= i < 8
          ensures Values(s[..8])[i] == Values(t[..8])[i]
        {
          assert Values(s)[i] == Values(t)[i];
        }
      }
      assert Values(s[8..]) == Values(t[8..]) by {
        forall i | 0 <= i < |s| - 8
          ensures Values(s[8..])[i] == Values(t[8..])[i]
        {
          assert Values(s)[8 + i] == Values(t)[8 + i];
        }
      }
      DecodeValues(s[8..], t[8..]);
    }
  }

  /** A '=' decodes, at any position, exactly as the letter 'A' (value 0) does. */
  lemma PadDecodesAsA(s: seq<byte>, k: nat)
    requires k < |s| && s[k] == PadChar
    ensures Decode(s) == Decode(s[k := 0x41])
  {
    PadIsZero();
    CtovValue(0x41);
    var t := s[k := 0x41];
    assert Values(s) == Values(t) by {
      forall i | 0 <= i < |s|
        ensures Values(s)[i] == Values(t)[i]
      {
      }
    }
    DecodeValues(s, t);
  }

  // ---- What b32toa accepts ----------------------------------------------

  /** The number of '=' characters at the end of `s`. */
  function TrailingPad(s: seq<byte>): (n: nat)
    ensures n <= |s|
    ensures forall k :: |s| - n <= k < |s| ==> s[k] == PadChar
    ensures n < |s| ==> s[|s| - 1 - n] != PadChar
  {
    if |s| == 0 || s[|s| - 1] != PadChar then 0
    else
      var t := s[..|s| - 1];
      assert forall k :: 0 <= k < |t| ==> t[k] == s[k];
      1 + TrailingPad(t)
  }

  /** The position of the first byte without a table value, or |s| when there is none. */
  function FirstInvalid(s: seq<byte>): (n: nat)
    ensures n <= |s|
    ensures forall i :: 0 <= i < n ==> Ctov[s[i]] != NoValue
    ensures n < |s| ==> Ctov[s[n]] == NoValue
  {
    if |s| == 0 || Ctov[s[0]] == NoValue then 0 else 1 + FirstInvalid(s[1..])
  }

  /** The inputs b32toa accepts: at most six trailing '=', and every byte in the table. */
  predicate Accepted(s: seq<byte>)
  {
    TrailingPad(s) <= 6 && forall i :: 0 <= i < |s| ==> Ctov[s[i]] != NoValue
  }

  /**
   * The number of groups b32toa has written when it returns: none when the
   * padding is too long, otherwise every group before the first bad byte.
   */
  function Completed(s: seq<byte>): nat
  {
    if TrailingPad(s) > 6 then 0 else FirstInvalid(s) / 8
  }

  /** The encoding of any whole number of groups is accepted. */
  lemma EncodeAccepted(b: seq<byte>)
    requires |b| % 5 == 0
    ensures Accepted(Encode(b))
  {
    var e := Encode(b);
    EncodeAlphabet(b);
    forall i | 0 <= i < |e|
      ensures Ctov[e[i]] != NoValue
    {
      CtovNoValue(e[i]);
    }
    if |e| > 0 {
      PadNotLetter();
      assert e[|e| - 1] in Alphabet;
    }
    assert TrailingPad(e) == 0;
  }

  /** '=' is not a letter of the alphabet. */
  lemma PadNotLetter()
    ensures PadChar !in Alphabet
  {
  }

  // ---- b32toa ------------------------------------------------------------

  /**
   * b32toa: decodes `src` into `dst` group by group and reports whether the
   * input was accepted.  On failure the groups before the failing one have
   * already been written; nothing else in `dst` changes.
   */
  method B32ToA(dst: array<byte>, src: seq<byte>) returns (ok: bool)
    requires |src| % 8 == 0 && |src| >= 8
    requires |src| / 8 * 5 <= dst.Length
    modifies dst
    ensures ok == Accepted(src)
    ensures var g := Completed(src);
      dst[..5 * g] == Decode(src[..8 * g]) && dst[5 * g..] == old(dst[5 * g..])
    ensures ok ==> Completed(src) == |src| / 8
  {
    var pad := CountPad(src);
    if pad > 6 {
      assert Completed(src) == 0;
      assert Decode(src[..0]) == [] == dst[..0];
      return false;
    }
    ok := DecodeGroups(dst, src, pad);
  }

  /** The group loop of b32toa, entered once the padding count is known to be at most six. */
  method DecodeGroups(dst: array<byte>, src: seq<byte>, pad: nat) returns (ok: bool)
    requires |src| % 8 == 0 && |src| / 8 * 5 <= dst.Length
    requires pad == TrailingPad(src) <= 6
    modifies dst
    ensures ok == Accepted(src)
    ensures var g := Completed(src);
      dst[..5 * g] == Decode(src[..8 * g]) && dst[5 * g..] == old(dst[5 * g..])
    ensures ok ==> Completed(src) == |src| / 8
  {
    ghost var d0 := dst[..];
    var vs := new byte[8];
    var i := 0;
    ghost var g, groups := 0, |src| / 8;
    assert |src| == 8 * groups;
    while i < |src|
      invariant i == 8 * g && g <= groups
      invariant forall j :: 0 <= j < i ==> Ctov[src[j]] != NoValue
      invariant dst[..5 * g] == Decode(src[..8 * g]) && dst[5 * g..] == d0[5 * g..]
      decreases |src| - i
    {
      assert g < groups;
      var valid := DecodeGroup(dst, src, i, g, pad, vs, d0);
      if !valid {
        return false;
      }
      i, g := i + 8, g + 1;
    }
    RunsThrough(src);
    assert g == groups == Completed(src);
    assert src[..|src|] == src;
    return true;
  }

  /**
   * One pass of the group loop of b32toa: after g good groups, reads group g
   * and either stores its five bytes or fails with g groups written.
   */
  method DecodeGroup(dst: array<byte>, src: seq<byte>, i: nat, ghost g: nat, pad: nat, vs: array<byte>,
                     ghost d0: seq<byte>) returns (valid: bool)
    requires i == 8 * g && i + 8 <= |src| && 5 * g + 5 <= dst.Length && |d0| == dst.Length
    requires vs.Length == 8 && dst != vs && TrailingPad(src) <= 6
    requires forall j :: 0 <= j < i ==> Ctov[src[j]] != NoValue
    requires dst[..5 * g] == Decode(src[..8 * g]) && dst[5 * g..] == d0[5 * g..]
    modifies dst, vs
    ensures valid ==> forall j :: 0 <= j < i + 8 ==> Ctov[src[j]] != NoValue
    ensures valid ==> dst[..5 * (g + 1)] == Decode(src[..8 * (g + 1)]) && dst[5 * (g + 1)..] == d0[5 * (g + 1)..]
    ensures !valid ==> Completed(src) == g && !Accepted(src) && dst[..] == old(dst[..])
  {
    valid := ReadGroup(src, i, pad, vs);
    if !valid {
      ghost var j :| i <= j < i + 8 && Ctov[src[j]] == NoValue;
      StopsAt(src, g, j);
      return;
    }
    GroupOffset(g);
    ghost var before := dst[..];
    StoreGroup(dst, src, i * 5 / 8, g, vs);
    DropMore(before, d0, 5 * g, 5);
    ghost var o, n := 5 * g + 5, 5 * (g + 1);
    assert o == n && i + 8 == 8 * (g + 1);
  }

  /** One group's stores extend the decoded prefix by that group's five bytes. */
  method StoreGroup(dst: array<byte>, ghost src: seq<byte>, o: nat, ghost g: nat, vs: array<byte>)
    requires o == 5 * g && 8 * g + 8 <= |src| && o + 5 <= dst.Length
    requires vs.Length == 8 && dst != vs && vs[..] == Values(src[8 * g..8 * g + 8])
    requires dst[..o] == Decode(src[..8 * g])
    modifies dst
    ensures dst[..o + 5] == Decode(src[..8 * g + 8]) && dst[o + 5..] == old(dst[o + 5..])
  {
    ghost var i := 8 * g;
    WriteGroup(dst, o, vs);
    Extend(dst[..], o, 5);
    Extend(src, i, 8);
    DecodeAppend(src[..i], src[i..i + 8]);
  }

  /** A bad byte in group g, after g good groups, stops b32toa with g groups written. */
  lemma StopsAt(src: seq<byte>, g: nat, j: nat)
    requires TrailingPad(src) <= 6 && 8 * g <= j < 8 * g + 8 && j < |src| && Ctov[src[j]] == NoValue
    requires forall k :: 0 <= k < 8 * g ==> Ctov[src[k]] != NoValue
    ensures Completed(src) == g && !Accepted(src)
  {
    var n := FirstInvalid(src);
    assert 8 * g <= n <= j;
    GroupOf(g, n);
  }

  /** With short padding and no bad byte, b32toa accepts and writes every group. */
  lemma RunsThrough(src: seq<byte>)
    requires TrailingPad(src) <= 6 && forall k :: 0 <= k < |src| ==> Ctov[src[k]] != NoValue
    ensures Completed(src) == |src| / 8 && Accepted(src)
  {
    assert FirstInvalid(src) == |src|;
  }

  /** The pad loop of b32toa: the trailing '=' count, or 7 once it exceeds six. */
  method CountPad(src: seq<byte>) returns (pad: nat)
    requires |src| >= 8
    ensures pad <= 7 && (pad <= 6 <==> TrailingPad(src) <= 6)
    ensures pad <= 6 ==> pad == TrailingPad(src)
  {
    pad := 0;
    while src[|src| - 1 - pad] == PadChar
      invariant pad <= 6
      invariant forall k :: |src| - pad <= k < |src| ==> src[k] == PadChar
      decreases 7 - pad
    {
      pad := pad + 1;
      if pad > 6 {
        return;
      }
    }
  }

  /**
   * The inner loop of b32toa: looks up the eight characters of the group at
   * `i` into `vs`, and fails at a character without a table value.
   */
  method ReadGroup(src: seq<byte>, i: nat, pad: nat, vs: array<byte>) returns (valid: bool)
    requires i + 8 <= |src| && vs.Length == 8
    modifies vs
    ensures valid <==> forall j :: i <= j < i + 8 ==> Ctov[src[j]] != NoValue
    ensures valid ==> vs[..] == Values(src[i..i + 8])
  {
    for j := 0 to 8
      invariant vs[..j] == Values(src[i..i + j])
      invariant forall k :: i <= k < i + j ==> Ctov[src[k]] != NoValue
    {
      var c := src[i + j];
      var v := Ctov[c];
      vs[j] := v;
      if v == NoValue {
        if c == PadChar && j >= 8 - pad {
          // ctov maps '=' to 0, so a '=' never reaches this branch.
          PadIsZero();
          assert false;
        }
        return false;
      }
      assert vs[..j + 1] == vs[..j] + [v];
    }
    assert vs[..] == vs[..8];
    return true;
  }

  /** The five stores of b32toa for one group, at output offset `o`. */
  method WriteGroup(dst: array<byte>, o: nat, vs: array<byte>)
    requires vs.Length == 8 && o + 5 <= dst.Length && dst != vs
    modifies dst
    ensures dst[..o] == old(dst[..o]) && dst[o..o + 5] == Pack(vs[..]) && dst[o + 5..] == old(dst[o + 5..])
  {
    var b := Pack(vs[..]);
    dst[o + 0] := b[0];
    dst[o + 1] := b[1];
    dst[o + 2] := b[2];
    dst[o + 3] := b[3];
    dst[o + 4] := b[4];
    assert dst[o..o + 5] == b;
  }

  lemma GroupOf(g: nat, n: nat)
    requires 8 * g <= n < 8 * g + 8
    ensures n / 8 == g
  {
  }

  lemma GroupOffset(g: nat)
    ensures 8 * g * 5 / 8 == 5 * g
  {
  }

  lemma FiveGroups(n: nat)
    ensures n * 5 % 5 == 0
  {
  }

}
