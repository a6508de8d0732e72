// The arithmetic of a TOTP code (RFC 6238 section 4.2 over RFC 4226
// section 5.3) as the process routine computes it: strip the Base32
// padding, decode the key, MAC the big-endian time-step counter, truncate
// dynamically and reduce modulo a power of ten.

module Totp {
  import opened Endian
  import opened Seqs
  import opened Base32
  import opened Sha1
  import opened Hmac

  // ---------------------------------------------------------------- padding

  /** The length of `s` once every trailing '=' is removed. */
  function Stripped(s: seq<byte>): (n: nat)
    ensures n <= |s|
    ensures forall k :: n <= k < |s| ==> s[k] == PadChar
    ensures n > 0 ==> s[n - 1] != PadChar
  {
    |s| - TrailingPad(s)
  }

  /** The stripped length is zero exactly when the input is nothing but '='. */
  lemma StrippedEmpty(s: seq<byte>)
    ensures Stripped(s) == 0 <==> forall k :: 0 <= k < |s| ==> s[k] == PadChar
  {
    if Stripped(s) != 0 {
      assert s[Stripped(s) - 1] != PadChar;
    }
  }

  /** The padding loop of process: `n` steps back over every trailing '='. */
  method StripPadding(s: seq<byte>) returns (n: nat)
    ensures n == Stripped(s)
  {
    n := |s|;
    while n > 0 && s[n - 1] == PadChar
      invariant Stripped(s) <= n <= |s|
      invariant forall k :: n <= k < |s| ==> s[k] == PadChar
    {
      n := n - 1;
    }
  }

  // ---------------------------------------------------------------- key size

  /** keysz: the number of whole bytes that `n` Base32 characters carry. */
  function KeySize(n: nat): (k: nat)
    ensures 8 * k <= 5 * n < 8 * k + 8
    ensures n % 8 == 0 ==> k == n / 8 * 5
  {
    n * 5 / 8
  }

  // ---------------------------------------------------------------- counter

  /** 256^8 is 2^64: eight bytes hold every uint64_t. */
  lemma Pow256Eight()
    ensures Pow256(8) == U64
  {
  }

  /** The HMAC message: the time step `epoch / period` as 8 big-endian bytes. */
  function Counter(epoch: nat, period: nat): (c: seq<byte>)
    requires period > 0 && epoch < U64
    ensures |c| == 8 && BeValue(c) == epoch / period
  {
    Pow256Eight();
    BeBytesValue(epoch / period, 8);
    BeBytes(epoch / period, 8)
  }

  // ---------------------------------------------------------------- truncation

  /** The offset of dynamic truncation: the low nibble of the last digest byte. */
  function Offset(dgst: seq<byte>): (off: nat)
    requires |dgst| == DigestSize
    ensures off <= 15 && off + 4 <= |dgst| - 1
  {
    (dgst[19] & 0x0F) as nat
  }

  /**
   * binc: the four bytes at the offset, the first with its top bit cleared,
   * read as a big-endian word (the shifts and ORs of the C expression).
   */
  function Truncate(dgst: seq<byte>): (binc: word)
    requires |dgst| == DigestSize
    ensures binc < 0x8000_0000
    ensures var off := Offset(dgst);
      WordBytes(binc) == [dgst[off] & 0x7F, dgst[off + 1], dgst[off + 2], dgst[off + 3]]
  {
    var off := Offset(dgst);
    var b := [dgst[off] & 0x7F, dgst[off + 1], dgst[off + 2], dgst[off + 3]];
    BeWordBytes(b);
    TopClear(b[0], b[1], b[2], b[3]);
    BeWord(b)
  }

  /** A word whose first byte is below 0x80 is below 2^31. */
  lemma TopClear(b0: byte, b1: byte, b2: byte, b3: byte)
    requires b0 < 0x80
    ensures BeWord([b0, b1, b2, b3]) < 0x8000_0000
  {
  }

  // ---------------------------------------------------------------- pow32 and the modulus

  /** `x` to the power `y`, exactly. */
  function Pow(x: nat, y: nat): (p: nat)
    ensures x > 0 ==> p > 0
  {
    if y == 0 then 1 else x * Pow(x, y - 1)
  }

  /**
   * pow32: `x` multiplied into itself `y - 1` times in a uint32_t, so x^y
   * modulo 2^32.  The exponent is the positive int `digits`, so it is never
   * narrowed on the way in.
   */
  method Pow32(x: nat, y: nat) returns (p: nat)
    requires x < U32
    ensures p < U32
    ensures p == Pow(x, y) % U32
  {
    var n := x;
    if y == 0 {
      return 1;
    }
    p := x;
    var k: nat := y - 1;
    while k != 0
      invariant k < y && p < U32 && p == Pow(n, y - k) % U32
    {
      MulMod(Pow(n, y - k), n, U32);
      assert Pow(n, y - (k - 1)) == n * Pow(n, y - k);
      p := p * n % U32;
      k := k - 1;
    }
  }

  /** Reducing before a multiplication does not change the residue. */
  lemma MulMod(a: nat, b: nat, m: nat)
    requires m > 0
    ensures (a % m) * b % m == b * a % m
  {
    var q, r := a / m, a % m;
    var t, u := (r * b) / m, (r * b) % m;
    assert b * a == (q * b + t) * m + u;
    ModUnique(b * a, m, q * b + t, u);
  }

  /** The remainder is the unique `r` with `a == q * m + r` and `0 <= r < m`. */
  lemma ModUnique(a: int, m: int, q: int, r: int)
    requires m > 0 && 0 <= r < m && a == q * m + r
    ensures a % m == r
  {
    var q', r' := a / m, a % m;
    assert a == q' * m + r';
    if q' > q {
      var d := q' - q;
      assert q' * m == q * m + d * m;
      MulAtLeast(d, m);
      assert false;
    } else if q' < q {
      var d := q - q';
      assert q * m == q' * m + d * m;
      MulAtLeast(d, m);
      assert false;
    }
  }

  lemma MulAtLeast(d: int, m: int)
    requires d >= 1 && m > 0
    ensures d * m >= m
  {
  }

  /** Powers grow with the exponent. */
  lemma {:induction false} PowMonotone(x: nat, a: nat, b: nat)
    requires x > 0 && a <= b
    ensures Pow(x, a) <= Pow(x, b)
  {
    if a < b {
      PowMonotone(x, a, b - 1);
    }
  }

  /** Up to nine digits the power of ten fits in a uint32_t, so pow32 is exact. */
  lemma Pow32Exact(d: nat)
    requires d <= 9
    ensures Pow(10, d) < U32 && Pow(10, d) % U32 == Pow(10, d)
  {
    PowMonotone(10, d, 9);
    assert Pow(10, 9) == 1_000_000_000;
  }

  /** The code of RFC 4226: `binc` reduced modulo 10^digits. */
  function Code(binc: nat, digits: nat): (code: nat)
    ensures code < Pow(10, digits)
    ensures binc < Pow(10, digits) ==> code == binc
  {
    if binc < Pow(10, digits) then ModUnique(binc, Pow(10, digits), 0, binc); binc % Pow(10, digits)
    else binc % Pow(10, digits)
  }

  /** A code of at most nine digits is below 10^9 and so fits the printf width. */
  lemma CodeBound(binc: nat, digits: nat)
    requires 1 <= digits <= 9
    ensures Code(binc, digits) < 1_000_000_000
  {
    PowMonotone(10, digits, 9);
    assert Pow(10, 9) == 1_000_000_000;
  }

  /**
   * The modulus as written, `binc % pow32(10, digits)`: the divisor is the
   * power of ten modulo 2^32, and a zero divisor is a division by zero.
   */
  function CodeAsWritten(binc: nat, digits: nat): (code: Option<nat>)
    ensures code.Some? <==> Pow(10, digits) % U32 != 0
    ensures code.Some? ==> code.value < Pow(10, digits) % U32
  {
    var m := Pow(10, digits) % U32;
    if m == 0 then None else Some(binc % m)
  }

  /** Up to nine digits the modulus as written is the code. */
  lemma CodeAsWrittenAgrees(binc: nat, digits: nat)
    requires digits <= 9
    ensures CodeAsWritten(binc, digits) == Some(Code(binc, digits))
  {
    Pow32Exact(digits);
  }

  /**
   * From ten digits on 10^digits exceeds every truncated value, so the
   * modulus as written is the code exactly when binc is below pow32's result.
   */
  lemma CodeAsWrittenDiffers(binc: nat, digits: nat)
    requires digits >= 10 && binc < 0x8000_0000 && Pow(10, digits) % U32 != 0
    ensures CodeAsWritten(binc, digits) == Some(Code(binc, digits)) <==> binc < Pow(10, digits) % U32
  {
    var m := Pow(10, digits) % U32;
    PowMonotone(10, 10, digits);
    assert Pow(10, 10) == 10_000_000_000;
    assert Code(binc, digits) == binc;
    if binc < m {
      ModUnique(binc, m, 0, binc);
    }
  }

  /** With ten digits pow32 wraps to 1410065408, and a truncated value above it gives a wrong code. */
  lemma CodeAsWrittenWrong()
    ensures Pow(10, 10) % U32 == 1_410_065_408
    ensures CodeAsWritten(1_500_000_000, 10) == Some(89_934_592)
    ensures Code(1_500_000_000, 10) == 1_500_000_000
  {
    assert Pow(10, 10) == 10_000_000_000;
  }

  /** From 32 digits on, 10^digits is a multiple of 2^32: pow32 returns 0 and the modulus divides by zero. */
  lemma CodeAsWrittenDividesByZero(binc: nat, digits: nat)
    requires digits >= 32
    ensures CodeAsWritten(binc, digits) == None
  {
    PowAdd(10, 8, 8);
    assert Pow(10, 8) == 100_000_000;
    PowAdd(10, 16, 16);
    PowAdd(10, 32, digits - 32);
    var t := Pow(10, digits - 32);
    assert Pow(10, 32) == 23_283_064_365_386_962_890_625 * U32;
    var c := 23_283_064_365_386_962_890_625 * t;
    assert Pow(10, digits) == Pow(10, 32) * t;
    assert Pow(10, digits) == c * U32;
    ModUnique(Pow(10, digits), U32, c, 0);
  }

  /** Exponents add under multiplication. */
  lemma {:induction false} PowAdd(x: nat, a: nat, b: nat)
    ensures Pow(x, a + b) == Pow(x, a) * Pow(x, b)
  {
    if b > 0 {
      PowAdd(x, a, b - 1);
      var p, q := Pow(x, a), Pow(x, b - 1);
      assert Pow(x, a + b) == x * (p * q);
      assert x * (p * q) == p * (x * q);
    }
  }

  /** The C character predicate for decimal digits. */
  function IsDigit(ch: byte): (d: bool)
    ensures d <==> ch in DecimalDigits
  {
    ch >= 0x30 && ch <= 0x39
  }

  /** The characters '0' to '9'. */
  const DecimalDigits: seq<byte> := [0x30, 0x31, 0x32, 0x33, 0x34, 0x35, 0x36, 0x37, 0x38, 0x39]

  // ---------------------------------------------------------------- process

  datatype Option<T> = None | Some(value: T)

  /**
   * What process prints, or the error it exits with.  DivideByZero is
   * `binc % 0`, undefined behaviour in C that traps on common targets.
   */
  datatype Outcome = Printed(code: nat) | EmptyInput | InvalidBase32 | HashOverflow | DivideByZero

  /** The TOTP value of the secret `s` at time `epoch`. */
  function Totp(s: seq<byte>, epoch: nat, period: nat, digits: nat): (r: Outcome)
    requires period > 0 && epoch < U64 && Stripped(s) % 8 == 0
    ensures r.Printed? ==> r.code < Pow(10, digits)
    ensures r == EmptyInput <==> forall k :: 0 <= k < |s| ==> s[k] == PadChar
  {
    StrippedEmpty(s);
    var n := Stripped(s);
    if n == 0 then EmptyInput
    else if !Accepted(s[..n]) then InvalidBase32
    else
      var r := Sign(Decode(s[..n]), Counter(epoch, period), digits);
      ModAtMost(Pow(10, digits), U32);
      r
  }

  lemma ModAtMost(a: nat, m: nat)
    requires m > 0
    ensures a % m <= a
  {
  }

  /**
   * Once the padding is stripped the decoder sees no '=' at the end, so a
   * non-empty input is rejected exactly when one of its characters is
   * outside the alphabet.
   */
  lemma TotpInvalid(s: seq<byte>, epoch: nat, period: nat, digits: nat)
    requires period > 0 && epoch < U64 && Stripped(s) % 8 == 0 && Stripped(s) > 0
    ensures Totp(s, epoch, period, digits) == InvalidBase32 <==>
      exists k :: 0 <= k < Stripped(s) && Ctov[s[k]] == NoValue
  {
    StrippedAccepted(s);
  }

  /** The stripped input ends in a character other than '=', so only its alphabet decides. */
  lemma StrippedAccepted(s: seq<byte>)
    requires Stripped(s) > 0
    ensures Accepted(s[..Stripped(s)]) <==> forall i :: 0 <= i < Stripped(s) ==> Ctov[s[i]] != NoValue
  {
    var n := Stripped(s);
    var t := s[..n];
    assert |t| == n && t[n - 1] == s[n - 1] != PadChar;
    assert TrailingPad(t) == 0;
    assert Accepted(t) <==> forall i :: 0 <= i < n ==> Ctov[t[i]] != NoValue;
    assert forall i :: 0 <= i < n ==> t[i] == s[i];
  }

  /**
   * The code for a decoded key and a counter as src/main.c:160 computes it,
   * reducing by pow32(10, digits); or the hash overflow, or the zero divisor.
   */
  function Sign(key: seq<byte>, msg: seq<byte>, digits: nat): (r: Outcome)
    ensures r.Printed? || r == HashOverflow || r == DivideByZero
    ensures r == HashOverflow <==> !Fits(key, msg)
    ensures r == DivideByZero <==> Fits(key, msg) && Pow(10, digits) % U32 == 0
    ensures r.Printed? ==> r.code < Pow(10, digits) % U32
  {
    if !Fits(key, msg) then HashOverflow
    else match CodeAsWritten(Truncate(Mac(key, msg)) as nat, digits)
      case None => DivideByZero
      case Some(c) => Printed(c)
  }

  /** Up to nine digits the code printed is the RFC 4226 code, binc mod 10^digits. */
  lemma SignIntended(key: seq<byte>, msg: seq<byte>, digits: nat)
    requires Fits(key, msg) && digits <= 9
    ensures Sign(key, msg, digits) == Printed(Code(Truncate(Mac(key, msg)) as nat, digits))
  {
    CodeAsWrittenAgrees(Truncate(Mac(key, msg)) as nat, digits);
  }

  /** From 32 digits on every key that can be hashed ends in the division by zero. */
  lemma SignDividesByZero(key: seq<byte>, msg: seq<byte>, digits: nat)
    requires Fits(key, msg) && digits >= 32
    ensures Sign(key, msg, digits) == DivideByZero
  {
    CodeAsWrittenDividesByZero(Truncate(Mac(key, msg)) as nat, digits);
  }

  /**
   * process: the code for `s` at `epoch`; the clock reading is a parameter.
   * The key is decoded from the stripped input, which is decoded as whole
   * 8-character groups.
   */
  method Process(s: seq<byte>, epoch: nat, period: nat, digits: nat) returns (r: Outcome)
    requires period > 0 && epoch < U64 && Stripped(s) % 8 == 0
    ensures r == Totp(s, epoch, period, digits)
  {
    var n := StripPadding(s);
    if n == 0 {
      return EmptyInput;
    }
    var ok, key := DecodeKey(s[..n]);
    if !ok {
      return InvalidBase32;
    }
    var msg := Counter(epoch, period);
    r := Authenticate(key, msg, digits);
  }

  /** The key buffer of process: `keysz` bytes filled by the decoder. */
  method DecodeKey(src: seq<byte>) returns (ok: bool, key: seq<byte>)
    requires |src| % 8 == 0 && |src| >= 8
    ensures ok == Accepted(src)
    ensures ok ==> key == Decode(src)
  {
    var keysz := KeySize(|src|);
    var buf := new byte[keysz];
    ok := B32ToA(buf, src);
    key := buf[..];
    if ok {
      assert src[..8 * (|src| / 8)] == src;
      assert key == buf[..5 * (|src| / 8)];
    }
  }

  /** The HMAC of the counter under the key, truncated and reduced modulo pow32(10, digits). */
  method Authenticate(key: seq<byte>, msg: seq<byte>, digits: nat) returns (r: Outcome)
    ensures r == Sign(key, msg, digits)
  {
    var dgst := new byte[DigestSize];
    var ok := HmacSha1(dgst, key, msg);
    if !ok {
      return HashOverflow;
    }
    assert dgst[..] == dgst[..DigestSize];
    var binc := Truncate(dgst[..]);
    var m := Pow32(10, digits);
    if m == 0 {
      return DivideByZero;
    }
    r := Printed(binc as nat % m);
  }
}
