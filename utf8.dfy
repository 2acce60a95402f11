/** UTF-8 decoding as the escaper relies on it: the contract of Go's
    `utf8.DecodeRuneInString`, stated by the well-formed byte sequences of
    section 4 of RFC 3629, with an encoder as its independent partner. */
module Utf8 {

  /** One byte of a Go string. */
  type byte = b: int | 0 <= b < 0x100

  /** `utf8.RuneSelf`: bytes below it are single-byte runes. */
  const RuneSelf: int := 0x80
  /** `utf8.RuneError`, U+FFFD REPLACEMENT CHARACTER. */
  const RuneError: int := 0xFFFD
  const MaxRune: int := 0x10FFFF

  /** The pair `(rune, size)` that `utf8.DecodeRuneInString` returns. */
  datatype Decoded = Decoded(rune: int, size: nat)

  /** A Unicode scalar value: a code point that is not a surrogate. */
  predicate IsScalar(cp: int) {
    0 <= cp <= MaxRune && !(0xD800 <= cp <= 0xDFFF)
  }

  predicate IsCont(b: byte) {
    0x80 <= b <= 0xBF
  }

  /** The shortest UTF-8 form of a scalar value (section 3 of RFC 3629). */
  function EncodeRune(cp: int): (r: seq<byte>)
    requires IsScalar(cp)
    ensures 1 <= |r| <= 4
    ensures |r| == 1 <==> cp < RuneSelf
    ensures cp >= RuneSelf ==> forall k :: 0 <= k < |r| ==> r[k] >= RuneSelf
  {
    if cp < 0x80 then [cp]
    else if cp < 0x800 then [0xC0 + cp / 64, 0x80 + cp % 64]
    else if cp < 0x10000 then [0xE0 + cp / 4096, 0x80 + (cp / 64) % 64, 0x80 + cp % 64]
    else [0xF0 + cp / 262144, 0x80 + (cp / 4096) % 64, 0x80 + (cp / 64) % 64, 0x80 + cp % 64]
  }

  /** Lowest and highest second byte accepted after a multi-byte lead byte:
      these exclude overlong forms (E0, F0), surrogates (ED) and code points
      above U+10FFFF (F4). */
  function SecondLo(b0: byte): byte {
    if b0 == 0xE0 then 0xA0 else if b0 == 0xF0 then 0x90 else 0x80
  }

  function SecondHi(b0: byte): byte {
    if b0 == 0xED then 0x9F else if b0 == 0xF4 then 0x8F else 0xBF
  }

  function Invalid(): Decoded {
    Decoded(RuneError, 1)
  }

  /** Decodes the first rune of `s`.  An empty input gives `(RuneError, 0)`;
      any ill-formed or truncated sequence gives `(RuneError, 1)`; a valid
      sequence gives its scalar value and its length (lemma `DecodeValid`). */
  function Decode(s: seq<byte>): (d: Decoded)
    ensures d.size == 0 <==> |s| == 0
    ensures |s| == 0 ==> d.rune == RuneError
    ensures d.size <= |s| && d.size <= 4
    ensures |s| > 0 && s[0] < RuneSelf ==> d == Decoded(s[0], 1)
    ensures |s| > 0 && s[0] >= RuneSelf && d.size == 1 ==> d.rune == RuneError
  {
    if |s| == 0 then Decoded(RuneError, 0)
    else if s[0] < 0x80 then Decoded(s[0], 1)
    else if 0xC2 <= s[0] <= 0xDF then
      if |s| >= 2 && IsCont(s[1]) then
        Decoded((s[0] as int - 0xC0) * 64 + (s[1] as int - 0x80), 2)
      else Invalid()
    else if 0xE0 <= s[0] <= 0xEF then
      if |s| >= 3 && SecondLo(s[0]) <= s[1] <= SecondHi(s[0]) && IsCont(s[2]) then
        Decoded((s[0] as int - 0xE0) * 4096 + (s[1] as int - 0x80) * 64 + (s[2] as int - 0x80), 3)
      else Invalid()
    else if 0xF0 <= s[0] <= 0xF4 then
      if |s| >= 4 && SecondLo(s[0]) <= s[1] <= SecondHi(s[0]) && IsCont(s[2]) && IsCont(s[3]) then
        Decoded((s[0] as int - 0xF0) * 262144 + (s[1] as int - 0x80) * 4096 + (s[2] as int - 0x80) * 64 + (s[3] as int - 0x80), 4)
      else Invalid()
    else Invalid()
  }

  /** Decoding is sound: a multi-byte result is a scalar value beyond ASCII
      whose shortest encoding is exactly the bytes consumed, so no overlong
      form, surrogate or value above U+10FFFF is ever accepted. */
  lemma DecodeValid(s: seq<byte>)
    requires Decode(s).size >= 2
    ensures var d := Decode(s);
      IsScalar(d.rune) && d.rune >= RuneSelf && EncodeRune(d.rune) == s[..d.size]
  {
    var d := Decode(s);
    if d.size == 2 {
      Valid2(s[0], s[1]);
      assert s[..2] == [s[0], s[1]];
    } else if d.size == 3 {
      Valid3(s[0], s[1], s[2]);
      assert s[..3] == [s[0], s[1], s[2]];
    } else {
      Valid4(s[0], s[1], s[2], s[3]);
      assert s[..4] == [s[0], s[1], s[2], s[3]];
    }
  }

  lemma Valid2(b0: byte, b1: byte)
    requires 0xC2 <= b0 <= 0xDF && IsCont(b1)
    ensures var cp := (b0 as int - 0xC0) * 64 + (b1 as int - 0x80);
      IsScalar(cp) && cp >= RuneSelf && EncodeRune(cp) == [b0, b1]
  {
    var cp := (b0 as int - 0xC0) * 64 + (b1 as int - 0x80);
    Split(cp, b0 - 0xC0, b1 - 0x80, 64);
  }

  lemma Valid3(b0: byte, b1: byte, b2: byte)
    requires 0xE0 <= b0 <= 0xEF && SecondLo(b0) <= b1 <= SecondHi(b0) && IsCont(b2)
    ensures var cp := (b0 as int - 0xE0) * 4096 + (b1 as int - 0x80) * 64 + (b2 as int - 0x80);
      IsScalar(cp) && cp >= RuneSelf && EncodeRune(cp) == [b0, b1, b2]
  {
    var a, b, c := b0 as int - 0xE0, b1 as int - 0x80, b2 as int - 0x80;
    var cp := a * 4096 + b * 64 + c;
    Split(cp, a, b * 64 + c, 4096);
    Split(cp, a * 64 + b, c, 64);
    Split(a * 64 + b, a, b, 64);
  }

  lemma Valid4(b0: byte, b1: byte, b2: byte, b3: byte)
    requires 0xF0 <= b0 <= 0xF4 && SecondLo(b0) <= b1 <= SecondHi(b0) && IsCont(b2) && IsCont(b3)
    ensures var cp := (b0 as int - 0xF0) * 262144 + (b1 as int - 0x80) * 4096 + (b2 as int - 0x80) * 64 + (b3 as int - 0x80);
      IsScalar(cp) && cp >= RuneSelf && EncodeRune(cp) == [b0, b1, b2, b3]
  {
    var a, b, c, e := b0 as int - 0xF0, b1 as int - 0x80, b2 as int - 0x80, b3 as int - 0x80;
    var cp := a * 262144 + b * 4096 + c * 64 + e;
    Split(cp, a, b * 4096 + c * 64 + e, 262144);
    Split(cp, a * 64 + b, c * 64 + e, 4096);
    Split(a * 64 + b, a, b, 64);
    Split(cp, a * 4096 + b * 64 + c, e, 64);
    Split(a * 4096 + b * 64 + c, a * 64 + b, c, 64);
  }

  /** The invalid-unit test of escape.go: `c == RuneError && size == 1`. */
  predicate IsErrorUnit(d: Decoded) {
    d.rune == RuneError && d.size == 1
  }

  /** Decoding is complete: whenever the encoding of a scalar value starts
      `s`, the decoder finds exactly that value and length.  Together with the
      lemma `DecodeValid`, a unit is invalid iff no encoding starts `s`. */
  lemma DecodeEncoded(s: seq<byte>, cp: int)
    requires IsScalar(cp) && EncodeRune(cp) <= s
    ensures Decode(s) == Decoded(cp, |EncodeRune(cp)|)
  {
    var e := EncodeRune(cp);
    assert s[..|e|] == e;
    if cp < 0x80 {
    } else if cp < 0x800 {
      assert s[0] == 0xC0 + cp / 64 && s[1] == 0x80 + cp % 64;
    } else if cp < 0x10000 {
      Encoded3(s, cp);
    } else {
      Encoded4(s, cp);
    }
  }

  lemma Encoded3(s: seq<byte>, cp: int)
    requires IsScalar(cp) && 0x800 <= cp < 0x10000 && |s| >= 3
    requires s[0] == 0xE0 + cp / 4096 && s[1] == 0x80 + (cp / 64) % 64 && s[2] == 0x80 + cp % 64
    ensures Decode(s) == Decoded(cp, 3)
  {
    Second3(cp);
    Rebuild3(cp);
  }

  lemma Encoded4(s: seq<byte>, cp: int)
    requires IsScalar(cp) && 0x10000 <= cp && |s| >= 4
    requires s[0] == 0xF0 + cp / 262144 && s[1] == 0x80 + (cp / 4096) % 64
    requires s[2] == 0x80 + (cp / 64) % 64 && s[3] == 0x80 + cp % 64
    ensures Decode(s) == Decoded(cp, 4)
  {
    Second4(cp);
    Rebuild4(cp);
  }

  /** Decoding looks no further than the unit it finds: bytes after a
      valid unit do not change its decoding. */
  lemma DecodeExtend(t: seq<byte>, u: seq<byte>)
    requires |t| > 0 && !IsErrorUnit(Decode(t))
    ensures Decode(t + u) == Decode(t)
  {
    var d := Decode(t);
    if d.size >= 2 {
      DecodeValid(t);
      assert (t + u)[..d.size] == t[..d.size];
      DecodeEncoded(t + u, d.rune);
    } else {
      assert (t + u)[0] == t[0];
    }
  }

  /** `x == q * n + r` with `0 <= r < n` fixes the quotient and remainder;
      used with the literal divisors 64, 4096 and 262144 only. */
  lemma Split(x: int, q: int, r: int, n: int)
    requires n == 64 || n == 4096 || n == 262144
    requires 0 <= r < n && x == q * n + r
    ensures x / n == q && x % n == r
  {
    if n == 64 {
      assert x == q * 64 + r;
    } else if n == 4096 {
      assert x == q * 4096 + r;
    } else {
      assert x == q * 262144 + r;
    }
  }

  lemma Rebuild3(cp: int)
    requires 0 <= cp < 0x10000
    ensures cp == (cp / 4096) * 4096 + ((cp / 64) % 64) * 64 + cp % 64
  {
    var q1 := cp / 64;
    assert cp == q1 * 64 + cp % 64;
    assert q1 == (q1 / 64) * 64 + q1 % 64;
    Split(cp, q1 / 64, (q1 % 64) * 64 + cp % 64, 4096);
  }

  lemma Rebuild4(cp: int)
    requires 0 <= cp
    ensures cp == (cp / 262144) * 262144 + ((cp / 4096) % 64) * 4096 + ((cp / 64) % 64) * 64 + cp % 64
  {
    var q1 := cp / 64;
    var q2 := q1 / 64;
    assert cp == q1 * 64 + cp % 64;
    assert q1 == q2 * 64 + q1 % 64;
    assert q2 == (q2 / 64) * 64 + q2 % 64;
    Split(cp, q2, (q1 % 64) * 64 + cp % 64, 4096);
    Split(cp, q2 / 64, (q2 % 64) * 4096 + (q1 % 64) * 64 + cp % 64, 262144);
  }

  lemma Second3(cp: int)
    requires IsScalar(cp) && 0x800 <= cp < 0x10000
    ensures var b0 := 0xE0 + cp / 4096;
      SecondLo(b0) <= 0x80 + (cp / 64) % 64 <= SecondHi(b0)
  {
  }

  lemma Second4(cp: int)
    requires IsScalar(cp) && 0x10000 <= cp
    ensures var b0 := 0xF0 + cp / 262144;
      b0 <= 0xF4 && SecondLo(b0) <= 0x80 + (cp / 4096) % 64 <= SecondHi(b0)
  {
  }

  /** A byte sequence made of well-formed UTF-8 units only. */
  predicate ValidUtf8(s: seq<byte>)
    decreases |s|
  {
    s == [] || (!IsErrorUnit(Decode(s)) && ValidUtf8(s[Decode(s).size..]))
  }
}
