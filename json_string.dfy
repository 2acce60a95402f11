/** The body of a JSON string literal, read back according to the string
    grammar of section 7 of RFC 8259.  This is the reference that gives the
    escaper's output its meaning: the escaper is correct when reading its
    output back yields the input text. */
module JsonString {
  import opened Utf8

  datatype Option<T> = None | Some(value: T)

  const Quote: byte := 0x22      // "
  const Backslash: byte := 0x5C  // \
  const LowerU: byte := 0x75     // u

  /** Puts `prefix` in front of a successful result; failure stays failure. */
  function Prepend(prefix: seq<byte>, rest: Option<seq<byte>>): (r: Option<seq<byte>>)
    ensures r.Some? <==> rest.Some?
    ensures r.Some? ==> r.value == prefix + rest.value
  {
    match rest
    case None => None
    case Some(t) => Some(prefix + t)
  }

  /** The byte a two-character escape `\c` stands for, if `c` names one. */
  function ShortEscape(c: byte): Option<byte> {
    if c == Quote then Some(Quote)
    else if c == Backslash then Some(Backslash)
    else if c == 0x2F then Some(0x2F)        // \/
    else if c == 0x62 then Some(0x08)        // \b
    else if c == 0x66 then Some(0x0C)        // \f
    else if c == 0x6E then Some(0x0A)        // \n
    else if c == 0x72 then Some(0x0D)        // \r
    else if c == 0x74 then Some(0x09)        // \t
    else None
  }

  predicate IsHexDigit(c: byte) {
    (0x30 <= c <= 0x39) || (0x61 <= c <= 0x66) || (0x41 <= c <= 0x46)
  }

  function HexValue(c: byte): (v: nat)
    requires IsHexDigit(c)
    ensures v < 16
  {
    if c <= 0x39 then c - 0x30 else if c >= 0x61 then c - 0x57 else c - 0x37
  }

  /** The code point named by the four hex digits of a `\uXXXX` escape. */
  function HexQuad(h0: byte, h1: byte, h2: byte, h3: byte): (cp: nat)
    requires IsHexDigit(h0) && IsHexDigit(h1) && IsHexDigit(h2) && IsHexDigit(h3)
    ensures cp < 0x10000
  {
    HexValue(h0) * 4096 + HexValue(h1) * 256 + HexValue(h2) * 16 + HexValue(h3)
  }

  /** Reads a string body (the bytes between the quotes) back to the bytes it
      denotes.  `None` when the body is not well formed: a raw quote or
      control character, or a backslash not followed by a valid escape.  A
      `\uXXXX` escape stands for the UTF-8 encoding of code point XXXX; an
      escape naming a surrogate is refused (the escaper never writes one). */
  function Unescape(t: seq<byte>): Option<seq<byte>>
    decreases |t|
  {
    if t == [] then Some([])
    else if t[0] == Backslash then
      if |t| >= 6 && t[1] == LowerU then
        if IsHexDigit(t[2]) && IsHexDigit(t[3]) && IsHexDigit(t[4]) && IsHexDigit(t[5]) then
          if IsScalar(HexQuad(t[2], t[3], t[4], t[5])) then Prepend(EncodeRune(HexQuad(t[2], t[3], t[4], t[5])), Unescape(t[6..])) else None
        else None
      else if |t| >= 2 && ShortEscape(t[1]).Some? then
        Prepend([ShortEscape(t[1]).value], Unescape(t[2..]))
      else None
    else if t[0] == Quote || t[0] < 0x20 then None
    else Prepend([t[0]], Unescape(t[1..]))
  }

  /** A byte that may stand for itself inside a string body. */
  predicate IsRaw(b: byte) {
    b >= 0x20 && b != Quote && b != Backslash
  }

  /** A run of raw bytes reads back as itself. */
  lemma {:induction false} UnescapeRaw(a: seq<byte>, rest: seq<byte>)
    requires forall k :: 0 <= k < |a| ==> IsRaw(a[k])
    ensures Unescape(a + rest) == Prepend(a, Unescape(rest))
    decreases |a|
  {
    if a == [] {
      assert a + rest == rest;
      if Unescape(rest).Some? {
        assert a + Unescape(rest).value == Unescape(rest).value;
      }
    } else {
      assert (a + rest)[0] == a[0];
      assert (a + rest)[1..] == a[1..] + rest;
      assert IsRaw(a[0]);
      assert Unescape(a + rest) == Prepend([a[0]], Unescape(a[1..] + rest));
      UnescapeRaw(a[1..], rest);
      if Unescape(rest).Some? {
        assert [a[0]] + (a[1..] + Unescape(rest).value) == a + Unescape(rest).value;
      }
    }
  }
}
