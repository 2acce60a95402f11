/** `escape.JSON`: quotes a byte string as a JSON string literal.  ASCII
    bytes outside the JSON safe set are escaped, bytes that are not valid
    UTF-8 become `\ufffd`, U+2028 and U+2029 become `\u2028` and `\u2029`, and
    everything else is copied verbatim.

    `Esc` is the specification, one unit of the scan at a time; `Json` is the
    loop of `JSON` in escape.go over a growing output buffer, proved to produce
    `Quoted(s)`.  Reading the output back with `JsonString.Unescape` gives
    the input with every invalid byte replaced by U+FFFD. */
module Escape {
  import opened Utf8
  import opened JsonString

  /** `hex[v]`: the lowercase hexadecimal digit for `v`, one of
      "0123456789abcdef"; reading it back gives `v`. */
  function HexDigit(v: nat): (c: byte)
    requires v < 16
    ensures IsLowerHex(c) && HexValue(c) == v
  {
    if v < 10 then 0x30 + v else 0x57 + v
  }

  /** The safe-set table of `encoding/json` that escape.go links to: a byte
      below 0x80 needs no escaping inside a JSON string when it is 0x20 or
      above and neither `"` nor `\`.  `<`, `>`, `&` and 0x7F are safe. */
  predicate SafeSet(b: byte)
    requires b < RuneSelf
    ensures SafeSet(b) <==> IsRaw(b)
  {
    0x20 <= b && b != Quote && b != Backslash
  }

  /** The table agrees with the JSON reader: a lone ASCII byte is in the safe
      set exactly when the reader takes it raw, as itself. */
  lemma SafeSetReadsRaw(b: byte)
    requires b < RuneSelf
    ensures SafeSet(b) <==> Unescape([b]) == Some([b])
  {
    if SafeSet(b) {
      UnescapeRaw([b], []);
      assert [b] + [] == [b];
    }
  }

  const LineSeparator: int := 0x2028
  const ParagraphSeparator: int := 0x2029

  /** `\ufffd` */
  const ReplacementEscape: seq<byte> := [Backslash, LowerU, 0x66, 0x66, 0x66, 0x64]
  /** `\u202`, completed by the last hex digit of the separator. */
  const SeparatorPrefix: seq<byte> := [Backslash, LowerU, 0x32, 0x30, 0x32]

  /** A lowercase hexadecimal digit. */
  predicate IsLowerHex(c: byte) {
    (0x30 <= c <= 0x39) || (0x61 <= c <= 0x66)
  }

  /** The escape written for an unsafe ASCII byte: the two-byte form for
      `\`, `"`, newline, carriage return and tab, and `\u00` followed by the
      byte's high and low nibble as lowercase hex digits for every other
      byte.  Either form reads back as `b` (lemma `EscapeAsciiReadsBack`). */
  function EscapeAscii(b: byte): (r: seq<byte>)
    requires b < RuneSelf && !SafeSet(b)
    ensures |r| >= 2 && r[0] == Backslash
    ensures |r| == 2 <==> b == Backslash || b == Quote || b == 0x0A || b == 0x0D || b == 0x09
    ensures |r| == 2 ==> ShortEscape(r[1]) == Some(b)
    ensures |r| != 2 ==>
      |r| == 6 && r[1] == LowerU && r[2] == 0x30 && r[3] == 0x30 &&
      IsLowerHex(r[4]) && IsLowerHex(r[5]) && HexValue(r[4]) * 16 + HexValue(r[5]) == b
    ensures forall k :: 0 <= k < |r| ==> r[k] < RuneSelf
  {
    [Backslash] +
      if b == Backslash || b == Quote then [b]
      else if b == 0x0A then [0x6E]
      else if b == 0x0D then [0x72]
      else if b == 0x09 then [0x74]
      else [LowerU, 0x30, 0x30, HexDigit(b / 16), HexDigit(b % 16)]
  }

  /** What one step of the scan writes for the unit at the start of `s`, and
      how far it advances. */
  datatype Emit = Emit(out: seq<byte>, size: nat)

  /** The step of the scan at the start of `s`, branch for branch as in the
      loop of `JSON`: what is written for the unit there and how far the scan
      moves. */
  function Unit(s: seq<byte>): (u: Emit)
    requires |s| > 0
    ensures 1 <= u.size <= |s| && u.size <= |u.out|
  {
    if s[0] < RuneSelf then AsciiUnit(s[0]) else MultiUnit(s)
  }

  /** A byte below `RuneSelf`: copied when safe, escaped otherwise. */
  function AsciiUnit(b: byte): (u: Emit)
    requires b < RuneSelf
    ensures u.size == 1 && |u.out| >= 1
    ensures |u.out| == 1 <==> SafeSet(b)
    ensures SafeSet(b) ==> u.out == [b]
    ensures forall k :: 0 <= k < |u.out| ==> u.out[k] < RuneSelf
  {
    if SafeSet(b) then Emit([b], 1) else Emit(EscapeAscii(b), 1)
  }

  /** A unit starting with a byte at or above `RuneSelf`: an invalid byte,
      a line or paragraph separator, or any other rune. */
  function MultiUnit(s: seq<byte>): (u: Emit)
    requires |s| > 0 && s[0] >= RuneSelf
    ensures 1 <= u.size <= |s| && u.size <= |u.out|
    ensures u.size == Decode(s).size
    ensures u.out == s[..u.size] <==>
      !IsErrorUnit(Decode(s)) && Decode(s).rune != LineSeparator && Decode(s).rune != ParagraphSeparator
  {
    var d := Decode(s);
    if IsErrorUnit(d) then Emit(ReplacementEscape, 1)
    else if d.rune == LineSeparator || d.rune == ParagraphSeparator then
      Emit(SeparatorPrefix + [HexDigit(d.rune % 16)], d.size)
    else Emit(s[..d.size], d.size)
  }

  /** The escaped body of `s`: the units' outputs, left to right. */
  function Esc(s: seq<byte>): (r: seq<byte>)
    ensures |r| >= |s|
    ensures r == [] <==> s == []
    decreases |s|
  {
    if s == [] then [] else Unit(s).out + Esc(s[Unit(s).size..])
  }

  /** The result `JSON` returns for `s`. */
  function Quoted(s: seq<byte>): (r: seq<byte>)
    ensures |r| >= |s| + 2 && r[0] == Quote && r[|r| - 1] == Quote
  {
    [Quote] + Esc(s) + [Quote]
  }

  /** The text a unit stands for: the unit itself, or the encoding of
      U+FFFD when it is not valid UTF-8. */
  function SanitizedUnit(s: seq<byte>): seq<byte>
    requires |s| > 0
  {
    if IsErrorUnit(Decode(s)) then EncodeRune(RuneError) else s[..Decode(s).size]
  }

  /** `s` with every invalid UTF-8 unit replaced by U+FFFD. */
  function Sanitize(s: seq<byte>): seq<byte>
    decreases |s|
  {
    if s == [] then [] else SanitizedUnit(s) + Sanitize(s[Decode(s).size..])
  }

  // ---------------------------------------------------------------------
  // Reading the output back

  lemma EscapeAsciiReadsBack(b: byte, rest: seq<byte>)
    requires b < RuneSelf && !SafeSet(b)
    ensures Unescape(EscapeAscii(b) + rest) == Prepend([b], Unescape(rest))
  {
    var t := EscapeAscii(b) + rest;
    if b == Backslash || b == Quote || b == 0x0A || b == 0x0D || b == 0x09 {
      assert t[0] == Backslash && t[2..] == rest;
      assert ShortEscape(t[1]) == Some(b);
    } else {
      assert t[0] == Backslash && t[1] == LowerU && t[2] == 0x30 && t[3] == 0x30;
      assert t[4] == HexDigit(b / 16) && t[5] == HexDigit(b % 16) && t[6..] == rest;
    }
  }

  /** The escape written for an invalid unit reads back as U+FFFD. */
  lemma ReplacementReadsBack(rest: seq<byte>)
    ensures Unescape(ReplacementEscape + rest) == Prepend(EncodeRune(RuneError), Unescape(rest))
  {
    var t := ReplacementEscape + rest;
    assert t[..6] == ReplacementEscape && t[6..] == rest;
    assert HexValue(t[2]) == 15 && HexValue(t[5]) == 13;
  }

  /** The escapes written for U+2028 and U+2029 read back as those code
      points. */
  lemma SeparatorReadsBack(cp: int, rest: seq<byte>)
    requires cp == LineSeparator || cp == ParagraphSeparator
    ensures Unescape(SeparatorPrefix + [HexDigit(cp % 16)] + rest) == Prepend(EncodeRune(cp), Unescape(rest))
  {
    var t := SeparatorPrefix + [HexDigit(cp % 16)] + rest;
    assert t[..5] == SeparatorPrefix && t[5] == HexDigit(cp % 16) && t[6..] == rest;
    assert HexValue(t[5]) == cp % 16;
  }

  /** Every unit's output reads back as the text the unit stands for. */
  lemma UnitReadsBack(s: seq<byte>, rest: seq<byte>)
    requires |s| > 0
    ensures Unescape(Unit(s).out + rest) == Prepend(SanitizedUnit(s), Unescape(rest))
  {
    var b := s[0];
    var d := Decode(s);
    if b < RuneSelf {
      assert SanitizedUnit(s) == [b];
      if SafeSet(b) {
        UnescapeRaw([b], rest);
      } else {
        EscapeAsciiReadsBack(b, rest);
      }
    } else if IsErrorUnit(d) {
      ReplacementReadsBack(rest);
    } else if d.rune == LineSeparator || d.rune == ParagraphSeparator {
      DecodeValid(s);
      SeparatorReadsBack(d.rune, rest);
    } else {
      DecodeValid(s);
      UnescapeRaw(s[..d.size], rest);
    }
  }

  lemma {:induction false} EscReadsBack(s: seq<byte>)
    ensures Unescape(Esc(s)) == Some(Sanitize(s))
    decreases |s|
  {
    if s != [] {
      var u := Unit(s);
      UnitReadsBack(s, Esc(s[u.size..]));
      EscReadsBack(s[u.size..]);
    }
  }

  /** On valid UTF-8 nothing is replaced, and the replacement always leaves
      valid UTF-8. */
  lemma {:induction false} SanitizeValid(s: seq<byte>)
    ensures ValidUtf8(s) ==> Sanitize(s) == s
    ensures ValidUtf8(Sanitize(s))
    decreases |s|
  {
    if s != [] {
      var d := Decode(s);
      var rest := s[d.size..];
      SanitizeValid(rest);
      var head := SanitizedUnit(s);
      if d.size >= 2 {
        DecodeValid(s);
      }
      DecodeEncoded(head + Sanitize(rest), if IsErrorUnit(d) then RuneError else d.rune);
      assert (head + Sanitize(rest))[|head|..] == Sanitize(rest);
      if ValidUtf8(s) {
        assert s[..d.size] + s[d.size..] == s;
      }
    }
  }

  /** The result of `JSON` is a quoted JSON string whose body reads back as
      the input, with U+FFFD in place of every invalid byte; on valid UTF-8
      it reads back as exactly the input. */
  lemma QuotedReadsBack(s: seq<byte>)
    ensures var r := Quoted(s);
      |r| >= 2 && r[0] == Quote && r[|r| - 1] == Quote &&
      Unescape(r[1..|r| - 1]) == Some(Sanitize(s)) &&
      (ValidUtf8(s) ==> Unescape(r[1..|r| - 1]) == Some(s))
  {
    var r := Quoted(s);
    assert r[1..|r| - 1] == Esc(s);
    EscReadsBack(s);
    SanitizeValid(s);
  }

  // ---------------------------------------------------------------------
  // The output holds no raw line or paragraph separator

  /** Valid UTF-8 with no raw U+2028 or U+2029 in it. */
  predicate NoRawSeparators(t: seq<byte>)
    decreases |t|, 1
  {
    t == [] || NoRawSeparatorsFrom(t)
  }

  /** The first unit of `t` is valid and no separator, and the rest is
      separator-free. */
  predicate NoRawSeparatorsFrom(t: seq<byte>)
    requires |t| > 0
    decreases |t|, 0
  {
    !IsErrorUnit(Decode(t)) &&
      Decode(t).rune != LineSeparator && Decode(t).rune != ParagraphSeparator &&
      NoRawSeparators(t[Decode(t).size..])
  }

  lemma {:induction false} NoRawSeparatorsAscii(a: seq<byte>, rest: seq<byte>)
    requires forall k :: 0 <= k < |a| ==> a[k] < RuneSelf
    requires NoRawSeparators(rest)
    ensures NoRawSeparators(a + rest)
    decreases |a|
  {
    if a == [] {
      assert a + rest == rest;
    } else {
      assert (a + rest)[1..] == a[1..] + rest;
      NoRawSeparatorsAscii(a[1..], rest);
    }
  }

  lemma {:induction false} EscNoRawSeparators(s: seq<byte>)
    ensures NoRawSeparators(Esc(s))
    decreases |s|
  {
    if s != [] {
      var u := Unit(s);
      var rest := Esc(s[u.size..]);
      EscNoRawSeparators(s[u.size..]);
      var d := Decode(s);
      if s[0] >= RuneSelf && !IsErrorUnit(d) && d.rune != LineSeparator && d.rune != ParagraphSeparator {
        DecodeValid(s);
        DecodeEncoded(u.out + rest, d.rune);
        assert (u.out + rest)[d.size..] == rest;
      } else {
        NoRawSeparatorsAscii(u.out, rest);
      }
    }
  }

  /** Separator-free text stays separator-free when separator-free text follows it:
      each unit of the first part decodes the same with the second part
      behind it. */
  lemma {:induction false} NoRawSeparatorsAppend(t: seq<byte>, u: seq<byte>)
    requires NoRawSeparators(t) && NoRawSeparators(u)
    ensures NoRawSeparators(t + u)
    decreases |t|
  {
    if t == [] {
      assert t + u == u;
    } else {
      var d := Decode(t);
      DecodeExtend(t, u);
      NoRawSeparatorsAppend(t[d.size..], u);
      assert (t + u)[d.size..] == t[d.size..] + u;
      NoRawSeparatorsUnit(t + u);
    }
  }

  /** A separator-free unit in front of separator-free text. */
  lemma NoRawSeparatorsUnit(t: seq<byte>)
    requires |t| > 0 && !IsErrorUnit(Decode(t))
    requires Decode(t).rune != LineSeparator && Decode(t).rune != ParagraphSeparator
    requires NoRawSeparators(t[Decode(t).size..])
    ensures NoRawSeparators(t)
  {
  }

  /** The whole result of `JSON`, quotes included, is valid UTF-8 with no
      raw U+2028 or U+2029. */
  lemma QuotedNoRawSeparators(s: seq<byte>)
    ensures NoRawSeparators(Quoted(s))
  {
    EscNoRawSeparators(s);
    NoRawSeparatorsAscii([Quote], []);
    assert [Quote] + [] == [Quote];
    NoRawSeparatorsAppend(Esc(s), [Quote]);
    NoRawSeparatorsAscii([Quote], Esc(s) + [Quote]);
    assert Quoted(s) == [Quote] + (Esc(s) + [Quote]);
  }

  /** `<`, `>` and `&` are in the linked safe set, so they are copied: a
      closing script tag passes through unescaped. */
  lemma ScriptTagCopied()
    ensures Quoted([0x3C, 0x2F]) == [Quote, 0x3C, 0x2F, Quote]
    ensures Esc([0x3E]) == [0x3E] && Esc([0x26]) == [0x26]
  {
    SafeAsciiVerbatim([0x3C, 0x2F]);
    SafeAsciiVerbatim([0x3E]);
    SafeAsciiVerbatim([0x26]);
  }

  // ---------------------------------------------------------------------
  // The escape table, one kind of unit at a time

  /** Input made only of safe ASCII bytes comes back verbatim. */
  lemma {:induction false} SafeAsciiVerbatim(s: seq<byte>)
    requires forall k :: 0 <= k < |s| ==> s[k] < RuneSelf && SafeSet(s[k])
    ensures Esc(s) == s
    ensures Quoted(s) == [Quote] + s + [Quote]
    decreases |s|
  {
    if s != [] {
      SafeAsciiVerbatim(s[1..]);
      assert [s[0]] + s[1..] == s;
    }
  }

  /** A byte that starts no UTF-8 sequence becomes `\ufffd` and the scan
      goes on at the very next byte, whatever follows. */
  lemma InvalidByte(b: byte, t: seq<byte>)
    requires 0x80 <= b <= 0xC1 || 0xF5 <= b
    ensures Esc([b] + t) == ReplacementEscape + Esc(t)
  {
    assert ([b] + t)[1..] == t;
  }

  /** A lead byte whose continuation is missing becomes `\ufffd` on its own;
      the byte after it is escaped in its own right. */
  lemma TruncatedSequence(b: byte, c: byte, t: seq<byte>)
    requires 0xC2 <= b <= 0xF4 && c < RuneSelf
    ensures Esc([b, c] + t) == ReplacementEscape + Esc([c] + t)
  {
    var s := [b, c] + t;
    assert s[0] == b && !IsCont(s[1]);
    assert Decode(s) == Decoded(RuneError, 1);
    assert Unit(s) == Emit(ReplacementEscape, 1);
    assert s[1..] == [c] + t;
  }

  /** U+2028 and U+2029 become `\u2028` and `\u2029`, and the scan moves past
      all three bytes of their encoding. */
  lemma Separators(cp: int, t: seq<byte>)
    requires cp == LineSeparator || cp == ParagraphSeparator
    ensures Esc(EncodeRune(cp) + t) ==
      [Backslash, LowerU, 0x32, 0x30, 0x32, if cp == LineSeparator then 0x38 else 0x39] + Esc(t)
  {
    var e := EncodeRune(cp);
    assert e == [0xE2, 0x80, if cp == LineSeparator then 0xA8 else 0xA9];
    var s := e + t;
    DecodeEncoded(s, cp);
    assert s[0] == 0xE2 && s[3..] == t;
    var digit: byte := if cp == LineSeparator then 0x38 else 0x39;
    assert HexDigit(cp % 16) == digit;
    assert Unit(s) == Emit(SeparatorPrefix + [digit], 3);
    assert Esc(s) == Unit(s).out + Esc(t);
    assert SeparatorPrefix + [digit] == [Backslash, LowerU, 0x32, 0x30, 0x32, digit];
  }

  /** Every other multi-byte code point, U+FFFD included, is copied as it
      stands, and the scan moves past its whole encoding. */
  lemma PassThrough(cp: int, t: seq<byte>)
    requires IsScalar(cp) && cp >= RuneSelf && cp != LineSeparator && cp != ParagraphSeparator
    ensures Esc(EncodeRune(cp) + t) == EncodeRune(cp) + Esc(t)
  {
    var e := EncodeRune(cp);
    DecodeEncoded(e + t, cp);
    assert (e + t)[..|e|] == e && (e + t)[|e|..] == t;
  }

  /** A correctly encoded U+FFFD (EF BF BD) is a valid three-byte unit, not
      an invalid one: it is copied, unlike an invalid byte, which becomes
      `\ufffd`. */
  lemma EncodedReplacement(t: seq<byte>)
    ensures Esc([0xEF, 0xBF, 0xBD] + t) == [0xEF, 0xBF, 0xBD] + Esc(t)
  {
    assert EncodeRune(RuneError) == [0xEF, 0xBF, 0xBD];
    PassThrough(RuneError, t);
  }

  /** Escaping is not idempotent: the quotes added by one call are escaped by
      the next. */
  lemma NotIdempotent()
    ensures Quoted(Quoted([0x61])) != Quoted([0x61])
  {
    var once := Quoted([0x61]);
    SafeAsciiVerbatim([0x61]);
    assert once == [Quote, 0x61, Quote];
    assert |Quoted(once)| > |once| by {
      assert Esc(once) == EscapeAscii(Quote) + Esc(once[1..]);
    }
  }

  // ---------------------------------------------------------------------
  // The scan

  /** The escape of the input from position `i` on, unit by unit as the
      loop of `JSON` walks it: empty at the end, else the unit at `i`
      followed by the escape of what comes after it. */
  function EscFrom(s: seq<byte>, i: nat): seq<byte>
    decreases |s| - i, 1
  {
    if i < |s| then EscAt(s, i) else []
  }

  /** The units are decoded from the rest of the input, `s[i..]`, like
      `utf8.DecodeRuneInString(s[i:])` does. */
  function EscAt(s: seq<byte>, i: nat): seq<byte>
    requires i < |s|
    decreases |s| - i, 0
  {
    Unit(s[i..]).out + EscFrom(s, i + Unit(s[i..]).size)
  }

  /** Walking the input by position is escaping the rest of it. */
  lemma {:induction false} EscFromSuffix(s: seq<byte>, i: nat)
    requires i <= |s|
    ensures EscFrom(s, i) == Esc(s[i..])
    decreases |s| - i
  {
    if i < |s| {
      EscFromSuffix(s, i + Unit(s[i..]).size);
      EscFromStep(s, i);
    } else {
      assert s[i..] == [];
    }
  }

  /** One unit of the walk is one unit of the escape of the rest. */
  lemma EscFromStep(s: seq<byte>, i: nat)
    requires i < |s|
    requires EscFrom(s, i + Unit(s[i..]).size) == Esc(s[i + Unit(s[i..]).size..])
    ensures EscFrom(s, i) == Esc(s[i..])
  {
    var t := s[i..];
    var k := Unit(t).size;
    assert t[k..] == s[i + k..];
  }

  /** The switch of `JSON` that writes the escape of an ASCII byte needing
      one: a two-byte escape where JSON has one, else `\u00` and the byte's
      two lowercase hex digits. */
  method AppendAsciiEscape(e: seq<byte>, b: byte) returns (e': seq<byte>)
    requires b < RuneSelf && !SafeSet(b)
    ensures e' == e + EscapeAscii(b)
  {
    e' := e + [Backslash];
    if b == Backslash || b == Quote {
      e' := e' + [b];
    } else if b == 0x0A {
      e' := e' + [0x6E];
    } else if b == 0x0D {
      e' := e' + [0x72];
    } else if b == 0x09 {
      e' := e' + [0x74];
    } else {
      e' := e' + [LowerU, 0x30, 0x30];
      e' := e' + [HexDigit(b / 16)];
      e' := e' + [HexDigit(b % 16)];
    }
  }

  /** Adjacent slices join. */
  lemma SliceJoin(s: seq<byte>, a: nat, b: nat, c: nat)
    requires a <= b <= c <= |s|
    ensures s[a..b] + s[b..c] == s[a..c]
  {
  }

  lemma Regroup(e: seq<byte>, x: seq<byte>, y: seq<byte>, z: seq<byte>)
    ensures e + x + (y + z) == e + (x + y) + z
  {
  }

  /** The escape table at a position `i` of the scan: what is written for
      the unit that starts there, and where the next unit starts. */
  lemma SafeAsciiUnit(s: seq<byte>, i: nat)
    requires i < |s| && s[i] < RuneSelf && SafeSet(s[i])
    ensures EscFrom(s, i) == s[i..i + 1] + EscFrom(s, i + 1)
  {
    assert s[i..][0] == s[i] && s[i..i + 1] == [s[i]];
  }

  lemma UnsafeAsciiUnit(s: seq<byte>, i: nat)
    requires i < |s| && s[i] < RuneSelf && !SafeSet(s[i])
    ensures EscFrom(s, i) == EscapeAscii(s[i]) + EscFrom(s, i + 1)
  {
    assert s[i..][0] == s[i];
  }

  lemma InvalidUnit(s: seq<byte>, i: nat)
    requires i < |s| && s[i] >= RuneSelf && IsErrorUnit(Decode(s[i..]))
    ensures EscFrom(s, i) == ReplacementEscape + EscFrom(s, i + 1)
  {
    assert s[i..][0] == s[i];
  }

  lemma SeparatorUnit(s: seq<byte>, i: nat, d: Decoded)
    requires i < |s| && s[i] >= RuneSelf && d == Decode(s[i..]) && !IsErrorUnit(d)
    requires d.rune == LineSeparator || d.rune == ParagraphSeparator
    ensures i < i + d.size <= |s|
    ensures EscFrom(s, i) == SeparatorPrefix + [HexDigit(d.rune % 16)] + EscFrom(s, i + d.size)
  {
    assert s[i..][0] == s[i];
  }

  lemma PassUnit(s: seq<byte>, i: nat, d: Decoded)
    requires i < |s| && s[i] >= RuneSelf && d == Decode(s[i..]) && !IsErrorUnit(d)
    requires d.rune != LineSeparator && d.rune != ParagraphSeparator
    ensures i < i + d.size <= |s|
    ensures EscFrom(s, i) == s[i..i + d.size] + EscFrom(s, i + d.size)
  {
    assert s[i..][0] == s[i];
    assert s[i..][..d.size] == s[i..i + d.size];
  }

  /** The state of the loop of `JSON` after writing `e`: the bytes written,
      the pending run `s[start..i]` of units that escape to themselves, and
      the escape `rest` of what is left together make up `whole`. */
  ghost predicate ScanState(s: seq<byte>, start: nat, i: nat, e: seq<byte>, rest: seq<byte>, whole: seq<byte>) {
    start <= i <= |s| && e + s[start..i] + rest == whole
  }

  /** A unit that escapes to itself joins the pending run. */
  lemma RunStep(s: seq<byte>, start: nat, i: nat, e: seq<byte>, rest: seq<byte>, whole: seq<byte>, n: nat, rest': seq<byte>)
    requires ScanState(s, start, i, e, rest, whole) && i + n <= |s|
    requires rest == s[i..i + n] + rest'
    ensures ScanState(s, start, i + n, e, rest', whole)
  {
    SliceJoin(s, start, i, i + n);
    Regroup(e, s[start..i], s[i..i + n], rest');
  }

  /** A unit that is escaped ends the pending run: once the run and the
      unit's escape `out` are written, giving `w`, both cursors move past the
      unit. */
  lemma FlushStep(s: seq<byte>, start: nat, i: nat, e: seq<byte>, rest: seq<byte>, whole: seq<byte>, n: nat, out: seq<byte>, rest': seq<byte>, w: seq<byte>)
    requires ScanState(s, start, i, e, rest, whole) && i + n <= |s|
    requires rest == out + rest' && w == e + s[start..i] + out
    ensures ScanState(s, i + n, i + n, w, rest', whole)
  {
    SliceJoin(s, i + n, i + n, i + n);
    Regroup(e + s[start..i], out, s[i + n..i + n], rest');
  }

  /** Writes the pending run `s[start..i]`, when there is one. */
  method Flush(s: seq<byte>, start: nat, i: nat, e: seq<byte>) returns (e': seq<byte>)
    requires start <= i <= |s|
    ensures e' == e + s[start..i]
  {
    e' := e;
    if start < i {
      e' := e' + s[start..i];
    } else {
      assert e + s[start..i] == e;
    }
  }

  /** The loop of `JSON` at an ASCII byte: a safe byte joins the pending
      run `s[start..i]`; any other byte ends it, and the run and the byte's
      escape are written. */
  method AsciiStep(s: seq<byte>, start: nat, i: nat, e: seq<byte>, ghost rest: seq<byte>, ghost whole: seq<byte>)
    returns (start': nat, e': seq<byte>, ghost rest': seq<byte>)
    requires ScanState(s, start, i, e, rest, whole) && rest == EscFrom(s, i) && i < |s| && s[i] < RuneSelf
    ensures ScanState(s, start', i + 1, e', rest', whole) && rest' == EscFrom(s, i + 1)
    ensures SafeSet(s[i]) ==> start' == start && e' == e
    ensures !SafeSet(s[i]) ==> start' == i + 1 && e' == e + s[start..i] + EscapeAscii(s[i])
  {
    var b := s[i];
    rest' := EscFrom(s, i + 1);
    if SafeSet(b) {
      SafeAsciiUnit(s, i);
      RunStep(s, start, i, e, rest, whole, 1, rest');
      start', e' := start, e;
    } else {
      e' := Flush(s, start, i, e);
      e' := AppendAsciiEscape(e', b);
      UnsafeAsciiUnit(s, i);
      FlushStep(s, start, i, e, rest, whole, 1, EscapeAscii(b), rest', e');
      start' := i + 1;
    }
  }

  /** The loop of `JSON` at a byte at or above `RuneSelf`: the unit is
      decoded; an invalid byte and the two separators end the pending run and
      have their escape written, any other rune joins the run. */
  method MultiStep(s: seq<byte>, start: nat, i: nat, e: seq<byte>, ghost rest: seq<byte>, ghost whole: seq<byte>)
    returns (start': nat, i': nat, e': seq<byte>, ghost rest': seq<byte>)
    requires ScanState(s, start, i, e, rest, whole) && rest == EscFrom(s, i) && i < |s| && s[i] >= RuneSelf
    ensures ScanState(s, start', i', e', rest', whole) && rest' == EscFrom(s, i') && i < i'
    ensures i' == i + Decode(s[i..]).size
    ensures start' == i' || (start' == start && e' == e)
  {
    var d := Decode(s[i..]);
    if IsErrorUnit(d) {
      e', rest' := WriteReplacement(s, start, i, e, rest, whole);
      start', i' := i + d.size, i + d.size;
    } else if d.rune == LineSeparator || d.rune == ParagraphSeparator {
      e', rest' := WriteSeparator(s, start, i, e, rest, whole, d);
      start', i' := i + d.size, i + d.size;
    } else {
      PassUnit(s, i, d);
      rest' := EscFrom(s, i + d.size);
      RunStep(s, start, i, e, rest, whole, d.size, rest');
      start', i', e' := start, i + d.size, e;
    }
  }

  /** An invalid byte: the pending run and `\ufffd` are written. */
  method WriteReplacement(s: seq<byte>, start: nat, i: nat, e: seq<byte>, ghost rest: seq<byte>, ghost whole: seq<byte>)
    returns (e': seq<byte>, ghost rest': seq<byte>)
    requires ScanState(s, start, i, e, rest, whole) && rest == EscFrom(s, i) && i < |s|
    requires s[i] >= RuneSelf && IsErrorUnit(Decode(s[i..]))
    ensures e' == e + s[start..i] + ReplacementEscape
    ensures ScanState(s, i + 1, i + 1, e', rest', whole) && rest' == EscFrom(s, i + 1)
  {
    e' := Flush(s, start, i, e);
    e' := e' + ReplacementEscape;
    InvalidUnit(s, i);
    rest' := EscFrom(s, i + 1);
    FlushStep(s, start, i, e, rest, whole, 1, ReplacementEscape, rest', e');
  }

  /** U+2028 or U+2029: the pending run, `\u202` and the last hex digit of
      the code point are written. */
  method WriteSeparator(s: seq<byte>, start: nat, i: nat, e: seq<byte>, ghost rest: seq<byte>, ghost whole: seq<byte>, d: Decoded)
    returns (e': seq<byte>, ghost rest': seq<byte>)
    requires ScanState(s, start, i, e, rest, whole) && rest == EscFrom(s, i) && i < |s| && s[i] >= RuneSelf
    requires d == Decode(s[i..]) && !IsErrorUnit(d) && (d.rune == LineSeparator || d.rune == ParagraphSeparator)
    ensures i < i + d.size <= |s|
    ensures e' == e + s[start..i] + SeparatorPrefix + [HexDigit(d.rune % 16)]
    ensures ScanState(s, i + d.size, i + d.size, e', rest', whole) && rest' == EscFrom(s, i + d.size)
  {
    e' := Flush(s, start, i, e);
    ghost var flushed := e';
    e' := e' + SeparatorPrefix;
    e' := e' + [HexDigit(d.rune % 16)];
    assert e' == flushed + (SeparatorPrefix + [HexDigit(d.rune % 16)]);
    SeparatorUnit(s, i, d);
    rest' := EscFrom(s, i + d.size);
    FlushStep(s, start, i, e, rest, whole, d.size, SeparatorPrefix + [HexDigit(d.rune % 16)], rest', e');
  }

  /** `JSON`: the empty string gives `""` at once; any other input is
      scanned. */
  method Json(s: seq<byte>) returns (r: seq<byte>)
    ensures r == Quoted(s)
    ensures s == [] ==> r == [Quote, Quote]
  {
    if |s| == 0 {
      r := [Quote, Quote];
    } else {
      r := Scan(s);
      ScanQuoted(s);
    }
  }

  /** The loop of `JSON`: `start` marks the first byte not yet written,
      `i` the next unit to look at; a run of units that need no escaping is
      written in one piece when an escape or the end is reached. */
  method Scan(s: seq<byte>) returns (r: seq<byte>)
    ensures r == [Quote] + EscFrom(s, 0) + [Quote]
  {
    var e: seq<byte> := [Quote];
    var start: nat := 0;
    var i: nat := 0;
    ghost var rest := EscFrom(s, 0);
    ghost var whole := [Quote] + rest;
    assert s[0..0] == [];
    while i < |s|
      invariant ScanState(s, start, i, e, rest, whole) && rest == EscFrom(s, i)
      decreases |s| - i
    {
      if s[i] < RuneSelf {
        start, e, rest := AsciiStep(s, start, i, e, rest, whole);
        i := i + 1;
      } else {
        start, i, e, rest := MultiStep(s, start, i, e, rest, whole);
      }
    }
    assert rest == [];
    e := Flush(s, start, i, e);
    assert e == whole;
    e := e + [Quote];
    r := e;
  }

  /** The scan from the first byte produces the body of `Quoted(s)`. */
  lemma ScanQuoted(s: seq<byte>)
    ensures Quoted(s) == [Quote] + EscFrom(s, 0) + [Quote]
  {
    EscFromSuffix(s, 0);
    assert s[0..] == s;
  }
}
