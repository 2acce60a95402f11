# escape.JSON in Dafny

A model of `JSON(s string) string` from escape.go, the one function of the
PurpleSec/Escape package. It quotes an arbitrary Go string (a byte sequence
that is usually, but not always, UTF-8) as a JSON string literal:

- ASCII bytes in the `encoding/json` safe set are copied.
- The other ASCII bytes get a backslash escape: the short form for `\`, `"`,
  newline, carriage return and tab, and `\u00XX` with lowercase hex digits
  for every other byte.
- A byte where UTF-8 decoding fails becomes `\ufffd`, and the scan moves on
  by one byte.
- U+2028 and U+2029 become `\u2028` and `\u2029`.
- Every other code point is copied as it stands.

The project has three modules:

- `Utf8` (utf8.dfy) stands in for `utf8.DecodeRuneInString`. `Decode` accepts
  the well-formed sequences of section 4 of RFC 3629 and returns
  `(RuneError, 1)` on anything else. `EncodeRune` is its independent partner:
  decoding is sound (`DecodeValid`) and complete (`DecodeEncoded`) with
  respect to it.
- `JsonString` (json_string.dfy) reads the body of a JSON string literal back,
  following the string grammar of section 7 of RFC 8259. This reference
  decoder gives the escaper's output its meaning.
- `Escape` (escape.dfy) models the escaper in two forms.
  - `Esc` and `Quoted` are the specification, written one unit of the scan at
    a time.
  - `Json` and `Scan` are the loop of escape.go. They use the same two
    cursors (`start`, `i`) and append to an output buffer `e`. `Json` is
    proved to return `Quoted(s)`.
  - Lemmas then state what the output means. The body reads back as the input
    with U+FFFD in place of each invalid unit, and on valid UTF-8 it reads
    back as exactly the input. The output holds no raw U+2028 or U+2029. The
    escape table holds unit by unit.

Go strings are modelled as `seq<byte>`, where `byte` is the integers
0..255. The `strings.Builder` is modelled as a `seq<byte>` that the loop
reassigns.

The loop invariant (`ScanState` together with `rest == EscFrom(s, i)`)
relates three things:

- the bytes written so far;
- the pending run `s[start..i]`, which is copied verbatim;
- the escape of the rest of the input.

Together they make up the opening quote followed by `Esc(s)`. The
invariant also includes `start <= i <= |s|`, and every step moves `i` forward
by at least one byte.

## Model

| member | source | states |
|---|---|---|
| Escape.Json | escape.go:42-108 | returns exactly `Quoted(s)`; the empty input gives the two bytes `""` |
| Escape.Scan | escape.go:46-103 | the loop, started at `i = start = 0` with `"` written, ends with the opening quote, the escape of every unit of `s` and the closing quote |
| Escape.ScanQuoted | escape.go:48-103 | walking `s` by position from 0, then quoting, is `Quoted(s)` |
| Escape.AsciiStep | escape.go:51-77 | at a byte below 0x80, `i` moves one byte. A safe byte writes nothing and keeps `start`. Any other byte writes the pending run and then `EscapeAscii(b)`, and sets `start` past the byte. The loop state is kept in both cases |
| Escape.MultiStep | escape.go:78-98 | at a byte at or above 0x80, `i` moves by the decoded size. Either nothing is written and `start` stays, or the run and an escape are written and `start = i`. The loop state is kept |
| Escape.WriteReplacement | escape.go:79-86 | an invalid unit appends the pending run and `\ufffd`, and moves both cursors one byte on, keeping the loop state |
| Escape.WriteSeparator | escape.go:88-96 | U+2028/U+2029 append the pending run, `\u202` and the code point's last hex digit, and move both cursors past the whole encoding, keeping the loop state |
| Escape.Flush | escape.go:56-58 | the buffer grows by exactly the pending run `s[start..i]` |
| Escape.AppendAsciiEscape | escape.go:59-73 | the bytes the escape switch appends are exactly `EscapeAscii(b)` |
| Escape.RunStep | escape.go:51-54 | a unit that escapes to itself joins the pending run and keeps the loop state |
| Escape.FlushStep | escape.go:74-76 | writing the run and a unit's escape, then setting `start = i`, keeps the loop state |
| Escape.SafeAsciiUnit | escape.go:51-54 | a safe ASCII byte escapes to itself, and the scan moves one byte |
| Escape.UnsafeAsciiUnit | escape.go:59-75 | an unsafe ASCII byte escapes to `EscapeAscii(b)`, and the scan moves one byte |
| Escape.InvalidUnit | escape.go:78-86 | an invalid unit escapes to `\ufffd`, and the scan moves one byte |
| Escape.SeparatorUnit | escape.go:88-96 | a separator escapes to `\u202` and a hex digit, and the scan moves by the decoded size |
| Escape.PassUnit | escape.go:98 | any other rune escapes to its own bytes, and the scan moves by the decoded size, which stays within `s` |
| Escape.EscFromSuffix | escape.go:50-99 | walking the input by position from `i` gives the escape of the suffix `s[i..]` |
| Escape.HexDigit | escape.go:29 | the digit is lowercase hexadecimal and reads back as `v` |
| Escape.EscapeAscii | escape.go:59-73 | `\` and `"` escape to themselves; newline, carriage return and tab use `\n`, `\r` and `\t`; other bytes become `\u00` plus the high and then the low nibble as lowercase hex; the output is all ASCII |
| Escape.EscapeAsciiReadsBack | escape.go:59-73 | every ASCII escape reads back as the byte escaped |
| Escape.ReplacementReadsBack | escape.go:83 | `\ufffd` reads back as the UTF-8 encoding of U+FFFD |
| Escape.SeparatorReadsBack | escape.go:92-93 | `\u2028`/`\u2029` read back as the encodings of U+2028/U+2029 |
| Escape.Unit | escape.go:50-98 | each step of the scan advances by at least one byte and never past the end |
| Escape.UnitReadsBack | escape.go:51-98 | each unit's output reads back as the unit, or as U+FFFD when it is invalid |
| Escape.EscReadsBack | escape.go:42-108 | the escaped body reads back as the sanitized input |
| Escape.SanitizeValid | escape.go:78-86 | replacement changes nothing on valid UTF-8 and always yields valid UTF-8 |
| Escape.QuotedReadsBack | escape.go:42-108 | the output starts and ends with `"`; its body reads back as the sanitized input, and as the input itself when that is valid UTF-8 |
| Escape.NoRawSeparatorsAscii | escape.go:51-77 | ASCII escapes put in front of separator-free text keep it separator-free |
| Escape.EscNoRawSeparators | escape.go:88-96 | the escaped body is valid UTF-8 with no raw U+2028 or U+2029 |
| Escape.SafeAsciiVerbatim | escape.go:51-54 | input made only of safe ASCII bytes comes back as `"` + s + `"` |
| Escape.InvalidByte | escape.go:78-86 | a byte that starts no UTF-8 sequence becomes `\ufffd`, and the next byte is scanned next |
| Escape.TruncatedSequence | escape.go:78-86 | a lead byte followed by ASCII becomes `\ufffd`, and the ASCII byte is escaped in its own right |
| Escape.Separators | escape.go:88-96 | the encodings of U+2028/U+2029 become exactly `\u2028`/`\u2029`, and the scan moves past all three bytes |
| Escape.PassThrough | escape.go:98 | every other code point from U+0080 up is copied, and the scan moves past its whole encoding |
| Escape.EncodedReplacement | escape.go:79 | a correctly encoded U+FFFD (EF BF BD) is copied, not replaced |
| Escape.NotIdempotent | escape.go:42-108 | escaping twice differs from escaping once |
| Escape.SafeSetReadsRaw | escape.go:37-38 | an ASCII byte is in the linked safe set exactly when the JSON reader reads it, alone, back as itself |
| Escape.AsciiUnit | escape.go:51-77 | an ASCII byte is one unit; it is copied as itself exactly when it is in the safe set, and otherwise escaped to ASCII bytes |
| Escape.MultiUnit | escape.go:78-98 | a unit starting at or above 0x80 has the decoded size, and is copied verbatim exactly when it decodes validly to something other than U+2028/U+2029 |
| Escape.Esc | escape.go:48-103 | the escaped body is never shorter than the input, and is empty exactly when the input is |
| Escape.Quoted | escape.go:42-108 | the output is at least two bytes longer than the input and has `"` at both ends |
| Escape.QuotedNoRawSeparators | escape.go:42-108 | the whole quoted output is valid UTF-8 with no raw U+2028 or U+2029 |
| Escape.NoRawSeparatorsAppend | escape.go:48-103 | joining two separator-free byte sequences gives a separator-free one |
| Escape.ScriptTagCopied | escape.go:37-38 | `<`, `/`, `>` and `&` are copied unescaped, since the linked table is the plain JSON safe set |
| Utf8.DecodeExtend | escape.go:78 | bytes after a validly decoded unit do not change its decoding |
| Utf8.Decode | escape.go:78 | empty input gives size 0; ASCII gives the byte with size 1; a non-ASCII byte that is decoded with size 1 is `RuneError`; the size never exceeds 4 or the input |
| Utf8.DecodeValid | escape.go:78 | a result of size 2 to 4 is a scalar value of U+0080 or above whose shortest encoding is exactly the bytes consumed |
| Utf8.DecodeEncoded | escape.go:78 | when the encoding of a scalar value starts the input, decoding returns that value and length |
| Utf8.EncodeRune | escape.go:78 | the encoding is 1 to 4 bytes long, a single byte exactly for ASCII, and otherwise has every byte at or above 0x80 |

## Left out

- The `sync.Pool` of builders (escape.go:31-35, 46, 104-106): it caches
  allocations across calls and has no effect on the result. The builder is a
  fresh `seq<byte>` for each call.
- `e.Grow(2 + len(s))` (escape.go:47): it only reserves capacity.
- The `go:linkname` and blank `unsafe` and `encoding/json` imports
  (escape.go:23-26, 37-38): foreign linkage. `SafeSet` states the linked
  table's contents directly.
- Concurrent calls: the only shared state is the pool and the read-only
  table, and neither is modelled.
- The internals of Go's `unicode/utf8` are not part of this model. `Decode` is
  specified by section 4 of RFC 3629 and Go's error convention instead: every
  failure on non-empty input is `(RuneError, 1)`.
- The loop body is split into the methods `AsciiStep`, `MultiStep`,
  `WriteReplacement`, `WriteSeparator`, `Flush` and `AppendAsciiEscape`.
  Together they make the same writes in the same order as the inline code.
- `hex[b>>4]`, `hex[b&0xF]` and `hex[c&0xF]` are modelled as
  `HexDigit(b / 16)`, `HexDigit(b % 16)` and `HexDigit(c % 16)`. The operands
  are never negative, so these agree.
- The loop invariant is stated in suffix form. The written bytes, the pending
  run and the escape of the rest add up to the opening quote and `Esc(s)`. It
  does not separately state that the written bytes are `"` + `Esc(s[..start])`,
  nor that every unit of the pending run `s[start..i]` escapes to itself.
- `JsonString.Unescape` refuses a `\u` escape that names a surrogate, which
  RFC 8259 allows in pairs. The escaper never writes one.
- HTML escaping of `<`, `>` and `&`. escape.go:37-38 names the linked table
  `htmlSafeSet`, and the doc comment at escape.go:40-41 says the function acts
  like `json.Marshal`, which escapes those three bytes as `\u003c`, `\u003e`
  and `\u0026`. The linkage, however, points at the plain
  `encoding/json.safeSet`, where all three are safe, so the code copies them;
  the model follows the code (`ScriptTagCopied`). `EscNoRawSeparators` and
  `QuotedNoRawSeparators` therefore claim only valid UTF-8 without raw
  U+2028/U+2029, not HTML safety.
- 0x7F is in the safe set, so it is copied (`SafeSet`).
