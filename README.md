# ReliableTXT in Dafny

ReliableTXT is a text-file format whose documents always start with a
preamble: the byte-order mark U+FEFF written in the document's encoding.
A reader can therefore always tell the encoding. The repository holds two
versions of the Python library:

- a legacy module, `stenway/reliabletxt.py`, with four encodings (UTF-8,
  UTF-16 big-endian, UTF-16 little-endian "reverse", UTF-32 big-endian);
- a UTF-8-only package, `src/reliabletxt/`.

This project models the core of both versions and proves properties about
that model:

- **Byte codecs.** Python's `str.encode` / `bytes.decode` are modelled as the
  standards they implement:
  - `Utf8`: sections 3 and 4 of RFC 3629;
  - `Utf16`: sections 2.1 and 2.2 of RFC 2781, in both byte orders;
  - `Utf32`: UTF-32BE as in section 3.10 of the Unicode Standard.

  Decoding is strict: ill-formed input is an error and is never replaced.
  The `Codecs` module selects a codec by encoding and lifts it from single
  characters to whole texts. It proves both round trips:
  - every text decodes back from its encoding;
  - every buffer that decodes is exactly the encoding of its result.
- **`LegacyReliableTxt`** (the legacy module): preamble detection
  (`getEncoding`), `decode`, `encode`, and the mutable `Document` (text plus
  encoding).
- **`ReliableTxt`** (the package): UTF-8 `encode` and `decode`, and the
  mutable `Document` with its read-only flag.
- **`CodePoints`**: `chars_to_ords` / `ords_to_chars`, defined once. The
  package repeats them in `src/reliabletxt/__init__.py:14-35`, and the legacy
  module's `StringUtil` (`stenway/reliabletxt.py:112-120`) is the same code.
- **`Lines`**: `ReliableTxtLines.split` / `join`.
- **`CharIterators`**: `ReliableTxtCharIterator`, defined once. The legacy
  class (`stenway/reliabletxt.py:123-151`) and the package class
  (`src/reliabletxt/__init__.py:109-137`) are the same code under different
  names (`_index`/`_ix`, `isEndOfText`/`is_eof`, …).
  - The code points are a `const`, so they never change.
  - `TryReadChar` is the only mutator.
  - `GetLineInfo` is a loop, proved against a closed form: the line index is
    the number of NEW_LINEs (0x0A) before the cursor, and the column is the
    number of code points since the last one. The model also proves that
    this is the position of the cursor in `split(text[:cursor])`.
- **`Versions`**: how the two decoders differ and where they agree.

Representation:

- Bytes are `Byte` (an `int` in 0..255).
- A Dafny `char` is a Unicode scalar value, so a code point is `c as int`.
- A Python exception becomes an `Err` or `Fail` with one of these kinds:
  - `MissingPreamble`: the legacy "no ReliableTXT preamble" error, and the
    package's "not a ReliableTXT document" error;
  - `DecodingError`: `UnicodeDecodeError`;
  - `EmptyContent`: the package's `IndexError` at `text[0]`;
  - `ReadOnlyViolation`;
  - `InvalidCodePoint`: `chr` refusing its argument.

Behaviour of the code that the model keeps:

- The legacy decoder decodes the whole buffer, preamble included, and then
  drops the first code point. `LegacyReliableTxt.DecodeAfterPreamble` proves
  that this is the same as strictly decoding the bytes after the preamble.
- The package decodes before it checks the BOM, so it reports an ill-formed
  buffer as a decoding error even when the buffer has no BOM. On empty
  content it fails with an `IndexError` at `text[0]` (`EmptyContent`), a
  third error kind.
- Only the package's `text` setter checks `read_only`. The `ords` setter
  replaces the text of a read-only document too.

Client methods show the contracts composing, using nothing but the
contracts:

- `LegacyReliableTxt.DocumentClient`: after `setCodePoints(cps)`,
  `getCodePoints()` returns `cps`; setting the text keeps the encoding; and
  the bytes `save` writes load back with that encoding.
- `ReliableTxt.DocumentClient`: a read-only document refuses `text = ...`
  and keeps its text, but accepts `ords = ...`.
- `CharIterators.IteratorClient`: the line info of `"ab\ncd\n"` at
  index 4 is (1, 1); `tryReadChar` consumes a matching character and leaves
  the cursor alone on a mismatch; and reading the one character of `"x"`
  reaches the end of the text.

## Model

| member | source | states |
|---|---|---|
| `Utf8.EncodeChar` | src/reliabletxt/__init__.py:49 | a character's UTF-8 form has 1 to 4 bytes, and has one byte exactly when that byte is below 0x80 (ASCII) |
| `Utf8.DecodePrefix` | src/reliabletxt/__init__.py:58 | an accepted character uses at least one and at most the available bytes |
| `Utf8.DecodeEncodeChar` | src/reliabletxt/__init__.py:49 | the UTF-8 bytes of any character decode to that character and use all of its bytes, whatever follows |
| `Utf8.EncodeDecodeChar` | src/reliabletxt/__init__.py:58 | bytes accepted as a character are exactly that character's encoding, so overlong forms, surrogates and values above U+10FFFF are refused |
| `Utf16.UnitBytes` | stenway/reliabletxt.py:19-20 | a code unit is two bytes |
| `Utf16.EncodeChar` | stenway/reliabletxt.py:26-28 | a character is one code unit or a surrogate pair: 2 or 4 bytes |
| `Utf16.DecodePrefix` | stenway/reliabletxt.py:60-63 | an accepted character uses at least one and at most the available bytes |
| `Utf16.DecodeEncodeChar` | stenway/reliabletxt.py:26-28 | in either byte order, a character's UTF-16 bytes (including a surrogate pair) decode back to it |
| `Utf16.EncodeDecodeChar` | stenway/reliabletxt.py:60-63 | accepted bytes are exactly a character's encoding: lone surrogates and truncated units are refused |
| `Utf32.EncodeChar` | stenway/reliabletxt.py:21 | a character is four bytes |
| `Utf32.DecodePrefix` | stenway/reliabletxt.py:63 | an accepted character uses at least one and at most the available bytes |
| `Utf32.DecodeEncodeChar` | stenway/reliabletxt.py:26-28 | a character's UTF-32BE bytes decode back to it |
| `Utf32.EncodeDecodeChar` | stenway/reliabletxt.py:60-63 | accepted bytes are exactly a character's encoding: surrogates and values of 0x110000 or more are refused |
| `Codecs.Preamble` | stenway/reliabletxt.py:34-55 | every preamble has 2 to 4 bytes |
| `Codecs.PreambleIsEncodedBom` | stenway/reliabletxt.py:99-100 | each preamble is exactly U+FEFF encoded in its own encoding, which is what `save` writes first |
| `Codecs.EncodeChar` | stenway/reliabletxt.py:28 | every character takes at least one byte in every encoding |
| `Codecs.DecodePrefix` | stenway/reliabletxt.py:63 | a decoded character uses at least one and at most the available bytes |
| `Codecs.Encode` | stenway/reliabletxt.py:28 | `str.encode`: the bytes are at least as many as the characters, and empty exactly for the empty text; `DecodeEncode` and `EncodeDecode` state its meaning as the inverse of `Decode` |
| `Codecs.Decode` | stenway/reliabletxt.py:63 | `bytes.decode` in strict mode: a decoded text has at most as many characters as the buffer has bytes, and is "" exactly for the empty buffer; `DecodeEncode` and `EncodeDecode` state that it succeeds exactly on encodings and inverts `Encode` |
| `Codecs.DecodeEncodeChar` | stenway/reliabletxt.py:28 | in every encoding, a character's bytes decode to it, whatever follows |
| `Codecs.EncodeDecodeChar` | stenway/reliabletxt.py:63 | in every encoding, accepted bytes are the encoding of the decoded character |
| `Codecs.EncodeAppend` | stenway/reliabletxt.py:28 | encoding a concatenation gives the concatenation of the encodings |
| `Codecs.DecodeCons` | stenway/reliabletxt.py:63 | decoding a character's bytes followed by more bytes puts the character in front of the rest, and fails exactly when the rest fails |
| `Codecs.DecodeEncode` | stenway/reliabletxt.py:26-28 | decoding the encoding of any text gives the text, in every encoding |
| `Codecs.EncodeDecode` | stenway/reliabletxt.py:60-63 | a buffer that decodes is exactly the encoding of its result, so no byte is skipped or replaced |
| `Codecs.DecodeAppend` | stenway/reliabletxt.py:63 | two encoded texts placed one after the other decode to the two texts one after the other |
| `CodePoints.ToOrds` | src/reliabletxt/utils.py:10-19 | the result has the text's length, and its i-th entry is the code point of the i-th character (always a scalar value) |
| `CodePoints.FromOrds` | src/reliabletxt/utils.py:22-31 | succeeds exactly when every entry is a scalar value; the text then has the list's length and its i-th character has code point `o[i]` |
| `CodePoints.FromOrdsToOrds` | src/reliabletxt/utils.py:10-31 | `ords_to_chars(chars_to_ords(s)) == s` for every text |
| `CodePoints.ToOrdsFromOrds` | src/reliabletxt/utils.py:10-31 | `chars_to_ords(ords_to_chars(o)) == o` whenever every entry is a scalar value |
| `CodePoints.Examples` | tests/test_utils.py:5-26 | empty maps to empty, and "abc" corresponds to [97, 98, 99] in both directions |
| `Lines.Split` | stenway/reliabletxt.py:9-10 | a split has at least one piece |
| `Lines.Join` | stenway/reliabletxt.py:13-14 | the first line starts the result, and the result has at least `len(lines) - 1` characters; `JoinSplit`, `SplitJoin` and `JoinCount` state its meaning |
| `Lines.JoinCount` | stenway/reliabletxt.py:13-14 | joining a non-empty list of newline-free lines inserts exactly one "\n" fewer than there are lines |
| `Lines.JoinSplit` | stenway/reliabletxt.py:7-14 | `join(split(t)) == t` |
| `Lines.SplitHasNoNewline` | stenway/reliabletxt.py:9-10 | no piece of a split contains "\n" |
| `Lines.SplitCount` | stenway/reliabletxt.py:9-10 | a split has one more piece than the text has newlines |
| `Lines.SplitJoin` | stenway/reliabletxt.py:7-14 | `split(join(ls)) == ls` for a non-empty list of newline-free lines |
| `Lines.SplitOfLine` | stenway/reliabletxt.py:9-10 | a newline-free prefix is glued to the first piece of the rest's split |
| `Lines.SplitSnoc` | stenway/reliabletxt.py:9-10 | appending "\n" starts a new empty piece; appending any other character extends the last piece |
| `LegacyReliableTxt.Encode` | stenway/reliabletxt.py:24-28 | the encoder's output, which has no preamble, decodes back to the text in the same encoding |
| `LegacyReliableTxt.GetEncoding` | stenway/reliabletxt.py:33-57 | returns encoding e exactly when e's preamble starts the buffer, and otherwise fails with MissingPreamble |
| `LegacyReliableTxt.DropFirst` | stenway/reliabletxt.py:64 | `text[1:]`: the first character followed by the result is the text, and the empty text stays empty |
| `LegacyReliableTxt.Decode` | stenway/reliabletxt.py:60-65 | `ReliableTxtDecoder.decode`: fails only with MissingPreamble or DecodingError, and on success the detected encoding's preamble starts the buffer; `DecodeReportsMissingPreambleFirst` and `DecodeAfterPreamble` state the full result |
| `LegacyReliableTxt.PreamblesArePrefixFree` | stenway/reliabletxt.py:34-55 | no preamble is a prefix of another, so at most one can match |
| `LegacyReliableTxt.ShortBufferHasNoPreamble` | stenway/reliabletxt.py:34-57 | the empty buffer and every 1-byte buffer fail detection and decoding with MissingPreamble |
| `LegacyReliableTxt.DecodeReportsMissingPreambleFirst` | stenway/reliabletxt.py:60-61 | decode fails with MissingPreamble exactly when no preamble starts the buffer, whatever the later bytes are |
| `LegacyReliableTxt.DecodeAfterPreamble` | stenway/reliabletxt.py:60-65 | once e is detected, decode returns e and the strict decoding of the bytes after the preamble, or DecodingError when those bytes are ill-formed; so exactly the leading U+FEFF is dropped |
| `LegacyReliableTxt.DecodePreambleOnly` | stenway/reliabletxt.py:60-65 | a buffer holding only a preamble decodes to its encoding and "" |
| `LegacyReliableTxt.RoundTrip` | stenway/reliabletxt.py:96-109 | for every text t and encoding e, `decode(encode("\uFEFF" + t, e)) == (e, t)` |
| `LegacyReliableTxt.DecodeExamples` | stenway/reliabletxt.py:33-65 | ASCII "hello" has no preamble; EF BB BF 80 is a decoding error; U+1D11E is D834 DD1E in UTF-16 (bytes swapped in the reverse order) |
| `LegacyReliableTxt.Document.constructor` | stenway/reliabletxt.py:69-73 | stores the given text and encoding (by default "" and UTF-8) |
| `LegacyReliableTxt.Document.SetEncoding` | stenway/reliabletxt.py:75-76 | replaces the encoding and keeps the text |
| `LegacyReliableTxt.Document.SetText` | stenway/reliabletxt.py:78-79 | replaces the text and keeps the encoding |
| `LegacyReliableTxt.Document.GetEncoding` | stenway/reliabletxt.py:81-82 | returns the stored encoding |
| `LegacyReliableTxt.Document.GetText` | stenway/reliabletxt.py:84-85 | returns the stored text |
| `LegacyReliableTxt.Document.GetBytes` | stenway/reliabletxt.py:87-88 | returns the text encoded in the document's encoding with no preamble, and those bytes decode back to the text |
| `LegacyReliableTxt.Document.GetCodePoints` | stenway/reliabletxt.py:90-91 | returns one entry per character: its code point |
| `LegacyReliableTxt.Document.SetCodePoints` | stenway/reliabletxt.py:93-94 | succeeds exactly when every entry is a scalar value; `getCodePoints` then returns the list; on failure the text is unchanged; the encoding is always unchanged |
| `LegacyReliableTxt.Document.SaveBytes` | stenway/reliabletxt.py:96-101 | returns the bytes `save` writes (U+FEFF and the text, encoded), and they decode to this document's encoding and text |
| `LegacyReliableTxt.Document.Load` | stenway/reliabletxt.py:103-109 | returns a new document holding the decoded text and the detected encoding, or the decoder's error |
| `ReliableTxt.Encode` | src/reliabletxt/__init__.py:41-49 | the UTF-8 bytes of the text decode back to it |
| `ReliableTxt.Decode` | src/reliabletxt/__init__.py:52-61 | `ReliableTxt.decode`: fails only with DecodingError, EmptyContent or MissingPreamble, and a result is shorter than the content; `DecodeSucceedsIff` states when it succeeds and what it returns, and `DecodeErrorKinds` states exactly when each error kind occurs |
| `ReliableTxt.DecodeWithBom` | src/reliabletxt/__init__.py:58-61 | a buffer that starts with EF BB BF decodes as UTF-8 to U+FEFF plus the decoding of the rest |
| `ReliableTxt.DecodeSucceedsIff` | src/reliabletxt/__init__.py:51-61 | decode succeeds exactly when the content is well-formed UTF-8 and starts with EF BB BF; it then returns the decoding of the bytes after them |
| `ReliableTxt.DecodeErrorKinds` | src/reliabletxt/__init__.py:58-61 | DecodingError exactly when the content is ill-formed UTF-8; EmptyContent exactly when the content is empty; MissingPreamble ("not a ReliableTXT document") exactly when the content is well-formed, non-empty and does not start with EF BB BF |
| `ReliableTxt.IllFormedIsDecodingError` | src/reliabletxt/__init__.py:58-60 | ill-formed UTF-8 is a DecodingError, with or without a BOM |
| `ReliableTxt.EmptyAndBomOnly` | src/reliabletxt/__init__.py:58-59 | empty content fails with EmptyContent; a BOM-only buffer decodes to "" |
| `ReliableTxt.RoundTrip` | src/reliabletxt/__init__.py:96-106 | for every text t, `decode(encode("\uFEFF" + t)) == t` |
| `ReliableTxt.EncodeAddsNoBom` | src/reliabletxt/__init__.py:41-49 | `encode("")` is empty, and the output starts with EF BB BF exactly when the text starts with U+FEFF |
| `ReliableTxt.SupplementaryCharacter` | tests/test_preamble.py:34 | U+1D11E encodes as F0 9D 84 9E and decodes back to a single code point, 0x1D11E |
| `ReliableTxt.TableOneByte` | tests/test_preamble.py:22-23 | the table's ASCII rows: `a` is 61 and `~` is 7E |
| `ReliableTxt.TableTwoByteC2` | tests/test_preamble.py:24-27 | the table's rows U+00A5, U+00BB, U+00BD and U+00BF are C2 A5, C2 BB, C2 BD and C2 BF |
| `ReliableTxt.TableTwoByteC3C5` | tests/test_preamble.py:28-31 | the table's rows U+00DF, U+00E4, U+00EF and U+0153 are C3 9F, C3 A4, C3 AF and C5 93 |
| `ReliableTxt.TableThreeByte` | tests/test_preamble.py:32-33 | the table's rows U+20AC and U+6771 are E2 82 AC and E6 9D B1 |
| `ReliableTxt.TableFourByte` | tests/test_preamble.py:35 | the table's row U+20007 is F0 A0 80 87 |
| `ReliableTxt.Document.constructor` | src/reliabletxt/__init__.py:65-67 | stores the text and the read-only flag (by default "" and writable) |
| `ReliableTxt.Document.ReadOnly` | src/reliabletxt/__init__.py:69-71 | returns the flag; it is a constant, so it never changes after construction |
| `ReliableTxt.Document.Text` | src/reliabletxt/__init__.py:73-75 | returns the stored text |
| `ReliableTxt.Document.SetText` | src/reliabletxt/__init__.py:77-82 | a read-only document fails with ReadOnlyViolation and keeps its text; any other document has its text replaced |
| `ReliableTxt.Document.Content` | src/reliabletxt/__init__.py:84-86 | returns the UTF-8 encoding of the text, which decodes back to the text once a BOM is put in front |
| `ReliableTxt.Document.Ords` | src/reliabletxt/__init__.py:88-90 | returns `chars_to_ords(text)` |
| `ReliableTxt.Document.SetOrds` | src/reliabletxt/__init__.py:92-94 | sets the text to `ords_to_chars(ords)` without looking at the read-only flag; fails with nothing changed when an entry is not a scalar value |
| `ReliableTxt.Document.SaveBytes` | src/reliabletxt/__init__.py:96-100 | returns the bytes `save` writes (U+FEFF, then the text, in UTF-8), and they decode to the text |
| `ReliableTxt.Document.Load` | src/reliabletxt/__init__.py:102-106 | returns a new writable document holding the decoded text, or the decoder's error |
| `CharIterators.LastNewline` | stenway/reliabletxt.py:131-136 | the position of the last 0x0A, or -1 when there is none: no 0x0A comes after it |
| `CharIterators.LineInfoIsPositionInSplit` | src/reliabletxt/__init__.py:114-123 | the number of NEW_LINEs in a text is the index of the last piece of its split on "\n", and the code points after the last NEW_LINE are that piece's length |
| `CharIterators.LineInfoOfText` | src/reliabletxt/__init__.py:109-123 | for an iterator over text t with its cursor at k, `get_line_info` gives the line and column of position k in `t.split("\n")` |
| `CharIterators.CharIterator.constructor` | src/reliabletxt/__init__.py:110-112 | the iterator holds the text's code points and starts at 0 |
| `CharIterators.CharIterator.GetLineInfo` | stenway/reliabletxt.py:128-137 | the result is (the number of 0x0A in `chars[0..index)`, the number of code points after the last 0x0A before the index, or `index` when there is none), and the state is unchanged |
| `CharIterators.CharIterator.IsEndOfText` | stenway/reliabletxt.py:139-140 | true exactly when the cursor is at the end |
| `CharIterators.CharIterator.IsChar` | stenway/reliabletxt.py:142-145 | false at the end of the text; otherwise true exactly when the code point under the cursor is c |
| `CharIterators.CharIterator.TryReadChar` | stenway/reliabletxt.py:147-151 | moves the cursor by exactly one and returns true when `isChar(c)`; otherwise returns false and changes nothing; the cursor stays in [0, len(chars)] |
| `Versions.ErrorOrderDiffers` | src/reliabletxt/__init__.py:58-60 | on a corrupt buffer with no preamble, the legacy decoder reports MissingPreamble and the package reports DecodingError |
| `Versions.ErrorOrderExamples` | tests/test_preamble.py:85-94 | the lone byte 80 and the empty buffer get different errors from the two versions |
| `Versions.SuccessAgrees` | src/reliabletxt/__init__.py:51-61 | the package decodes a buffer to t exactly when the legacy decoder decodes it to (UTF-8, t) |

## Left out

- File I/O: `save` and `load` open, read and write files. Only the byte
  layout they produce and consume is modelled (`SaveBytes`, `Load`). The
  text-mode `newline="\n"` option is not modelled either.
- Lone surrogates. A Python `str` can hold them, and encoding such a string
  raises `UnicodeEncodeError`. A Dafny `char` cannot be a surrogate, so the
  model has no encoding failure.
- `CodePoints.FromOrds`: refuses surrogate code points with InvalidCodePoint,
  like values outside 0..0x10FFFF. Python's `chr` accepts surrogates and the
  failure appears only when the text is later encoded. A Dafny `char` cannot
  hold a surrogate.
- `LegacyReliableTxt.Document.SetCodePoints`: fails with InvalidCodePoint on a
  surrogate entry, where Python's `chr` accepts it and the document stores
  it, because a Dafny `char` cannot hold a surrogate.
- `ReliableTxt.Document.SetOrds`: fails with InvalidCodePoint on a surrogate
  entry, where Python's `chr` accepts it and the document stores it, because
  a Dafny `char` cannot hold a surrogate.
- Error details: the exception messages, and the position and reason that a
  `UnicodeDecodeError` carries, are not modelled. Only the error kind is.
  The model tells the kinds apart by the exception's exact class. It does
  not keep the subclass relation: in Python `UnicodeDecodeError` is a
  `ValueError`, so `except ValueError` (as in `pytest.raises(ValueError)`)
  catches both DecodingError and the `ValueError` behind MissingPreamble.
- The `StrPath` / `PathLike` type aliases. They are type annotations only.
- The cost of `getLineInfo`: it rescans the text on every call, in time
  proportional to the index. The model states only its result.
- The test fixtures under `tests/assets` are not part of this model. Only
  the expected texts and the character table from the tests are used, as
  example lemmas.
