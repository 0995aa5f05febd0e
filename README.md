# SheenBidi codepoint sequence, modelled in Dafny

This project models `SBCodepointSequence`, SheenBidi's view of a caller's
text as a sequence of Unicode scalar values. A handle pairs an encoding tag
(UTF-8, UTF-16 or UTF-32) with a borrowed buffer of code units and its length,
and carries a reference count. Its one query decodes the scalar value at a
cursor and moves the cursor past the code units it consumed. Malformed input
never fails: it gives the result `Faulty` and a one-unit advance, and a cursor
that is absent or at/after the end gives `Invalid` and is left alone.

Files and modules:

- `unicode.dfy`, module `Unicode`: code-unit types, the encoding tag, the
  decode result `Codepoint = Scalar(v) | Faulty | Invalid`, the decode step
  (result and advance) and the scalar-value range.
- `utf8.dfy`, module `Utf8`: the UTF-8 decoder as written, a corrected
  decoder, the RFC 3629 encoder as a ghost function, and their round trips.
- `utf16.dfy`, module `Utf16`: the UTF-16 decoder and surrogate pairs
  (RFC 2781).
- `utf32.dfy`, module `Utf32`: the UTF-32 range check.
- `codepoint_sequence.dfy`, module `Sequences`: the dispatcher, the
  decode-at-cursor query on values, and the class `CodepointSequence` with
  creation, decode-in-place, retain and release.
- `walk.dfy`, module `Walks`: what a caller gets by calling the query again
  and again from cursor 0 to the end of the buffer, and the round trip of
  whole strings of scalar values through that walk.

The C code computes on unsigned 32-bit values with masks, shifts and ORs. The
decoders here use remainders and sums instead. `Utf8.MaskIsRemainder`,
`Utf8.ShiftOrIsSum2`, `Utf8.ShiftOrIsSum3`, `Utf8.ShiftOrIsSum4` and `Utf16.PairFormulaDoesNotWrap` prove, over
`bv32`, that these agree for the operands the decoders meet.
`Utf8.Utf8TwoByteBranchIsC`, `Utf8.Utf8ThreeByteBranchIsC`,
`Utf8.Utf8FourByteBranchIsC` and `Utf16.Utf16PairIsC` then state each
branch's result in the code's own 32-bit expression. A continuation
byte is tested as the code does: the byte minus 0x80 is wrapped into an
unsigned 32-bit value, then compared with 0x3F (`Utf8.ContinuationPayload`).

Where the code and a plain reading of UTF-8 differ, the model follows the
code. The 2-byte branch masks the lead with `0xF`. The 3-byte branch demands a
value above 0x0800. So, unlike a strict round trip for every scalar value, the
decoder as written returns U+0400-U+07FF with bit 10 cleared and reports
U+0800 as Faulty. `Utf8.Utf8EncodeThenDecode` states this exactly. The handle
decodes with this as-written decoder. The corrected decoder is kept beside it
in the Findings below.

## Model

| member | source | states |
|---|---|---|
| `Utf8.ContinuationPayload` | SheenBidi/Source/SBCodepointSequence.c:136-138 | the wrapped `byte - 0x80` is at most 0x3F exactly when the byte is in 0x80-0xBF, and is then the byte's 6-bit payload |
| `Utf8.MaskIsRemainder` | SheenBidi/Source/SBCodepointSequence.c:135-165 | on 32-bit values below 0x100, `& 0xF`, `& 0x1F`, `& 0x7` are remainders by 0x10, 0x20, 0x8 |
| `Utf8.ShiftOrIsSum2` | SheenBidi/Source/SBCodepointSequence.c:139-140 | `lead << 6` OR-ed with the payload is `lead * 0x40 + payload` |
| `Utf8.ShiftOrIsSum3` | SheenBidi/Source/SBCodepointSequence.c:153-155 | the three-field OR equals the sum of the shifted fields |
| `Utf8.ShiftOrIsSum4` | SheenBidi/Source/SBCodepointSequence.c:171-174 | the four-field OR equals the sum of the shifted fields |
| `Utf8.DecodeUtf8` | SheenBidi/Source/SBCodepointSequence.c:103-185 | for an in-range cursor: advance 1 to 4, never past the end; never Invalid; Faulty advances exactly 1; an accepted value is a Unicode scalar value |
| `Utf8.EncodeUtf8` | SheenBidi/Source/SBCodepointSequence.c:110-124 | the table's shortest form: 1 to 4 bytes, one byte exactly below 0x80, every byte after the lead a continuation byte |
| `Utf8.Utf8TwoByteEncodeThenDecode` | SheenBidi/Source/SBCodepointSequence.c:133-145 | the 2-byte form of U+0080-U+03FF decodes to itself, that of U+0400-U+07FF to the value minus 0x400; advance 2 |
| `Utf8.Utf8ThreeByteEncodeThenDecode` | SheenBidi/Source/SBCodepointSequence.c:146-162 | the 3-byte form of a non-surrogate in (0x0800, 0xFFFF] decodes to itself with advance 3; that of U+0800 is Faulty with advance 1 |
| `Utf8.Utf8FourByteEncodeThenDecode` | SheenBidi/Source/SBCodepointSequence.c:163-182 | the 4-byte form of every value in [0x10000, 0x10FFFF] decodes to itself with advance 4 |
| `Utf8.Utf8EncodeThenDecode` | SheenBidi/Source/SBCodepointSequence.c:126-184 | for every scalar value: decoding its encoding gives the value and its encoded length, except U+0400-U+07FF (bit 10 cleared) and U+0800 (Faulty) |
| `Utf8.Utf8RoundTripsExactly` | SheenBidi/Source/SBCodepointSequence.c:131-184 | a scalar value round-trips if and only if it lies outside U+0400-U+0800 |
| `Utf8.Utf8TwoByteBranchIsC` | SheenBidi/Source/SBCodepointSequence.c:133-145 | a lead in 0xC2-0xDF and a continuation byte decode to the code's unsigned 32-bit `((lead & 0xF) << 6) \| (cont - 0x80)`, with advance 2 |
| `Utf8.Utf8ThreeByteBranchIsC` | SheenBidi/Source/SBCodepointSequence.c:146-162 | a lead in 0xE0-0xEF and two continuation bytes decode to the code's unsigned 32-bit three-field expression with advance 3 when it is above 0x0800 and not a surrogate, and to Faulty with advance 1 otherwise |
| `Utf8.Utf8FourByteBranchIsC` | SheenBidi/Source/SBCodepointSequence.c:163-182 | a lead in 0xF0-0xF4 and three continuation bytes decode to the code's unsigned 32-bit four-field expression with advance 4 when it lies in [0x10000, 0x10FFFF], and to Faulty with advance 1 otherwise |
| `Utf8.Utf8MaskDropsBit10` | SheenBidi/Source/SBCodepointSequence.c:135-143 | D0 80, the encoding of U+0400, decodes to U+0000 with advance 2 |
| `Utf8.Utf8RejectsU0800` | SheenBidi/Source/SBCodepointSequence.c:157-160 | E0 A0 80, the encoding of U+0800, is Faulty with advance 1 |
| `Utf8.Utf8TwoByteToAscii` | SheenBidi/Source/SBCodepointSequence.c:135-143 | the 2-byte forms D0 AF and D1 81 (U+042F, U+0441) decode as written to the ASCII characters U+002F and U+0041, while the corrected decoder gives U+042F and U+0441 |
| `Utf8.Utf8TwoByteDecodedIsEncoding` | SheenBidi/Source/SBCodepointSequence.c:133-145 | an accepted 2-byte form gives a value below 0x400; its bytes encode that value (lead below 0xD0) or that value plus 0x400 |
| `Utf8.Utf8ThreeByteDecodedIsEncoding` | SheenBidi/Source/SBCodepointSequence.c:146-162 | the three bytes of an accepted 3-byte form are the encoding of the value returned (no overlong form, no surrogate) |
| `Utf8.Utf8FourByteDecodedIsEncoding` | SheenBidi/Source/SBCodepointSequence.c:163-182 | the four bytes of an accepted 4-byte form are the encoding of the value returned |
| `Utf8.Utf8DecodedIsEncoding` | SheenBidi/Source/SBCodepointSequence.c:126-184 | whatever is accepted consumed exactly the encoding of its value, with the 2-byte exception above |
| `Utf8.Utf8InvalidLeadIsFaulty` | SheenBidi/Source/SBCodepointSequence.c:127-184 | a lead in 0x80-0xC1 or 0xF5-0xFF is Faulty with advance 1 |
| `Utf8.DecodeUtf8Corrected` | SheenBidi/Source/SBCodepointSequence.c:133-160 | the decoder with mask 0x1F and `>= 0x0800`: same bounds, advance and scalar-value guarantees as the decoder as written |
| `Utf8.Utf8CorrectionChangesOnly` | SheenBidi/Source/SBCodepointSequence.c:135-157 | the corrected and as-written decoders differ exactly on a 0xD0-0xDF lead followed by a continuation byte, and on E0 A0 80 |
| `Utf8.Utf8CorrectedEncodeThenDecode` | SheenBidi/Source/SBCodepointSequence.c:110-124 | the corrected decoder round-trips every scalar value with the advance equal to its encoded length |
| `Utf8.Utf8CorrectedTwoByteDecodedIsEncoding` | SheenBidi/Source/SBCodepointSequence.c:133-145 | with mask 0x1F, the two bytes of an accepted 2-byte form are the encoding of the value returned |
| `Utf8.Utf8CorrectedDecodedIsEncoding` | SheenBidi/Source/SBCodepointSequence.c:110-124 | what the corrected decoder accepts is exactly the encoding of the value it returns |
| `Utf8.Utf8CorrectedAcceptedReadsOnlyItsUnits` | SheenBidi/Source/SBCodepointSequence.c:126-182 | a value the corrected decoder accepts from units u is accepted, with the same advance, wherever u stands in a longer buffer |
| `Utf8.Utf8CorrectedDecodesEncodingAnywhere` | SheenBidi/Source/SBCodepointSequence.c:110-124 | at any cursor where a buffer holds the encoding of a scalar value, the corrected decoder returns that value with the encoding's length as advance |
| `Utf16.DecodeUtf16` | SheenBidi/Source/SBCodepointSequence.c:187-214 | for an in-range cursor: advance 1 or 2, never past the end; never Invalid; Faulty advances 1; values are scalar values; a two-unit decode lies in [0x10000, 0x10FFFF] |
| `Utf16.PairFormulaDoesNotWrap` | SheenBidi/Source/SBCodepointSequence.c:207 | the unsigned 32-bit pair formula equals `(h - 0xD800) * 0x400 + (l - 0xDC00) + 0x10000` and lies in [0x10000, 0x10FFFF] |
| `Utf16.Utf16PairIsC` | SheenBidi/Source/SBCodepointSequence.c:201-209 | a high surrogate followed by a low surrogate decodes to the value of the code's unsigned 32-bit expression `(high << 10) + low - ((0xD800 << 10) + 0xDC00 - 0x10000)`, with advance 2 |
| `Utf16.EncodeUtf16` | SheenBidi/Source/SBCodepointSequence.c:199-207 | one unit below 0x10000, otherwise a high surrogate followed by a low surrogate |
| `Utf16.Utf16SurrogatePair` | SheenBidi/Source/SBCodepointSequence.c:201-209 | a high surrogate followed by a low surrogate decodes to the RFC 2781 value with advance 2 |
| `Utf16.Utf16FaultyExactly` | SheenBidi/Source/SBCodepointSequence.c:194-211 | Faulty exactly for a lone low surrogate, a high surrogate at the end, or a high surrogate not followed by a low one |
| `Utf16.Utf16EncodeThenDecode` | SheenBidi/Source/SBCodepointSequence.c:187-214 | every scalar value round-trips with the advance equal to its encoded length |
| `Utf16.Utf16DecodedIsEncoding` | SheenBidi/Source/SBCodepointSequence.c:199-211 | the units an accepted decode consumed are exactly the encoding of the value returned |
| `Utf32.DecodeUtf32` | SheenBidi/Source/SBCodepointSequence.c:216-232 | advance exactly 1; never Invalid; an accepted value is the unit itself |
| `Utf32.Utf32AcceptsExactlyScalars` | SheenBidi/Source/SBCodepointSequence.c:222-229 | the unit is returned if and only if it is a scalar value (at most 0x10FFFF, not a surrogate), otherwise Faulty |
| `Utf32.Utf32EncodeThenDecode` | SheenBidi/Source/SBCodepointSequence.c:222-229 | every scalar value round-trips as a single unit |
| `Sequences.DecodeAt` | SheenBidi/Source/SBCodepointSequence.c:52-65 | dispatch on the encoding: advance between 1 and 4 (2 for UTF-16, 1 for UTF-32), never past the end; never Invalid; Faulty advances 1; values are scalar values |
| `Sequences.Utf8ReadsOnlyWindow` | SheenBidi/Source/SBCodepointSequence.c:126-182 | a UTF-8 decode depends only on the units from the cursor up to 4 on, below the length (the `remaining > 1/2/3` guards) |
| `Sequences.Utf8CorrectedReadsOnlyWindow` | SheenBidi/Source/SBCodepointSequence.c:126-182 | the corrected UTF-8 decode at cursor i depends only on the units from i up to four on, or to the end of the buffer, as the code's `remaining` guards allow |
| `Sequences.Utf16ReadsOnlyWindow` | SheenBidi/Source/SBCodepointSequence.c:194-211 | a UTF-16 decode depends only on the unit at the cursor and the next one when it lies below the length |
| `Sequences.DecodeReadsOnlyWindow` | SheenBidi/Source/SBCodepointSequence.c:103-232 | a decode depends only on the at most 4 (2, 1) units from the cursor on that lie below the length |
| `Sequences.CodepointAt` | SheenBidi/Source/SBCodepointSequence.c:48-69 | absent cursor or cursor at/after the length: Invalid, cursor unchanged; otherwise not Invalid, the cursor advances 1 to 4 units without passing the length, and by exactly 1 on Faulty |
| `Sequences.CodepointSequence.Init` | SheenBidi/Source/SBCodepointSequence.c:93-97 | a live handle holding the given encoding, buffer and length, with a count of 1 |
| `Sequences.CodepointSequence.CreateWithEncoding` | SheenBidi/Source/SBCodepointSequence.c:87-101 | no handle exactly when the buffer is absent or the length is 0; otherwise a fresh live handle with the given encoding, buffer and length and a count of 1 |
| `Sequences.CodepointSequence.CreateWithUTF8String` | SheenBidi/Source/SBCodepointSequence.c:33-36 | as CreateWithEncoding, with the UTF-8 tag |
| `Sequences.CodepointSequence.CreateWithUTF16String` | SheenBidi/Source/SBCodepointSequence.c:38-41 | as CreateWithEncoding, with the UTF-16 tag |
| `Sequences.CodepointSequence.CreateWithUTF32String` | SheenBidi/Source/SBCodepointSequence.c:43-46 | as CreateWithEncoding, with the UTF-32 tag |
| `Sequences.CodepointSequence.GetCodepointAt` | SheenBidi/Source/SBCodepointSequence.c:48-69 | the result and the new cursor are those of CodepointAt for the handle's encoding and units; an absent cursor gives Invalid |
| `Sequences.CodepointSequence.Retain` | SheenBidi/Source/SBCodepointSequence.c:71-78 | returns the same handle; a live handle's count grows by 1; an absent handle is left alone |
| `Sequences.CodepointSequence.Release` | SheenBidi/Source/SBCodepointSequence.c:80-85 | the count drops by 1 and the handle is freed exactly when it reaches 0; otherwise it stays live; an absent handle is left alone |
| `Sequences.CodepointSequence.RetainsThenReleases` | SheenBidi/Source/SBCodepointSequence.c:71-85 | after n retains of a new handle and m <= n + 1 releases, the handle is freed exactly when m == n + 1, and otherwise is live with retain count n + 1 - m |
| `Walks.Walk` | SheenBidi/Source/SBCodepointSequence.c:48-69 | repeated queries from cursor i to the end stop after at least one and at most `length - i` results |
| `Walks.WalkUnfold` | SheenBidi/Source/SBCodepointSequence.c:52-66 | a walk from a cursor before the end is the decode at the cursor followed by the walk from the advanced cursor |
| `Walks.WalkScalarStep` | SheenBidi/Source/SBCodepointSequence.c:52-66 | a decode giving value v with advance n makes v the first result, with the walk going on n units later |
| `Walks.WalkAtEnd` | SheenBidi/Source/SBCodepointSequence.c:52-68 | a walk from the end of the buffer yields nothing (the query returns Invalid there) |
| `Walks.WalkHasNoInvalid` | SheenBidi/Source/SBCodepointSequence.c:52-68 | no result of a walk is Invalid: only the end of the buffer stops it, malformed units give Faulty and the walk goes on |
| `Walks.AcceptedReadsOnlyItsUnits` | SheenBidi/Source/SBCodepointSequence.c:103-232 | an accepted decode depends only on the units it consumes: the same units anywhere in a buffer decode to the same step |
| `Walks.WalkFirstPiece` | SheenBidi/Source/SBCodepointSequence.c:52-66 | in units made of pieces that each decode on their own, the first piece yields its value and the walk resumes at the next piece |
| `Walks.WalkConcat` | SheenBidi/Source/SBCodepointSequence.c:48-69 | walking units made of pieces that each decode on their own gives back their values, one result per piece |
| `Walks.EncodeScalar` | SheenBidi/Source/SBCodepointSequence.c:110-124 | the encoded form of a scalar value has 1 to 4 (2, 1) units, each fitting the encoding's unit width |
| `Walks.RoundTripsExactly` | SheenBidi/Source/SBCodepointSequence.c:103-232 | a scalar value's encoding decodes on its own to the value, with the advance of its length, for every value in UTF-16 and UTF-32 and exactly outside U+0400-U+0800 in UTF-8 |
| `Walks.EncodingsDecode` | SheenBidi/Source/SBCodepointSequence.c:103-232 | the encodings of round-tripping values each decode on their own to their value |
| `Walks.WalkRoundTrip` | SheenBidi/Source/SBCodepointSequence.c:48-69 | walking the concatenated encodings of scalar values gives back exactly those values; in UTF-8 as written, provided none lies in U+0400-U+0800 |

## Left out

- Memory management: `malloc` and `free` of the handle are not modelled. The
  ghost flag `freed` records the free. Using a freed handle is excluded by
  `Valid()`; in C it is undefined behaviour.
- Sequences.CodepointSequence.Retain: the count is an unbounded `nat`. The
  wrap of the machine-word `SBUInteger` counter is not modelled.
- Concurrency: the count is updated without synchronisation in the source.
  Concurrent retain and release are not modelled.
- Borrowed buffer: the handle keeps the caller's units as a value. A caller
  that changes its buffer while the handle lives is not modelled.
- The caller must pass a buffer of at least `length` units; the creation
  methods require it, since C cannot check it.
- `SBCodepointSequenceGetCodepointAt` with a null handle dereferences it in
  C; the model calls the query on a live handle only.
- The numeric values of `SBCodepointFaulty` and `SBCodepointInvalid` come from
  headers that are not part of this model. They are the constructors `Faulty`
  and `Invalid` here.
- `SBUInt8InRange`, `SBUInt16InRange` and `SBCodepointInRange` come from
  headers that are not part of this model. They are modelled as inclusive
  range tests.
- SheenBidi/Headers/SBLine.h: it holds only prototypes of line accessors,
  with no bodies, so it has no behaviour to model.
- Encoding (scalar value to code units) is not part of the library. The
  encoders here are ghost functions that exist to state the round trips.

## Findings

| source | as written | input that shows it | evidently intended | confidence | as-written member | corrected member |
|---|---|---|---|---|---|---|
| SheenBidi/Source/SBCodepointSequence.c:135 | the 2-byte lead is masked with `0xF`, keeping 4 of the 5 payload bits of `110xxxxx` | D0 80 (U+0400) decodes to U+0000, D0 AF (U+042F) to U+002F and D1 81 (U+0441) to U+0041: every value in U+0400-U+07FF loses bit 10, and the forms with lead D0 or D1 come out as ASCII characters (including NUL and solidus) | mask `0x1F`, so every 2-byte form decodes to its value | high; not executed | `Utf8.Utf8MaskDropsBit10`, `Utf8.Utf8TwoByteToAscii` | `Utf8.DecodeUtf8Corrected`, proved by `Utf8.Utf8CorrectedEncodeThenDecode` |
| SheenBidi/Source/SBCodepointSequence.c:157 | the 3-byte form requires `codepoint > 0x0800` | E0 A0 80 (U+0800, well-formed) is Faulty | `codepoint >= 0x0800`, which still rejects every overlong 3-byte form | high; not executed | `Utf8.Utf8RejectsU0800` | `Utf8.DecodeUtf8Corrected`, proved by `Utf8.Utf8CorrectedEncodeThenDecode` |

The handle's query keeps the decoder as written, since the model describes
what the library does. `Utf8.DecodeUtf8Corrected` is the repaired decoder.
`Utf8.Utf8CorrectedEncodeThenDecode` and `Utf8.Utf8CorrectedDecodedIsEncoding`
together show that, at a cursor, it accepts exactly the RFC 3629 encodings
of scalar values. `Utf8.Utf8CorrectedDecodesEncodingAnywhere` carries the
first of these to any cursor of a longer buffer, and
`Sequences.Utf8CorrectedReadsOnlyWindow` bounds what any of its decodes
reads. `Utf8.Utf8CorrectionChangesOnly` shows that these two repairs are the
only differences.
