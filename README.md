# The `fmt::rt::v2` command codec

This project models the formatting-command codec of `core::fmt::rt::v2`. A
formatting command (`Cmd`) has eight variants:

- `Literal`
- `SetWidth`, `SetPrecision`
- `SetWidthFromArg`, `SetPrecisionFromArg`
- `SetFlags`
- `FormatArg`
- `End`

`Cmd::encode` stores a command in two machine words, `ptr_or_val` and
`type_or_len`; this pair is an `EncodedCmd`. `EncodedCmd::decode` tells the
variants apart by comparing `type_or_len` against three tags. The tags are
the bit patterns `1`, `11` and `101` mirrored to the top of the word
(`HIGH_1`, `HIGH_11`, `HIGH_101`).

The width of `usize` is a parameter, `Width = W16 | W32 | W64`, because the
code branches on `usize::BITS == 16`. A machine word is a natural number
below `2^usize::BITS`. The bit operators are written out:

- `&` and `|` are recursive functions on naturals.
- `<<` and `>>` multiply and divide by powers of two.
- The casts `as u8`, `as u32` and `as usize` are remainders.
- `!` on a `usize` is a subtraction from `usize::MAX`.

Other values are modelled as follows:

- A text pointer, and a formatter function pointer, is an opaque address.
- A `Literal` is its span `(ptr, len)`.
- A `char` is its code point.

Files:

- `bits.dfy` (`Bitwise`): AND, OR, shifts, and the two facts the codec
  rests on. An OR of non-overlapping values is a sum, and an AND with a low
  mask is a remainder.
- `word.dfy` (`Word`): platform widths, the casts, and the three tags with
  their layout.
- `cmd.dfy` (`V2`): `Cmd`, `EncodedCmd`, the alignment code,
  `FormatterFn` equality, `Encode` and `Decode`. Decode is defined on the
  second words it classifies, and its fallback arm is `assert false`.
- `roundtrip.dfy` (`Properties`): the tag bands, the field ranges, and the
  round trip for every variant on every width (on 16 bits, `SetFlags` only
  for fillers below `0x10000`).
- `narrow.dfy` (`Narrow`): the 16-bit `SetFlags` defect (see "Findings"),
  the corrected decode, the full round trip with it, and injectivity of
  encode.

Where the encode test and the code disagree, the model follows the code.
The encode test (library/core/tests/fmt/v2.rs:18-22, 36) asserts that the
`char::MAX` `SetFlags` command round-trips on every platform. On a 16-bit
platform the code does not do this (see "Findings"). Encode puts the five
spilled filler bits in bits 0-4 of `type_or_len`, below the flag byte in
bits 5-12 (library/core/src/fmt/rt/v2.rs:126), and decode as written drops
them.

## Model

| member | source | states |
|---|---|---|
| Word.TagsAreMirroredPatterns | library/core/src/fmt/rt/v2.rs:75-77 | each tag is `0b1`, `0b11` or `0b101` bit-reversed within `usize::BITS` bits, on every width |
| Word.TagLayout | library/core/src/fmt/rt/v2.rs:75-77 | with `q = 2^(BITS-2)`: `HIGH_1 = 2q`, `HIGH_11 = 3q`, `HIGH_101 = 5q/2`, `usize::MAX + 1 = 4q`, so `!HIGH_11 = q - 1` |
| Word.SmallTags | library/core/src/fmt/rt/v2.rs:90-105 | `HIGH_1 \| k` is `HIGH_1 + k` for k = 2..5, and all of them are below `HIGH_101` |
| Word.Not | library/core/src/fmt/rt/v2.rs:156 | the complement of a `usize` is a `usize` |
| Word.AsU8 | library/core/src/fmt/rt/v2.rs:163-165 | `as u8` yields a byte and keeps a byte unchanged |
| Word.AsU32 | library/core/src/fmt/rt/v2.rs:163-165 | `as u32` yields a `u32` and keeps a `u32` unchanged |
| Word.U32AsUsize | library/core/src/fmt/rt/v2.rs:120-126 | `as usize` of a `u32` yields a `usize` and keeps any value that fits |
| V2.AlignCode | library/core/src/fmt/rt/v2.rs:111-116 | the alignment code is at most 3, so it fits in two bits |
| V2.FlagByte | library/core/src/fmt/rt/v2.rs:118 | `flags \| align << 6` of a byte flag mask is a byte |
| V2.FlagsTypeWord | library/core/src/fmt/rt/v2.rs:121-129 | the `SetFlags` second word lies in `[HIGH_101, HIGH_11)` on every width, the 16-bit spill included |
| V2.NarrowFlagsWord | library/core/src/fmt/rt/v2.rs:126 | on 16 bits `filler >> 16` is at most `0x10`, and the word is `0xA000 + 0x20 * byte + spill` |
| V2.WideFlagsWord | library/core/src/fmt/rt/v2.rs:128 | on 32 and 64 bits `HIGH_101 \| byte` is `HIGH_101 + byte` |
| V2.Encode | library/core/src/fmt/rt/v2.rs:80-146 | both words of every encoded command are `usize` values, and its second word falls in a band decode classifies, so no encoded record reaches the unreachable arm |
| V2.FlagByteOf | library/core/src/fmt/rt/v2.rs:163-165 | decode's flag byte, `(cmd >> 5) as u8` on 16 bits and `cmd as u8` otherwise, is a byte |
| V2.AlignmentOf | library/core/src/fmt/rt/v2.rs:167-172 | decode's alignment match is the inverse of the alignment code on codes 0-3, and every code from 3 up reads as `Unknown` |
| V2.FormatterFnEq | library/core/src/fmt/rt/v2.rs:63-67 | two formatters are equal exactly when their addresses are, which is equality of the modelled values |
| V2.SplitFlagByte | library/core/src/fmt/rt/v2.rs:167-178 | splitting a flag byte yields a `SetFlags` that carries the given filler and a flag mask of bits 0-5 |
| V2.DecodeFlags | library/core/src/fmt/rt/v2.rs:161-179 | decode's third arm, as written, always yields a `SetFlags` |
| V2.Decode | library/core/src/fmt/rt/v2.rs:150-187 | defined exactly on the second words `Classified` admits, where the `unreachable_unchecked` fallback (line 185) is an `assert false` proved unreachable; the variant is told by the band alone, both directions: `Literal` when `type_or_len < HIGH_1`, `End` when it is `HIGH_1`, `SetFlags` in `[HIGH_101, HIGH_11)`, `FormatArg` from `HIGH_11`; a decoded argument index is at most `!HIGH_11` and a flag mask uses bits 0-5 |
| Properties.AlignCodeRoundTrip | library/core/src/fmt/rt/v2.rs:111-116 | decode's alignment match (lines 167-172) reads every alignment back from its code |
| Properties.FlagMaskAssertion | library/core/src/fmt/rt/v2.rs:117 | the debug assertion `flags >> 6 == 0` holds exactly when `flags < 0x40` |
| Properties.FlagByteRoundTrip | library/core/src/fmt/rt/v2.rs:118 | for a 6-bit flag mask, the byte is `flags + 0x40 * align`; decode's `>> 6` and `& 0x3F` (lines 167-173) give back the alignment and the mask |
| Properties.FlagByteCoversEveryByte | library/core/src/fmt/rt/v2.rs:167-173 | every byte is rebuilt from what decode reads out of it, so decode drops no bit of the flag byte |
| Properties.SplitFlagByteRoundTrip | library/core/src/fmt/rt/v2.rs:167-178 | splitting the byte encode built gives back the same alignment and flag mask |
| Properties.EncodeBands | library/core/src/fmt/rt/v2.rs:151-185 | each variant is encoded in its own band, both directions: Literal `< HIGH_1`; End `== HIGH_1`; the four numeric commands `HIGH_1 + 2..5`; SetFlags `[HIGH_101, HIGH_11)`; FormatArg `>= HIGH_11` |
| Properties.ArgIndexInRange | library/core/src/fmt/rt/v2.rs:156 | masking with `!HIGH_11` gives an index of at most `!HIGH_11` |
| Properties.FlagsFieldsInRange | library/core/src/fmt/rt/v2.rs:161-179 | the decoded flag mask uses bits 0-5; the filler is a `u32`, and below `0x10000` on 16 bits |
| Properties.DecodeFieldsInRange | library/core/src/fmt/rt/v2.rs:150-187 | every field decode produces from two `usize` words is in range: the `usize` fields fit, a literal's length is below `HIGH_1`, the argument index is at most `!HIGH_11`, the flag mask uses bits 0-5, and the filler is a `u32` (below `0x10000` on 16 bits), which need not be a `char` |
| Properties.LiteralRoundTrip | library/core/src/fmt/rt/v2.rs:82-85 | a literal is stored as `(ptr, len)` unchanged, and decode's first arm (lines 152-154) returns it |
| Properties.TaggedRoundTrip | library/core/src/fmt/rt/v2.rs:86-105 | `End` is `(0, HIGH_1)` and the numeric commands are `(payload, HIGH_1 + k)`; decode (lines 180-184) returns each one, for every payload |
| Properties.DecodeFormatArg | library/core/src/fmt/rt/v2.rs:155-160 | for an index of at most `!HIGH_11`, decode of `HIGH_11 + index` returns that index and the formatter at the address in the first word |
| Properties.FormatArgRoundTrip | library/core/src/fmt/rt/v2.rs:132-144 | `FormatArg` is `(address, HIGH_11 + index)`, and decode returns it for every index of at most `!HIGH_11` |
| Properties.FlagsTypeWordValue | library/core/src/fmt/rt/v2.rs:121-129 | the `SetFlags` second word as a sum, on each width |
| Properties.DecodeFlagsBand | library/core/src/fmt/rt/v2.rs:161 | every word in `[HIGH_101, HIGH_11)` goes to decode's `SetFlags` arm |
| Properties.DecodeFlagsWide | library/core/src/fmt/rt/v2.rs:165 | on 32 and 64 bits, decode reads the filler from the first word and the flag byte from the low byte of `HIGH_101 + byte` |
| Properties.DecodeFlagsNarrow | library/core/src/fmt/rt/v2.rs:163 | on 16 bits as written, the filler is the first word alone and the flag byte is bits 5-12 of the second |
| Properties.SetFlagsRoundTripWide | library/core/src/fmt/rt/v2.rs:106-131 | on 32 and 64 bits, `SetFlags` is `(filler, HIGH_101 + flags + 0x40 * align)`, and decode returns it for every `char` |
| Properties.SetFlagsEncodeNarrow | library/core/src/fmt/rt/v2.rs:121-126 | on 16 bits, `SetFlags` is `(filler % 0x10000, 0xA000 + 0x20 * byte + filler / 0x10000)` |
| Properties.NarrowFlagByte | library/core/src/fmt/rt/v2.rs:163 | `(cmd >> 5) as u8` gives back the flag byte encode put in bits 5-12 |
| Properties.SetFlagsRoundTripNarrow | library/core/src/fmt/rt/v2.rs:121-126 | on 16 bits, decode as written (line 163) returns the command with only the low 16 bits of its filler |
| Properties.SetFlagsNarrowRoundTripIff | library/core/src/fmt/rt/v2.rs:162-166 | on 16 bits, `SetFlags` comes back exactly when its filler is below `0x10000` |
| Properties.RoundTrip | library/core/tests/fmt/v2.rs:36 | `decode(encode(c)) == c` for every command that meets encode's debug assertions, except a 16-bit `SetFlags` with a filler at or above `0x10000` |
| Properties.FlagMaskAssertionIsNeeded | library/core/src/fmt/rt/v2.rs:117-118 | without the flag-mask assertion, `(Left, 0x40)` and `(Right, 0)` encode alike, and the first does not come back |
| Properties.ArgIndexAssertionIsNeeded | library/core/src/fmt/rt/v2.rs:139-142 | without the index assertion, index `HIGH_11` encodes like index 0 and decodes to it |
| Properties.EncodeTestValues | library/core/tests/fmt/v2.rs:6-12 | the test's literals, numeric commands and `End` come back on every width |
| Properties.EncodeTestFlags | library/core/tests/fmt/v2.rs:13-22 | the test's `'-'` flags come back on every width; its `char::MAX` flags come back on 32 and 64 bits |
| Properties.EncodeTestFormatArgs | library/core/tests/fmt/v2.rs:23-34 | the test's `FormatArg` commands come back on every width, including index `usize::MAX >> 2`, which equals `!HIGH_11` |
| Narrow.NarrowFillerLost | library/core/src/fmt/rt/v2.rs:163 | on 16 bits, the test's `char::MAX` command decodes with filler `U+FFFF`, not the original command |
| Narrow.NarrowDecodeNotAChar | library/core/src/fmt/rt/v2.rs:163-175 | on 16 bits, any `char` whose low 16 bits are a surrogate decodes to a filler that is not a `char`; `char::from_u32_unchecked` forbids that |
| Narrow.NarrowDecodeNotACharExample | library/core/src/fmt/rt/v2.rs:163-175 | `U+1D800` is a `char` that decodes to the surrogate `0xD800` |
| Narrow.DecodeFlagsIntended | library/core/src/fmt/rt/v2.rs:163 | the corrected 16-bit arm yields a `SetFlags` |
| Narrow.DecodeIntended | library/core/src/fmt/rt/v2.rs:150-187 | the corrected decode returns the same variant as decode as written, and differs from it only in the filler of a `SetFlags` |
| Narrow.IntendedFiller | library/core/src/fmt/rt/v2.rs:163 | the corrected filler is `(cmd % 0x20) * 0x10000 + arg`: the spilled bits go back above the low sixteen |
| Narrow.DecodeIntendedFlagsWord | library/core/src/fmt/rt/v2.rs:161-179 | corrected decode of `(lo, 0xA000 + 0x20 * byte + spill)` rebuilds the filler `spill * 0x10000 + lo` |
| Narrow.SetFlagsRoundTripIntended | library/core/src/fmt/rt/v2.rs:121-126 | with the corrected filler, a 16-bit `SetFlags` comes back whole, for every `char` |
| Narrow.RoundTripIntended | library/core/tests/fmt/v2.rs:36 | with the corrected filler, `decode(encode(c)) == c` for every command that meets encode's debug assertions, on every width |
| Narrow.EncodeInjective | library/core/src/fmt/rt/v2.rs:80-146 | two commands that meet the debug assertions encode alike exactly when they are the same command, a literal being its span `(ptr, len)` |
| Narrow.IntendedAgreesBelowU10000 | library/core/src/fmt/rt/v2.rs:162-166 | wherever decode as written already inverts encode, the corrected decode agrees with it |

## Left out

- `Arguments::new` (library/core/src/fmt/rt/v2.rs:15-25) is not modelled. It only stores two slice pointers.
- The `Debug` impl of `FormatterFn` (library/core/src/fmt/rt/v2.rs:69-73) is not modelled. It is output through a `Formatter`.
- library/std/src/sys/windows/futex.rs is not part of this model. It wraps operating-system calls.
- Memory reinterpretation is not modelled: `from_raw_parts` / `from_utf8_unchecked` on a literal, `transmute` of the formatter pointer, and `char::from_u32_unchecked` on the filler.
  - A literal is its `(ptr, len)` pair, and a formatter is its address.
  - The decoded filler is a code point. `Narrow.NarrowDecodeNotAChar` shows when it is not a valid `char`.
- Literal equality is span identity. `Cmd` derives `PartialEq` (library/core/src/fmt/rt/v2.rs:33-35), so two `Literal`s with the same text are equal in Rust even at different addresses. In the model, `==` compares `(ptr, len)`, which is finer.
  - `Properties.RoundTrip` therefore implies the test's `assert_eq!`.
  - The "equal implies encoded alike" direction of `Narrow.EncodeInjective` holds only for span identity: equal texts at two addresses encode differently.
- The code that walks a command stream and calls the formatters is not part of this model.
- The debug assertions of encode (lines 117 and 139) are not preconditions of `V2.Encode`, because release builds do not check them.
  - They are the predicate `Legal`, which the round-trip lemmas require.
  - `Properties.FlagMaskAssertionIsNeeded` and `Properties.ArgIndexAssertionIsNeeded` show what goes wrong without them.
- Properties.EncodeTestFormatArgs: the test builds one formatter address as `0xbbaa.swap_bytes() + 0xddee`; the lemma takes that address as a parameter. On a 16-bit platform this sum overflows `usize`.
- Properties.EncodeTestFlags: states the `char::MAX` command's round trip only for 32 and 64 bits, because on 16 bits decode as written loses it (see "Findings").
- Properties.RoundTrip: excludes a 16-bit `SetFlags` whose filler is at or above `0x10000`. Decode as written does not return such a command (see "Findings").

## Findings

| source | as written | input that shows it | evidently intended | confidence | as-written member | corrected member |
|---|---|---|---|---|---|---|
| library/core/src/fmt/rt/v2.rs:163 | `cmd as u32 & 0b1_1111 << 16 \| arg as u32`: `<<` binds tighter than `&`, so this is `(cmd as u32 & 0x1F_0000) \| arg as u32`. For a 16-bit `cmd` the AND is always 0, so the filler bits that encode stored in bits 0-4 of `type_or_len` (line 126) are dropped. | On a 16-bit platform, `SetFlags { filler: char::MAX, alignment: Center, flags: 0b10_1011 }` (the encode test's own command) decodes with filler `U+FFFF`. `U+1D800` decodes to the surrogate `0xD800`, which is undefined behaviour for `char::from_u32_unchecked`. | `((cmd as u32 & 0x1F) << 16) \| arg as u32`, which rebuilds the whole filler | not executed | Narrow.NarrowFillerLost | Narrow.RoundTripIntended |
