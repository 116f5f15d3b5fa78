/** The 16-bit `SetFlags` arm of decode. As written, its filler expression
    `cmd as u32 & 0b1_1111 << 16 | arg as u32` parses as
    `(cmd as u32 & (0x1F << 16)) | arg as u32`: the mask is applied to a
    16-bit value and is always zero, so the five filler bits encode stored
    below the flag byte are dropped. This module exhibits the loss, defines
    the evidently intended `((cmd as u32 & 0x1F) << 16) | arg as u32`, and
    proves that with it decode inverts encode on every platform. */
module Narrow {
  import opened Bitwise
  import opened Word
  import opened V2
  import opened Properties

  /** The `char::MAX` filler of the encode test does not come back on a
      16-bit platform: decode returns its low 16 bits, `U+FFFF`. */
  lemma NarrowFillerLost()
    ensures Decode(W16, Encode(W16, SetFlags(0x10FFFF, Center, 0x2B)))
         == SetFlags(0x10FFFF % 0x1_0000, Center, 0x2B)
    ensures Decode(W16, Encode(W16, SetFlags(0x10FFFF, Center, 0x2B)))
         != SetFlags(0x10FFFF, Center, 0x2B)
  {
    SetFlagsRoundTripNarrow(0x10FFFF, Center, 0x2B);
    SetFlagsNarrowRoundTripIff(0x10FFFF, Center, 0x2B);
  }

  /** Decode can even return a filler that is not a `char`, which it then
      hands to `char::from_u32_unchecked`: any `char` whose low 16 bits are
      a surrogate code does this. */
  lemma NarrowDecodeNotAChar(filler: nat, a: Alignment, flags: nat)
    requires IsScalarValue(filler) && flags < 0x40
    requires 0xD800 <= filler % 0x1_0000 <= 0xDFFF
    ensures !IsScalarValue(Decode(W16, Encode(W16, SetFlags(filler, a, flags))).filler)
  {
    SetFlagsRoundTripNarrow(filler, a, flags);
  }

  /** `U+1D800` is such a `char`: it comes back as the surrogate `0xD800`. */
  lemma NarrowDecodeNotACharExample()
    ensures IsScalarValue(0x1D800)
    ensures !IsScalarValue(Decode(W16, Encode(W16, SetFlags(0x1D800, Left, 0))).filler)
  {
    NarrowDecodeNotAChar(0x1D800, Left, 0);
  }

  /** Decode's 16-bit `SetFlags` arm with the evidently intended filler:
      the five low bits of `cmd` are masked first and then shifted above
      the sixteen bits of `arg`. The alignment and flag mask are read as
      before. */
  function DecodeFlagsIntended(arg: nat, cmd: nat): (r: Cmd)
    ensures r.SetFlags?
  {
    SplitFlagByte(Or(Shl(And(AsU32(cmd), 0x1F), 16), AsU32(arg)), FlagByteOf(W16, cmd))
  }

  /** `EncodedCmd::decode` with the corrected 16-bit filler. It differs
      from decode as written in the filler of a `SetFlags` alone. */
  function DecodeIntended(w: Width, e: EncodedCmd): (r: Cmd)
    requires Classified(w, e.typeOrLen)
    ensures !r.SetFlags? ==> r == Decode(w, e)
    ensures r.SetFlags? <==> Decode(w, e).SetFlags?
    ensures r.SetFlags? ==> r == Decode(w, e).(filler := r.filler)
  {
    if w == W16 && High101(w) <= e.typeOrLen < High11(w) then
      DecodeFlagsIntended(e.ptrOrVal, e.typeOrLen)
    else
      Decode(w, e)
  }

  /** The corrected filler puts the five spilled bits back above the
      sixteen low ones. */
  lemma IntendedFiller(arg: nat, cmd: nat)
    requires arg < 0x1_0000 && cmd < 0x1_0000
    ensures DecodeFlagsIntended(arg, cmd)
         == SplitFlagByte((cmd % 0x20) * 0x1_0000 + arg, (cmd / 0x20) % 0x100)
  {
    Pow2Small();
    assert Shr(cmd, 5) == cmd / 0x20;
    AndLowBits(cmd, 5, 0x20);
    OrDisjoint(cmd % 0x20, arg, 16, 0x1_0000);
  }

  /** The corrected decode of a 16-bit `SetFlags` record reassembles the
      filler from the first word and the five spilled bits. */
  lemma DecodeIntendedFlagsWord(lo: nat, spill: nat, b: nat)
    requires lo < 0x1_0000 && spill <= 0x10 && b < 0x100
    ensures DecodeIntended(W16, EncodedCmd(lo, 0xA000 + 0x20 * b + spill))
         == SplitFlagByte(spill * 0x1_0000 + lo, b)
  {
    var t := 0xA000 + 0x20 * b + spill;
    assert DecodeIntended(W16, EncodedCmd(lo, t)) == DecodeFlagsIntended(lo, t);
    ModUnique(t, 0x20, 0x500 + b, spill);
    NarrowFlagByte(b, spill);
    IntendedFiller(lo, t);
  }

  /** With the corrected filler a 16-bit `SetFlags` comes back whole. */
  lemma SetFlagsRoundTripIntended(filler: nat, a: Alignment, flags: nat)
    requires IsScalarValue(filler) && flags < 0x40
    ensures DecodeIntended(W16, Encode(W16, SetFlags(filler, a, flags))) == SetFlags(filler, a, flags)
  {
    var b := FlagByte(flags, a);
    FlagByteRoundTrip(flags, a);
    var (lo, spill) := (filler % 0x1_0000, filler / 0x1_0000);
    SetFlagsEncodeNarrow(filler, a, flags);
    var e := Encode(W16, SetFlags(filler, a, flags));
    assert e == EncodedCmd(lo, 0xA000 + 0x20 * b + spill);
    DecodeIntendedFlagsWord(lo, spill, b);
    assert DecodeIntended(W16, e) == SplitFlagByte(filler, b);
    SplitFlagByteRoundTrip(filler, flags, a);
  }

  /** With the corrected filler, decoding an encoded command gives the
      command back, for every command that meets encode's debug
      assertions, on every platform width. */
  lemma RoundTripIntended(w: Width, c: Cmd)
    requires Legal(w, c)
    ensures DecodeIntended(w, Encode(w, c)) == c
  {
    EncodeBands(w, c);
    if w == W16 && c.SetFlags? {
      FlagMaskAssertion(c.flags);
      SetFlagsRoundTripIntended(c.filler, c.alignment, c.flags);
    } else {
      RoundTrip(w, c);
    }
  }

  /** Encode loses nothing: two commands that meet its debug assertions
      and encode alike are the same command. */
  lemma EncodeInjective(w: Width, c1: Cmd, c2: Cmd)
    requires Legal(w, c1) && Legal(w, c2)
    ensures Encode(w, c1) == Encode(w, c2) <==> c1 == c2
  {
    RoundTripIntended(w, c1);
    RoundTripIntended(w, c2);
  }

  /** Where the as-written decode already returns the command, the
      corrected one agrees with it. */
  lemma IntendedAgreesBelowU10000(w: Width, c: Cmd)
    requires Legal(w, c)
    requires w == W16 && c.SetFlags? ==> c.filler < 0x1_0000
    ensures DecodeIntended(w, Encode(w, c)) == Decode(w, Encode(w, c))
  {
    RoundTrip(w, c);
    RoundTripIntended(w, c);
  }
}
