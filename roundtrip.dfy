/** What encode and decode promise each other: the tag bands keep the
    variants apart, decode's fields are in range, and decoding an encoded
    command gives the command back, on every platform width, for every
    command that meets encode's debug assertions (with one exception on
    16-bit platforms, `SetFlagsRoundTripNarrow`). */
module Properties {
  import opened Bitwise
  import opened Word
  import opened V2

  /** Every alignment is read back from its code. */
  lemma AlignCodeRoundTrip(a: Alignment)
    ensures AlignCode(a) <= 3 && AlignmentOf(AlignCode(a)) == a
  {
  }

  /** Encode's debug assertion on the flag mask is `flags < 0x40`. */
  lemma FlagMaskAssertion(flags: nat)
    ensures Shr(flags, 6) == 0 <==> flags < 0x40
  {
    Pow2Small();
  }

  /** A flag mask of bits 0-5 and an alignment code share the flag byte
      without overlapping, and decode's `>> 6` and `& 0x3F` take them apart. */
  lemma FlagByteRoundTrip(flags: nat, a: Alignment)
    requires flags < 0x40
    ensures FlagByte(flags, a) == flags + 0x40 * AlignCode(a)
    ensures Shr(FlagByte(flags, a), 6) == AlignCode(a)
    ensures And(FlagByte(flags, a), 0x3F) == flags
    ensures AlignmentOf(Shr(FlagByte(flags, a), 6)) == a
  {
    Pow2Small();
    OrDisjoint(AlignCode(a), flags, 6, 0x40);
    AndLowBits(FlagByte(flags, a), 6, 0x40);
  }

  /** Every byte is the flag byte of what decode reads from it: nothing in
      a flag byte is dropped, and a code of 3 reads back as `Unknown`. */
  lemma FlagByteCoversEveryByte(b: nat)
    requires b < 0x100
    ensures And(b, 0x3F) < 0x40
    ensures FlagByte(And(b, 0x3F), AlignmentOf(Shr(b, 6))) == b
  {
    Pow2Small();
    AndLowBits(b, 6, 0x40);
    var (flags, code) := (b % 0x40, b / 0x40);
    assert And(b, 0x3F) == flags && Shr(b, 6) == code <= 3;
    assert AlignCode(AlignmentOf(code)) == code;
    FlagByteRoundTrip(flags, AlignmentOf(code));
  }

  /** The second word of an encoded command tells its variant: each variant
      has its own band or tag. */
  lemma EncodeBands(w: Width, c: Cmd)
    requires FieldsFit(w, c)
    ensures var t := Encode(w, c).typeOrLen;
      && (c.Literal? <==> t < High1(w))
      && (c.End? <==> t == High1(w))
      && (c.SetWidth? <==> t == High1(w) + 2)
      && (c.SetPrecision? <==> t == High1(w) + 3)
      && (c.SetWidthFromArg? <==> t == High1(w) + 4)
      && (c.SetPrecisionFromArg? <==> t == High1(w) + 5)
      && (c.SetFlags? <==> High101(w) <= t < High11(w))
      && (c.FormatArg? <==> t >= High11(w))
  {
    SmallTags(w);
    TagLayout(w);
    if c.FormatArg? {
      OrAtLeast(High11(w), c.argIndex);
    }
  }

  /** Decode's mask `!HIGH_11` keeps the argument index at most `!HIGH_11`. */
  lemma ArgIndexInRange(w: Width, t: nat)
    ensures And(t, Not(w, High11(w))) <= Not(w, High11(w))
  {
    TagLayout(w);
    AndLowBits(t, Bits(w) - 2, Quarter(w));
  }

  /** Decode's `SetFlags` arm yields a flag mask of bits 0-5 and a `u32`
      filler, below `2^16` on a 16-bit platform. */
  lemma FlagsFieldsInRange(w: Width, arg: nat, cmd: nat)
    requires Fits(w, arg) && Fits(w, cmd)
    ensures var r := DecodeFlags(w, arg, cmd);
      && r.flags < 0x40 && r.filler < 0x1_0000_0000
      && (w == W16 ==> r.filler < 0x1_0000)
  {
    var b := FlagByteOf(w, cmd);
    Pow2Small();
    AndLowBits(b, 6, 0x40);
    if w == W16 {
      DecodeFlagsNarrow(arg, cmd);
    }
  }

  /** Every field decode produces from two `usize` words is in range: the
      argument index of `FormatArg` is at most `!HIGH_11`, the flag mask
      uses bits 0-5 and the filler is a `u32` (below `2^16` on a 16-bit
      platform). */
  lemma DecodeFieldsInRange(w: Width, e: EncodedCmd)
    requires Fits(w, e.ptrOrVal) && Fits(w, e.typeOrLen) && Classified(w, e.typeOrLen)
    ensures var r := Decode(w, e);
      && (r.Literal? ==> Fits(w, r.ptr) && r.len < High1(w))
      && (r.SetWidth? ==> Fits(w, r.width))
      && (r.SetPrecision? ==> Fits(w, r.precision))
      && ((r.SetWidthFromArg? || r.SetPrecisionFromArg?) ==> Fits(w, r.argIndex))
      && (r.FormatArg? ==> r.argIndex <= Not(w, High11(w)) && Fits(w, r.formatter.addr))
      && (r.SetFlags? ==> r.flags < 0x40 && r.filler < 0x1_0000_0000)
      && (r.SetFlags? && w == W16 ==> r.filler < 0x1_0000)
  {
    var (p, t) := (e.ptrOrVal, e.typeOrLen);
    if t >= High11(w) {
      ArgIndexInRange(w, t);
    } else if t >= High101(w) {
      FlagsFieldsInRange(w, p, t);
    }
  }

  lemma LiteralRoundTrip(w: Width, ptr: nat, len: nat)
    requires Fits(w, ptr) && len < High1(w)
    ensures Encode(w, Literal(ptr, len)) == EncodedCmd(ptr, len)
    ensures Decode(w, Encode(w, Literal(ptr, len))) == Literal(ptr, len)
  {
  }

  /** `End` and the four numeric commands are the value word and a small
      tag, and decode gives them back. */
  lemma TaggedRoundTrip(w: Width, c: Cmd)
    requires FieldsFit(w, c)
    requires c.End? || c.SetWidth? || c.SetPrecision? || c.SetWidthFromArg? || c.SetPrecisionFromArg?
    ensures c.End? ==> Encode(w, c) == EncodedCmd(0, High1(w))
    ensures c.SetWidth? ==> Encode(w, c) == EncodedCmd(c.width, High1(w) + 2)
    ensures c.SetPrecision? ==> Encode(w, c) == EncodedCmd(c.precision, High1(w) + 3)
    ensures c.SetWidthFromArg? ==> Encode(w, c) == EncodedCmd(c.argIndex, High1(w) + 4)
    ensures c.SetPrecisionFromArg? ==> Encode(w, c) == EncodedCmd(c.argIndex, High1(w) + 5)
    ensures Decode(w, Encode(w, c)) == c
  {
    SmallTags(w);
  }

  /** Decode's mask `!HIGH_11` recovers an argument index at most
      `!HIGH_11` from `HIGH_11 + arg_index`. */
  lemma DecodeFormatArg(w: Width, ptr: nat, argIndex: nat)
    requires argIndex <= Not(w, High11(w))
    ensures Decode(w, EncodedCmd(ptr, High11(w) + argIndex)) == FormatArg(argIndex, FormatterFn(ptr))
  {
    TagLayout(w);
    var t := High11(w) + argIndex;
    AndLowBits(t, Bits(w) - 2, Quarter(w));
    ModUnique(t, Quarter(w), 3, argIndex);
    assert And(t, Not(w, High11(w))) == argIndex;
  }

  /** `FormatArg` is the formatter address and `HIGH_11 + arg_index`; for
      an index at most `!HIGH_11` decode's mask recovers it. */
  lemma FormatArgRoundTrip(w: Width, argIndex: nat, f: FormatterFn)
    requires Fits(w, f.addr) && argIndex <= Not(w, High11(w))
    ensures Encode(w, FormatArg(argIndex, f)) == EncodedCmd(f.addr, High11(w) + argIndex)
    ensures Decode(w, Encode(w, FormatArg(argIndex, f))) == FormatArg(argIndex, f)
  {
    TagLayout(w);
    OrDisjoint(3, argIndex, Bits(w) - 2, Quarter(w));
    var e := Encode(w, FormatArg(argIndex, f));
    assert e == EncodedCmd(f.addr, High11(w) + argIndex);
    DecodeFormatArg(w, f.addr, argIndex);
  }

  /** The second word encode stores for `SetFlags`, as a sum. */
  lemma FlagsTypeWordValue(w: Width, filler: nat, packed: nat)
    requires filler <= 0x10FFFF && packed < 0x100
    ensures FlagsTypeWord(w, filler, packed)
         == if w == W16 then 0xA000 + 0x20 * packed + filler / 0x1_0000 else High101(w) + packed
  {
    if w == W16 {
      NarrowFlagsWord(filler, packed);
    } else {
      WideFlagsWord(w, packed);
    }
  }

  /** Splitting a flag byte built by encode gives back its alignment and
      flag mask. */
  lemma SplitFlagByteRoundTrip(filler: nat, flags: nat, a: Alignment)
    requires flags < 0x40
    ensures SplitFlagByte(filler, FlagByte(flags, a)) == SetFlags(filler, a, flags)
  {
    FlagByteRoundTrip(flags, a);
  }

  /** Decode sends the `SetFlags` band to its `SetFlags` arm. */
  lemma DecodeFlagsBand(w: Width, ptr: nat, t: nat)
    requires High101(w) <= t < High11(w)
    ensures Decode(w, EncodedCmd(ptr, t)) == DecodeFlags(w, ptr, t)
  {
  }

  /** Decode's `SetFlags` arm on a 32- or 64-bit platform reads the filler
      from the first word and the flag byte from the low byte of the second. */
  lemma DecodeFlagsWide(w: Width, arg: nat, b: nat)
    requires w != W16 && arg < 0x1_0000_0000 && b < 0x100
    ensures DecodeFlags(w, arg, High101(w) + b) == SplitFlagByte(arg, b)
  {
    ModUnique(High101(w) + b, 0x100, High101(w) / 0x100, b);
  }

  /** Decode's `SetFlags` arm on a 16-bit platform, as written: the filler
      is the first word alone, since `cmd & (0x1F << 16)` is zero for every
      16-bit `cmd`; the flag byte is bits 5-12 of the second word. */
  lemma DecodeFlagsNarrow(arg: nat, cmd: nat)
    requires arg < 0x1_0000 && cmd < 0x1_0000
    ensures DecodeFlags(W16, arg, cmd) == SplitFlagByte(arg, (cmd / 0x20) % 0x100)
  {
    Pow2Small();
    assert Shr(cmd, 5) == cmd / 0x20;
    AndDisjoint(0x1F, cmd, 16, 0x1_0000);
  }

  /** On 32- and 64-bit platforms `SetFlags` is the filler and
      `HIGH_101 + flag byte`, and decode gives it back. */
  lemma SetFlagsRoundTripWide(w: Width, filler: nat, a: Alignment, flags: nat)
    requires w != W16 && IsScalarValue(filler) && flags < 0x40
    ensures Encode(w, SetFlags(filler, a, flags))
         == EncodedCmd(filler, High101(w) + flags + 0x40 * AlignCode(a))
    ensures Decode(w, Encode(w, SetFlags(filler, a, flags))) == SetFlags(filler, a, flags)
  {
    var b := FlagByte(flags, a);
    FlagByteRoundTrip(flags, a);
    FlagsTypeWordValue(w, filler, b);
    var t := High101(w) + b;
    assert Encode(w, SetFlags(filler, a, flags)) == EncodedCmd(filler, t);
    DecodeFlagsBand(w, filler, t);
    DecodeFlagsWide(w, filler, b);
    SplitFlagByteRoundTrip(filler, flags, a);
  }

  /** On a 16-bit platform `SetFlags` is the low 16 bits of the filler and
      `HIGH_101 + (flag byte << 5) + (filler >> 16)`. */
  lemma SetFlagsEncodeNarrow(filler: nat, a: Alignment, flags: nat)
    requires IsScalarValue(filler) && flags < 0x40
    ensures Encode(W16, SetFlags(filler, a, flags))
         == EncodedCmd(filler % 0x1_0000, 0xA000 + 0x20 * FlagByte(flags, a) + filler / 0x1_0000)
  {
    FlagsTypeWordValue(W16, filler, FlagByte(flags, a));
  }

  /** The flag byte sits in bits 5-12 of the 16-bit second word. */
  lemma NarrowFlagByte(b: nat, spill: nat)
    requires b < 0x100 && spill < 0x20
    ensures ((0xA000 + 0x20 * b + spill) / 0x20) % 0x100 == b
  {
    ModUnique(0xA000 + 0x20 * b + spill, 0x20, 0x500 + b, spill);
    ModUnique(0x500 + b, 0x100, 5, b);
  }

  /** Decode, as written, gives back only the low 16 bits of the filler of
      a 16-bit `SetFlags`. */
  lemma SetFlagsRoundTripNarrow(filler: nat, a: Alignment, flags: nat)
    requires IsScalarValue(filler) && flags < 0x40
    ensures Decode(W16, Encode(W16, SetFlags(filler, a, flags))) == SetFlags(filler % 0x1_0000, a, flags)
  {
    var b := FlagByte(flags, a);
    var (lo, spill) := (filler % 0x1_0000, filler / 0x1_0000);
    var t := 0xA000 + 0x20 * b + spill;
    FlagByteRoundTrip(flags, a);
    SetFlagsEncodeNarrow(filler, a, flags);
    var e := Encode(W16, SetFlags(filler, a, flags));
    assert e == EncodedCmd(lo, t);
    DecodeFlagsBand(W16, lo, t);
    assert Decode(W16, e) == DecodeFlags(W16, lo, t);
    NarrowFlagByte(b, spill);
    DecodeFlagsNarrow(lo, t);
    assert DecodeFlags(W16, lo, t) == SplitFlagByte(lo, b);
    SplitFlagByteRoundTrip(filler % 0x1_0000, flags, a);
  }

  /** So a 16-bit `SetFlags` comes back exactly when its filler is below
      `0x10000`: every filler from `U+10000` to `char::MAX` is lost. */
  lemma SetFlagsNarrowRoundTripIff(filler: nat, a: Alignment, flags: nat)
    requires IsScalarValue(filler) && flags < 0x40
    ensures Decode(W16, Encode(W16, SetFlags(filler, a, flags))) == SetFlags(filler, a, flags)
        <==> filler < 0x1_0000
  {
    SetFlagsRoundTripNarrow(filler, a, flags);
    if filler >= 0x1_0000 {
      assert filler % 0x1_0000 != filler;
    }
  }

  /** Decoding an encoded command gives the command back, for every command
      that meets encode's debug assertions, except a `SetFlags` whose filler
      is at or above `0x10000` on a 16-bit platform. */
  lemma RoundTrip(w: Width, c: Cmd)
    requires Legal(w, c)
    requires w == W16 && c.SetFlags? ==> c.filler < 0x1_0000
    ensures Decode(w, Encode(w, c)) == c
  {
    match c
    case Literal(ptr, len) => LiteralRoundTrip(w, ptr, len);
    case FormatArg(argIndex, f) => FormatArgRoundTrip(w, argIndex, f);
    case SetFlags(filler, a, flags) =>
      FlagMaskAssertion(flags);
      if w == W16 {
        SetFlagsRoundTripNarrow(filler, a, flags);
      } else {
        SetFlagsRoundTripWide(w, filler, a, flags);
      }
    case _ => TaggedRoundTrip(w, c);
  }

  /** Without the flag-mask assertion a mask using bit 6 is taken for an
      alignment: two different commands encode alike and one of them does
      not come back. */
  lemma FlagMaskAssertionIsNeeded(w: Width, filler: nat)
    requires IsScalarValue(filler)
    ensures Encode(w, SetFlags(filler, Left, 0x40)) == Encode(w, SetFlags(filler, Right, 0))
    ensures Decode(w, Encode(w, SetFlags(filler, Left, 0x40))) != SetFlags(filler, Left, 0x40)
  {
    Pow2Small();
    assert FlagByte(0x40, Left) == 0x40 == FlagByte(0, Right);
    if w == W16 {
      SetFlagsRoundTripNarrow(filler, Right, 0);
    } else {
      SetFlagsRoundTripWide(w, filler, Right, 0);
    }
  }

  /** Without the argument-index assertion an index with its top two bits
      set is swallowed by the tag: it encodes like index 0. */
  lemma ArgIndexAssertionIsNeeded(w: Width, f: FormatterFn)
    requires Fits(w, f.addr)
    ensures Encode(w, FormatArg(High11(w), f)) == Encode(w, FormatArg(0, f))
    ensures Decode(w, Encode(w, FormatArg(High11(w), f))) == FormatArg(0, f)
  {
    OrSelf(High11(w));
    TagLayout(w);
    FormatArgRoundTrip(w, 0, f);
  }

  /** The literal and numeric commands of the encode test come back on
      every platform width; `hello` stands for the text pointer. */
  lemma EncodeTestValues(w: Width, hello: nat)
    requires Fits(w, hello)
    ensures Decode(w, Encode(w, Literal(hello, 0))) == Literal(hello, 0)
    ensures Decode(w, Encode(w, Literal(hello, 5))) == Literal(hello, 5)
    ensures Decode(w, Encode(w, SetWidth(9))) == SetWidth(9)
    ensures Decode(w, Encode(w, SetPrecision(100))) == SetPrecision(100)
    ensures Decode(w, Encode(w, SetWidthFromArg(1))) == SetWidthFromArg(1)
    ensures Decode(w, Encode(w, SetPrecisionFromArg(3))) == SetPrecisionFromArg(3)
    ensures Decode(w, Encode(w, End)) == End
  {
    LiteralRoundTrip(w, hello, 0);
    LiteralRoundTrip(w, hello, 5);
    TaggedRoundTrip(w, SetWidth(9));
    TaggedRoundTrip(w, SetPrecision(100));
    TaggedRoundTrip(w, SetWidthFromArg(1));
    TaggedRoundTrip(w, SetPrecisionFromArg(3));
    TaggedRoundTrip(w, End);
  }

  /** The `SetFlags` commands of the encode test: `'-'` comes back on every
      platform width, `char::MAX` on the 32- and 64-bit ones. */
  lemma EncodeTestFlags(w: Width)
    ensures Decode(w, Encode(w, SetFlags('-' as nat, Left, 0))) == SetFlags('-' as nat, Left, 0)
    ensures w != W16 ==>
      Decode(w, Encode(w, SetFlags(0x10FFFF, Center, 0x2B))) == SetFlags(0x10FFFF, Center, 0x2B)
  {
    if w == W16 {
      SetFlagsNarrowRoundTripIff('-' as nat, Left, 0);
    } else {
      SetFlagsRoundTripWide(w, '-' as nat, Left, 0);
      SetFlagsRoundTripWide(w, 0x10FFFF, Center, 0x2B);
    }
  }

  /** The `FormatArg` commands of the encode test come back on every
      platform width, the largest index `usize::MAX >> 2` included; `fmt`
      stands for the formatter address the test builds with `swap_bytes`. */
  lemma EncodeTestFormatArgs(w: Width, fmt: nat)
    requires Fits(w, fmt)
    ensures Decode(w, Encode(w, FormatArg(0, FormatterFn(8)))) == FormatArg(0, FormatterFn(8))
    ensures Decode(w, Encode(w, FormatArg(9, FormatterFn(fmt)))) == FormatArg(9, FormatterFn(fmt))
    ensures Shr(Modulus(w) - 1, 2) == Not(w, High11(w))
    ensures Decode(w, Encode(w, FormatArg(Shr(Modulus(w) - 1, 2), FormatterFn(0x1234))))
         == FormatArg(Shr(Modulus(w) - 1, 2), FormatterFn(0x1234))
  {
    Pow2Small();
    assert Pow2(2) == 4;
    FormatArgRoundTrip(w, 0, FormatterFn(8));
    FormatArgRoundTrip(w, 9, FormatterFn(fmt));
    FormatArgRoundTrip(w, Shr(Modulus(w) - 1, 2), FormatterFn(0x1234));
  }
}
