/** The formatting commands of `core::fmt::rt::v2` and their two-word
    encoding: `Cmd`, `EncodedCmd`, `Cmd::encode` and `EncodedCmd::decode`.

    Text pointers and formatter function pointers are opaque addresses, a
    `char` is its code point and every integer is a natural number whose
    range is stated by `FieldsFit`. */
module V2 {
  import opened Bitwise
  import opened Word

  /** The alignment of a formatted field; its 2-bit code is `AlignCode`. */
  datatype Alignment = Left | Right | Center | Unknown

  /** A formatter function pointer, known by its address. */
  datatype FormatterFn = FormatterFn(addr: nat)

  /** One formatting command. A `Literal` is the text span `(ptr, len)`. */
  datatype Cmd =
    | Literal(ptr: nat, len: nat)
    | SetWidth(width: nat)
    | SetPrecision(precision: nat)
    | SetWidthFromArg(argIndex: nat)
    | SetPrecisionFromArg(argIndex: nat)
    | SetFlags(filler: nat, alignment: Alignment, flags: nat)
    | FormatArg(argIndex: nat, formatter: FormatterFn)
    | End

  /** The two machine words a command is stored in. */
  datatype EncodedCmd = EncodedCmd(ptrOrVal: nat, typeOrLen: nat)

  /** `c` is a Unicode scalar value, the values of Rust's `char`. */
  predicate IsScalarValue(c: nat) {
    c <= 0x10FFFF && !(0xD800 <= c <= 0xDFFF)
  }

  /** Every field of `c` is in the range of its Rust type on platform `w`:
      `usize` fields fit, a literal's length is at most `isize::MAX` (as for
      every `&str`), the flag mask is a `u8` and the filler at most
      `char::MAX`. */
  predicate FieldsFit(w: Width, c: Cmd) {
    match c
    case Literal(ptr, len) => Fits(w, ptr) && len < High1(w)
    case SetWidth(width) => Fits(w, width)
    case SetPrecision(precision) => Fits(w, precision)
    case SetWidthFromArg(argIndex) => Fits(w, argIndex)
    case SetPrecisionFromArg(argIndex) => Fits(w, argIndex)
    case SetFlags(filler, _, flags) => filler <= 0x10FFFF && flags < 0x100
    case FormatArg(argIndex, formatter) => Fits(w, argIndex) && Fits(w, formatter.addr)
    case End => true
  }

  /** `c` is a value of Rust's type `Cmd` on platform `w`: its filler is
      moreover not a surrogate. */
  predicate Representable(w: Width, c: Cmd) {
    FieldsFit(w, c) && (c.SetFlags? ==> IsScalarValue(c.filler))
  }

  /** `c` is representable and meets the two debug assertions of encode:
      the flag mask uses only bits 0-5, and the argument index is at most
      `!HIGH_11`. */
  predicate Legal(w: Width, c: Cmd) {
    && Representable(w, c)
    && (c.SetFlags? ==> Shr(c.flags, 6) == 0)
    && (c.FormatArg? ==> c.argIndex <= Not(w, High11(w)))
  }

  /** The two-bit code of an alignment. */
  function AlignCode(a: Alignment): (code: nat)
    ensures code <= 3
  {
    match a
    case Left => 0
    case Right => 1
    case Center => 2
    case Unknown => 3
  }

  /** The alignment a two-bit code stands for; every code above 2 reads as
      `Unknown`, whose own code is 3. */
  function AlignmentOf(code: nat): (a: Alignment)
    ensures code <= 3 ==> AlignCode(a) == code
    ensures code >= 3 ==> AlignCode(a) == 3
  {
    if code == 0 then Left
    else if code == 1 then Right
    else if code == 2 then Center
    else Unknown
  }

  /** The byte `flags | align << 6` stored by encode. */
  function FlagByte(flags: nat, a: Alignment): (b: nat)
    requires flags < 0x100
    ensures b < 0x100
  {
    Pow2Small();
    OrBelow(flags, Shl(AlignCode(a), 6), 8);
    Or(flags, Shl(AlignCode(a), 6))
  }

  /** `FormatterFn`'s `PartialEq`: two formatters are equal when their
      addresses are. */
  function FormatterFnEq(f: FormatterFn, g: FormatterFn): (eq: bool)
    ensures eq <==> f == g
  {
    f.addr == g.addr
  }

  /** The second word `t` falls in one of decode's bands: a literal length,
      the `FormatArg` band, the `SetFlags` band, or one of the five small
      tags `HIGH_1 | k`. */
  predicate Classified(w: Width, t: nat) {
    || t < High1(w)
    || t >= High101(w)
    || t == High1(w)
    || t == Or(High1(w), 2)
    || t == Or(High1(w), 3)
    || t == Or(High1(w), 4)
    || t == Or(High1(w), 5)
  }

  /** On a 16-bit platform, `HIGH_101 | flags << 5 | (filler >> 16)` is a
      sum: the three parts occupy bits 13-15, 5-12 and 0-4. */
  lemma NarrowFlagsWord(filler: nat, packed: nat)
    requires filler <= 0x10FFFF && packed < 0x100
    ensures Shr(filler, 16) == filler / 0x1_0000 <= 0x10
    ensures Or(Or(High101(W16), Shl(packed, 5)), U32AsUsize(W16, Shr(filler, 16)))
         == 0xA000 + 0x20 * packed + filler / 0x1_0000
  {
    Pow2Small();
    var spill := filler / 0x1_0000;
    assert Shr(filler, 16) == spill <= 0x10;
    assert U32AsUsize(W16, spill) == spill;
    var shifted := Shl(packed, 5);
    assert shifted == 0x20 * packed;
    OrDisjoint(5, shifted, 13, 0x2000);
    assert Or(High101(W16), shifted) == (0x500 + packed) * 0x20;
    OrDisjoint(0x500 + packed, spill, 5, 0x20);
  }

  /** On a 32- or 64-bit platform, `HIGH_101 | flags` is a sum. */
  lemma WideFlagsWord(w: Width, packed: nat)
    requires w != W16 && packed < 0x100
    ensures Or(High101(w), packed) == High101(w) + packed
  {
    Pow2Values();
    Pow2Small();
    OrDisjoint(5, packed, Bits(w) - 3, Eighth(w));
  }

  /** The second word encode stores for `SetFlags`: `HIGH_101` with the flag
      byte; a 16-bit platform shifts the byte up by five and puts the bits of
      the filler above bit 15 below it. It lies in the `SetFlags` band. */
  function FlagsTypeWord(w: Width, filler: nat, packed: nat): (t: nat)
    requires filler <= 0x10FFFF && packed < 0x100
    ensures High101(w) <= t < High11(w)
  {
    if Bits(w) == 16 then
      NarrowFlagsWord(filler, packed);
      Or(Or(High101(w), Shl(packed, 5)), U32AsUsize(w, Shr(filler, 16)))
    else
      WideFlagsWord(w, packed);
      Or(High101(w), packed)
  }

  /** `Cmd::encode`. Every encoded record is a pair of `usize` values that
      decode classifies, so no encoded record reaches its unreachable arm. */
  function Encode(w: Width, c: Cmd): (e: EncodedCmd)
    requires FieldsFit(w, c)
    ensures Fits(w, e.ptrOrVal) && Fits(w, e.typeOrLen)
    ensures Classified(w, e.typeOrLen)
  {
    TagLayout(w);
    SmallTags(w);
    match c
    case Literal(ptr, len) => EncodedCmd(ptr, len)
    case End => EncodedCmd(0, High1(w))
    case SetWidth(width) => EncodedCmd(width, Or(High1(w), 2))
    case SetPrecision(precision) => EncodedCmd(precision, Or(High1(w), 3))
    case SetWidthFromArg(argIndex) => EncodedCmd(argIndex, Or(High1(w), 4))
    case SetPrecisionFromArg(argIndex) => EncodedCmd(argIndex, Or(High1(w), 5))
    case SetFlags(filler, alignment, flags) =>
      EncodedCmd(U32AsUsize(w, filler), FlagsTypeWord(w, filler, FlagByte(flags, alignment)))
    case FormatArg(argIndex, formatter) =>
      OrBelow(High11(w), argIndex, Bits(w));
      OrAtLeast(High11(w), argIndex);
      EncodedCmd(formatter.addr, Or(High11(w), argIndex))
  }

  /** The flag byte decode reads from the second word of a `SetFlags`
      record: bits 5-12 on a 16-bit platform, the low byte elsewhere. */
  function FlagByteOf(w: Width, cmd: nat): (b: nat)
    ensures b < 0x100
  {
    if Bits(w) == 16 then AsU8(Shr(cmd, 5)) else AsU8(cmd)
  }

  /** A `SetFlags` command from its filler and its flag byte, split into the
      alignment code (bits 6-7) and the flag mask (bits 0-5). */
  function SplitFlagByte(filler: nat, b: nat): (r: Cmd)
    ensures r.SetFlags? && r.filler == filler && r.flags < 0x40
  {
    AndAtMost(b, 0x3F);
    SetFlags(filler, AlignmentOf(Shr(b, 6)), And(b, 0x3F))
  }

  /** The arm of decode for the `SetFlags` band. The 16-bit filler
      expression is the one written in the source: `&` binds looser than
      `<<`, so the high filler bits are masked with `0x1F << 16` while `cmd`
      is still a 16-bit value. */
  function DecodeFlags(w: Width, arg: nat, cmd: nat): (r: Cmd)
    ensures r.SetFlags?
  {
    var filler := if Bits(w) == 16 then Or(And(AsU32(cmd), Shl(0x1F, 16)), AsU32(arg)) else AsU32(arg);
    SplitFlagByte(filler, FlagByteOf(w, cmd))
  }

  /** `EncodedCmd::decode`, defined on records whose second word it
      classifies; its fallback arm is an assertion that cannot fail. The
      variant decoded is told by the band of the second word alone, the
      argument index is at most `!HIGH_11` and the flag mask uses bits 0-5. */
  function Decode(w: Width, e: EncodedCmd): (r: Cmd)
    requires Classified(w, e.typeOrLen)
    ensures r.Literal? <==> e.typeOrLen < High1(w)
    ensures r.End? <==> e.typeOrLen == High1(w)
    ensures r.SetFlags? <==> High101(w) <= e.typeOrLen < High11(w)
    ensures r.FormatArg? <==> e.typeOrLen >= High11(w)
    ensures r.FormatArg? ==> r.argIndex <= Not(w, High11(w))
    ensures r.SetFlags? ==> r.flags < 0x40
  {
    var (ptr, cmd) := (e.ptrOrVal, e.typeOrLen);
    AndAtMost(cmd, Not(w, High11(w)));
    if cmd < High1(w) then
      Literal(ptr, cmd)
    else if cmd >= High11(w) then
      FormatArg(And(cmd, Not(w, High11(w))), FormatterFn(ptr))
    else if cmd >= High101(w) then
      DecodeFlags(w, ptr, cmd)
    else if cmd == High1(w) then
      End
    else if cmd == Or(High1(w), 2) then
      SetWidth(ptr)
    else if cmd == Or(High1(w), 3) then
      SetPrecision(ptr)
    else if cmd == Or(High1(w), 4) then
      SetWidthFromArg(ptr)
    else if cmd == Or(High1(w), 5) then
      SetPrecisionFromArg(ptr)
    else
      assert false; End
  }
}
