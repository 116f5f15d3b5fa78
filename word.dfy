/** Machine words of the formatting-command codec and its three tag constants.

    A `usize` of a supported platform width is a natural number below
    `2^usize::BITS` (`Fits`); the casts the codec performs (`as u8`,
    `as u32`, `as usize`) keep the low bits, which is a remainder, and `!`
    on a `usize` is a subtraction from `usize::MAX`. */
module Word {
  import opened Bitwise

  /** The width of `usize` on the platforms the codec is written for. */
  datatype Width = W16 | W32 | W64

  /** `usize::BITS`. */
  function Bits(w: Width): nat {
    match w
    case W16 => 16
    case W32 => 32
    case W64 => 64
  }

  /** `usize::MAX + 1`. */
  function Modulus(w: Width): nat {
    match w
    case W16 => 0x1_0000
    case W32 => 0x1_0000_0000
    case W64 => 0x1_0000_0000_0000_0000
  }

  /** `HIGH_1`: only the top bit set. */
  function High1(w: Width): nat {
    match w
    case W16 => 0x8000
    case W32 => 0x8000_0000
    case W64 => 0x8000_0000_0000_0000
  }

  /** `HIGH_11`: the top two bits set. */
  function High11(w: Width): nat {
    match w
    case W16 => 0xC000
    case W32 => 0xC000_0000
    case W64 => 0xC000_0000_0000_0000
  }

  /** `HIGH_101`: the top bit and the third bit from the top set. */
  function High101(w: Width): nat {
    match w
    case W16 => 0xA000
    case W32 => 0xA000_0000
    case W64 => 0xA000_0000_0000_0000
  }

  /** `2^(BITS-2)`: one more than `!HIGH_11`, the largest argument index. */
  function Quarter(w: Width): nat {
    match w
    case W16 => 0x4000
    case W32 => 0x4000_0000
    case W64 => 0x4000_0000_0000_0000
  }

  /** `2^(BITS-3)`, the third bit from the top. */
  function Eighth(w: Width): nat {
    match w
    case W16 => 0x2000
    case W32 => 0x2000_0000
    case W64 => 0x2000_0000_0000_0000
  }

  /** `x` is a value of type `usize` on platform `w`. */
  predicate Fits(w: Width, x: nat) {
    x < Modulus(w)
  }

  /** The bitwise complement `!x` of a `usize`. */
  function Not(w: Width, x: nat): (r: nat)
    requires Fits(w, x)
    ensures Fits(w, r)
  {
    Modulus(w) - 1 - x
  }

  /** `x as u8`. */
  function AsU8(x: nat): (r: nat)
    ensures r < 0x100 && (x < 0x100 ==> r == x)
  {
    x % 0x100
  }

  /** `x as u32`. */
  function AsU32(x: nat): (r: nat)
    ensures r < 0x1_0000_0000 && (x < 0x1_0000_0000 ==> r == x)
  {
    x % 0x1_0000_0000
  }

  /** `x as usize` for a `u32` value `x`: a 16-bit platform keeps the low
      16 bits, the wider ones keep the value. */
  function U32AsUsize(w: Width, x: nat): (r: nat)
    requires x < 0x1_0000_0000
    ensures Fits(w, r) && (Fits(w, x) ==> r == x)
  {
    x % Modulus(w)
  }

  /** The low `n` bits of `x` in reverse order: bit `i` moves to bit
      `n - 1 - i` (`reverse_bits` on an `n`-bit integer). */
  function ReverseBits(x: nat, n: nat): nat {
    if n == 0 then 0 else ReverseBits(x / 2, n - 1) + (x % 2) * Pow2(n - 1)
  }

  lemma {:induction false} ReverseBitsOfZero(n: nat)
    ensures ReverseBits(0, n) == 0
  {
    if n > 0 {
      ReverseBitsOfZero(n - 1);
    }
  }

  /** Reversed into `n` bits, `0b1` sets only bit `n-1`, `0b11` bits `n-1`
      and `n-2`, and `0b101` bits `n-1` and `n-3`. */
  lemma ReversedSmallPatterns(n: nat)
    requires n >= 3
    ensures ReverseBits(1, n) == Pow2(n - 1)
    ensures ReverseBits(3, n) == Pow2(n - 1) + Pow2(n - 2)
    ensures ReverseBits(5, n) == Pow2(n - 1) + Pow2(n - 3)
  {
    ReverseBitsOfZero(n - 1);
    ReverseBitsOfZero(n - 2);
    ReverseBitsOfZero(n - 3);
    assert ReverseBits(1, n - 1) == Pow2(n - 2);
    assert ReverseBits(1, n - 2) == Pow2(n - 3);
    assert ReverseBits(2, n - 1) == ReverseBits(1, n - 2);
  }

  /** On every platform the three tags are `0b1usize.reverse_bits()`,
      `0b11usize.reverse_bits()` and `0b101usize.reverse_bits()`. */
  lemma TagsAreMirroredPatterns(w: Width)
    ensures High1(w) == ReverseBits(1, Bits(w))
    ensures High11(w) == ReverseBits(3, Bits(w))
    ensures High101(w) == ReverseBits(5, Bits(w))
  {
    Pow2Small();
    Pow2Values();
    ReversedSmallPatterns(Bits(w));
  }

  /** Where the tags sit: with `q = 2^(BITS-2)`, `usize::MAX + 1` is `4q`,
      `HIGH_1` is `2q`, `HIGH_11` is `3q` and `HIGH_101` is `5q/2`, so
      `!HIGH_11` is `q - 1`, the mask of the argument index. */
  lemma TagLayout(w: Width)
    ensures Bits(w) >= 16 && Modulus(w) == Pow2(Bits(w))
    ensures Quarter(w) == Pow2(Bits(w) - 2) && Eighth(w) == Pow2(Bits(w) - 3)
    ensures Modulus(w) == 4 * Quarter(w) && Quarter(w) == 2 * Eighth(w)
    ensures High1(w) == 2 * Quarter(w) && High11(w) == 3 * Quarter(w)
    ensures High101(w) == 5 * Eighth(w)
    ensures Not(w, High11(w)) == Quarter(w) - 1
  {
    Pow2Small();
    Pow2Values();
  }

  /** The small tags `HIGH_1 | k` are `HIGH_1 + k` and lie below `HIGH_101`. */
  lemma SmallTags(w: Width)
    ensures Or(High1(w), 2) == High1(w) + 2 && Or(High1(w), 3) == High1(w) + 3
    ensures Or(High1(w), 4) == High1(w) + 4 && Or(High1(w), 5) == High1(w) + 5
    ensures High1(w) + 5 < High101(w)
  {
    TagLayout(w);
    OrDisjoint(2, 2, Bits(w) - 2, Quarter(w));
    OrDisjoint(2, 3, Bits(w) - 2, Quarter(w));
    OrDisjoint(2, 4, Bits(w) - 2, Quarter(w));
    OrDisjoint(2, 5, Bits(w) - 2, Quarter(w));
  }
}
