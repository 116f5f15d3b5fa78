/** Bitwise operations on natural numbers, and the facts about them the
    codec relies on: an OR of two values whose bits do not overlap is their
    sum, and an AND with a run of low one bits is a remainder. */
module Bitwise {

  function Pow2(k: nat): (r: nat)
    ensures r >= 1
  {
    if k == 0 then 1 else 2 * Pow2(k - 1)
  }

  /** Bitwise AND. */
  function And(a: nat, b: nat): nat
    decreases a
  {
    if a == 0 || b == 0 then 0
    else 2 * And(a / 2, b / 2) + (if a % 2 == 1 && b % 2 == 1 then 1 else 0)
  }

  /** Bitwise OR. */
  function Or(a: nat, b: nat): nat
    decreases a
  {
    if a == 0 then b
    else if b == 0 then a
    else 2 * Or(a / 2, b / 2) + (if a % 2 == 1 || b % 2 == 1 then 1 else 0)
  }

  /** `x << k`, for a shift that does not overflow. */
  function Shl(x: nat, k: nat): nat {
    x * Pow2(k)
  }

  /** `x >> k`. */
  function Shr(x: nat, k: nat): nat {
    DivNonNegative(x, Pow2(k));
    x / Pow2(k)
  }

  /** The quotient of a natural by a positive divisor is a natural. Stated
      on its own so that `Shr`'s result type is checked without the
      arithmetic of its callers in scope. */
  lemma DivNonNegative(x: nat, d: nat)
    requires d > 0
    ensures x / d >= 0
  {
  }

  /** Each bit is counted once by OR and twice by OR plus AND. */
  lemma {:induction false} OrPlusAnd(a: nat, b: nat)
    ensures Or(a, b) + And(a, b) == a + b
    decreases a
  {
    if a != 0 && b != 0 {
      OrPlusAnd(a / 2, b / 2);
    }
  }

  lemma {:induction false} AndAtMost(a: nat, b: nat)
    ensures And(a, b) <= a && And(a, b) <= b
    decreases a
  {
    if a != 0 && b != 0 {
      AndAtMost(a / 2, b / 2);
    }
  }

  /** OR keeps every bit of both operands, so it is at least each of them. */
  lemma OrAtLeast(a: nat, b: nat)
    ensures Or(a, b) >= a && Or(a, b) >= b
  {
    OrPlusAnd(a, b);
    AndAtMost(a, b);
  }

  /** The OR of two values below `2^k` is below `2^k`. */
  lemma {:induction false} OrBelow(a: nat, b: nat, k: nat)
    requires a < Pow2(k) && b < Pow2(k)
    ensures Or(a, b) < Pow2(k)
    decreases a
  {
    if a != 0 && b != 0 {
      OrBelow(a / 2, b / 2, k - 1);
    }
  }

  lemma {:induction false} OrSelf(a: nat)
    ensures Or(a, a) == a
    decreases a
  {
    if a != 0 {
      OrSelf(a / 2);
    }
  }

  /** A multiple of `p = 2^k` and a value below `p` share no bit. */
  lemma {:induction false} AndDisjoint(m: nat, b: nat, k: nat, p: nat)
    requires p == Pow2(k) && b < p
    ensures And(m * p, b) == 0 && And(b, m * p) == 0
  {
    if k > 0 {
      var h := Pow2(k - 1);
      var a := m * p;
      assert p == 2 * h;
      assert a == 2 * (m * h);
      assert a % 2 == 0 && a / 2 == m * h;
      AndDisjoint(m, b / 2, k - 1, h);
      if a != 0 && b != 0 {
        assert And(a, b) == 2 * And(m * h, b / 2);
        assert And(b, a) == 2 * And(b / 2, m * h);
      }
    }
  }

  /** OR-ing a value below `p = 2^k` into a multiple of `p` adds it. */
  lemma OrDisjoint(m: nat, b: nat, k: nat, p: nat)
    requires p == Pow2(k) && b < p
    ensures Or(m * p, b) == m * p + b
    ensures Or(b, m * p) == m * p + b
  {
    var a := m * p;
    AndDisjoint(m, b, k, p);
    OrPlusAnd(a, b);
    OrPlusAnd(b, a);
  }

  /** `a % (2 d)` from `(a / 2) % d` and the low bit of `a`. */
  lemma ModDouble(a: nat, d: nat)
    requires d > 0
    ensures a % (2 * d) == 2 * ((a / 2) % d) + a % 2
  {
    var q, r := (a / 2) / d, (a / 2) % d;
    assert a / 2 == q * d + r;
    assert a == q * (2 * d) + (2 * r + a % 2);
    ModUnique(a, 2 * d, q, 2 * r + a % 2);
  }

  lemma {:induction false} MulMonotone(x: nat, y: nat, d: nat)
    requires x <= y
    ensures x * d <= y * d
    decreases y - x
  {
    if x < y {
      MulMonotone(x, y - 1, d);
      assert y * d == (y - 1) * d + d;
    }
  }

  /** Quotient and remainder are the only such pair. */
  lemma ModUnique(a: nat, d: nat, q: nat, r: nat)
    requires d > 0 && a == q * d + r && r < d
    ensures a % d == r && a / d == q
  {
    var q', r' := a / d, a % d;
    assert a == q' * d + r';
    if q' > q {
      MulMonotone(q + 1, q', d);
      assert false;
    } else if q' < q {
      MulMonotone(q' + 1, q, d);
      assert false;
    }
  }

  /** AND with `p - 1`, the low `k` bits when `p = 2^k`, is the remainder
      modulo `p`. */
  lemma {:induction false} AndLowBits(a: nat, k: nat, p: nat)
    requires p == Pow2(k)
    ensures And(a, p - 1) == a % p
  {
    if k == 0 {
      assert p - 1 == 0;
    } else if a != 0 {
      var h := Pow2(k - 1);
      var m := p - 1;
      assert p == 2 * h;
      assert m / 2 == h - 1 && m % 2 == 1;
      AndLowBits(a / 2, k - 1, h);
      assert And(a, m) == 2 * ((a / 2) % h) + a % 2;
      ModDouble(a, h);
    }
  }

  lemma {:induction false} Pow2Add(a: nat, b: nat)
    ensures Pow2(a + b) == Pow2(a) * Pow2(b)
  {
    if a > 0 {
      Pow2Add(a - 1, b);
      assert Pow2(a + b) == 2 * Pow2(a - 1 + b);
    }
  }

  /** The powers of two up to `2^16` the codec's shifts and masks use. */
  lemma Pow2Small()
    ensures Pow2(2) == 4 && Pow2(5) == 0x20 && Pow2(6) == 0x40 && Pow2(8) == 0x100
    ensures Pow2(13) == 0x2000 && Pow2(14) == 0x4000 && Pow2(15) == 0x8000 && Pow2(16) == 0x1_0000
  {
    assert Pow2(4) == 16 && Pow2(5) == 32 && Pow2(6) == 64 && Pow2(7) == 128;
    Pow2Add(4, 4);
    Pow2Add(8, 5);
    Pow2Add(8, 6);
    Pow2Add(8, 7);
    Pow2Add(8, 8);
  }

  /** The powers of two near the top of the 32- and 64-bit words; those
      of the 16-bit word are in `Pow2Small`. */
  lemma Pow2Values()
    ensures Pow2(29) == 0x2000_0000 && Pow2(30) == 0x4000_0000 && Pow2(31) == 0x8000_0000
    ensures Pow2(32) == 0x1_0000_0000
    ensures Pow2(61) == 0x2000_0000_0000_0000 && Pow2(62) == 0x4000_0000_0000_0000
    ensures Pow2(63) == 0x8000_0000_0000_0000
    ensures Pow2(64) == 0x1_0000_0000_0000_0000
  {
    Pow2Small();
    Pow2Add(16, 13);
    Pow2Add(16, 14);
    Pow2Add(16, 15);
    Pow2Add(16, 16);
    Pow2Add(32, 29);
    Pow2Add(32, 30);
    Pow2Add(32, 31);
    Pow2Add(32, 32);
  }
}
