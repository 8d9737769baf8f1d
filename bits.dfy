/**
 Bitwise arithmetic on Python's non-negative integers.

 Python integers are unbounded, and the address code only ever applies `<<`,
 `>>`, `&`, `|` and a 32-bit `~` to non-negative values, so they are modelled
 here on `nat`, bit by bit, with the arithmetic facts the address code needs
 proved once.
 */
module Bits {

  /** 2 to the power k. */
  function Pow2(k: nat): (r: nat)
    ensures r >= 1
  {
    if k == 0 then 1 else 2 * Pow2(k - 1)
  }

  /** Python's `x << k` for non-negative x. */
  function Shl(x: nat, k: nat): nat
  {
    x * Pow2(k)
  }

  /** Python's `x >> k` for non-negative x. */
  function Shr(x: nat, k: nat): nat
  {
    DivNonNegative(x, Pow2(k));
    x / Pow2(k)
  }

  lemma DivNonNegative(x: nat, d: nat)
    requires d > 0
    ensures x / d >= 0
  {
  }

  /** `x << k` puts k zero bits below x, and `>> k` drops them again. */
  lemma ShlShr(x: nat, k: nat)
    ensures Shl(x, k) % Pow2(k) == 0 && Shr(Shl(x, k), k) == x
  {
    DivModUnique(x * Pow2(k), Pow2(k), x, 0);
  }

  /** `x >> k` is x divided by 2^k, rounded down. */
  lemma ShrBounds(x: nat, k: nat)
    ensures Shr(x, k) * Pow2(k) <= x < Shr(x, k) * Pow2(k) + Pow2(k)
  {
    var d := Pow2(k);
    assert x == (x / d) * d + x % d;
  }

  /** Python's `x & y` for non-negative x and y. */
  function And(x: nat, y: nat): (r: nat)
    ensures r <= x && r <= y
  {
    if x == 0 || y == 0 then 0
    else 2 * And(x / 2, y / 2) + (if x % 2 == 1 && y % 2 == 1 then 1 else 0)
  }

  /** Python's `x | y` for non-negative x and y. */
  function Or(x: nat, y: nat): (r: nat)
    ensures x <= r && y <= r && r <= x + y
  {
    if x == 0 then y
    else if y == 0 then x
    else 2 * Or(x / 2, y / 2) + (if x % 2 == 1 || y % 2 == 1 then 1 else 0)
  }

  /** Python's `~x & (2^w - 1)` for 0 <= x < 2^w: the w-bit inversion of x. */
  function Complement(x: nat, w: nat): (r: nat)
    requires x < Pow2(w)
    ensures r < Pow2(w)
  {
    Pow2(w) - 1 - x
  }

  /** Bit i of x (bit 0 is the least significant). */
  predicate TestBit(x: nat, i: nat)
  {
    if i == 0 then x % 2 == 1 else TestBit(x / 2, i - 1)
  }

  lemma {:induction false} Pow2Add(a: nat, b: nat)
    ensures Pow2(a + b) == Pow2(a) * Pow2(b)
  {
    if a > 0 {
      Pow2Add(a - 1, b);
    }
  }

  lemma {:induction false} Pow2Monotone(a: nat, b: nat)
    requires a <= b
    ensures Pow2(a) <= Pow2(b)
  {
    if a < b {
      Pow2Monotone(a, b - 1);
    }
  }

  /** The powers of two the IPv4 code uses. */
  lemma Pow2Constants()
    ensures Pow2(8) == 0x100 && Pow2(16) == 0x1_0000 && Pow2(24) == 0x100_0000
    ensures Pow2(32) == 0x1_0000_0000
  {
    Pow2Add(4, 4);
    Pow2Add(8, 8);
    Pow2Add(16, 8);
    Pow2Add(16, 16);
  }

  /** Masking with k low one-bits keeps the remainder modulo 2^k. */
  lemma {:induction false} AndLowMask(x: nat, k: nat)
    ensures And(x, Pow2(k) - 1) == x % Pow2(k)
  {
    if k == 0 {
      DivModUnique(x, 1, x, 0);
    } else if x == 0 {
      DivModUnique(0, Pow2(k), 0, 0);
    } else {
      AndLowMask(x / 2, k - 1);
      AndLowMaskStep(x, k);
    }
  }

  /** The inductive step of AndLowMask: the low bit of x is kept. */
  lemma AndLowMaskStep(x: nat, k: nat)
    requires k > 0
    requires And(x / 2, Pow2(k - 1) - 1) == (x / 2) % Pow2(k - 1)
    ensures And(x, Pow2(k) - 1) == x % Pow2(k)
  {
    var m := Pow2(k) - 1;
    assert m / 2 == Pow2(k - 1) - 1 && m % 2 == 1;
    AndStep(x, m);
    ModHalf(x, k);
  }

  /** x % 2^k splits into the low bit and the remainder of x / 2. */
  lemma ModHalf(x: nat, k: nat)
    requires k > 0
    ensures x % Pow2(k) == 2 * ((x / 2) % Pow2(k - 1)) + x % 2
  {
    var p := Pow2(k - 1);
    var q := (x / 2) / p;
    var r := (x / 2) % p;
    assert x / 2 == q * p + r;
    assert x == q * (2 * p) + (2 * r + x % 2);
    assert 0 <= 2 * r + x % 2 < 2 * p;
    DivModUnique(x, 2 * p, q, 2 * r + x % 2);
  }

  /** Division by d has a unique quotient and remainder. */
  lemma DivModUnique(x: nat, d: nat, q: nat, r: nat)
    requires 0 <= r < d && x == q * d + r
    ensures x % d == r && x / d == q
  {
    var q0, r0 := x / d, x % d;
    assert x == q0 * d + r0;
    if q < q0 {
      MulStep(q, q0, d);
    } else if q0 < q {
      MulStep(q0, q, d);
    }
  }

  lemma MulStep(a: nat, b: nat, d: nat)
    requires a < b
    ensures a * d + d <= b * d
  {
    var c := b - a - 1;
    assert b * d == (a + 1 + c) * d == a * d + d + c * d;
  }

  lemma MulLe(a: nat, b: nat, d: nat)
    ensures a <= b ==> a * d <= b * d
  {
    if a < b {
      MulStep(a, b, d);
    }
  }

  /** Rounding x down to a multiple of p. */
  lemma RoundDown(x: nat, p: nat)
    requires p > 0
    ensures x - x % p == (x / p) * p
    ensures (x - x % p) % p == 0
  {
    DivModUnique(x - x % p, p, x / p, 0);
  }

  /** A block of p values that starts at a multiple of p below r * p ends by r * p. */
  lemma BlockFits(x: nat, p: nat, r: nat)
    requires p > 0 && x < r * p
    ensures x - x % p + p <= r * p
  {
    RoundDown(x, p);
    MulLe(r, x / p, p);
    MulStep(x / p, r, p);
  }

  /** Multiplication is associative. */
  lemma MulAssoc(a: nat, b: nat, c: nat)
    ensures (a * b) * c == a * (b * c)
  {
  }

  /** Dividing q * d + r by d. */
  lemma DivOfSum(q: nat, d: nat, r: nat)
    requires d > 0
    ensures (q * d + r) / d == q + r / d && (q * d + r) % d == r % d
  {
    assert (q + r / d) * d == q * d + (r / d) * d;
    DivModUnique(q * d + r, d, q + r / d, r % d);
  }

  /** a rounds down to the same multiple of p as x exactly when it lies in x's block. */
  lemma SameBlock(x: nat, a: nat, p: nat)
    requires p > 0
    ensures a - a % p == x - x % p <==> x - x % p <= a < x - x % p + p
  {
    RoundDown(x, p);
    if x - x % p <= a < x - x % p + p {
      DivModUnique(a, p, x / p, a - (x - x % p));
    }
  }

  /** The value whose bits k .. w-1 are set and whose other bits are clear. */
  function HighMask(w: nat, k: nat): (m: nat)
    requires k <= w
    ensures m + Pow2(k) == Pow2(w)
  {
    Pow2Monotone(k, w);
    Pow2(w) - Pow2(k)
  }

  /**
   Masking a value below 2^w with the top w - k bits set clears its k low
   bits: the result is x rounded down to a multiple of 2^k.
   */
  lemma {:induction false} AndHighMask(x: nat, w: nat, k: nat)
    requires k <= w && x < Pow2(w)
    ensures And(x, HighMask(w, k)) == x - x % Pow2(k)
  {
    if k == 0 {
      AndLowMask(x, w);
      DivModUnique(x, Pow2(w), 0, x);
    } else if x == 0 {
    } else if HighMask(w, k) == 0 {
      DivModUnique(x, Pow2(k), 0, x);
    } else {
      assert x / 2 < Pow2(w - 1);
      AndHighMask(x / 2, w - 1, k - 1);
      AndHighMaskStep(x, w, k);
    }
  }

  /** The inductive step of AndHighMask: one low bit of x is cleared. */
  lemma AndHighMaskStep(x: nat, w: nat, k: nat)
    requires 0 < k <= w && x < Pow2(w) && x != 0 && HighMask(w, k) != 0
    requires And(x / 2, HighMask(w - 1, k - 1)) == x / 2 - (x / 2) % Pow2(k - 1)
    ensures And(x, HighMask(w, k)) == x - x % Pow2(k)
  {
    var m := HighMask(w, k);
    var h, p := x / 2, Pow2(k - 1);
    assert m % 2 == 0 && m / 2 == HighMask(w - 1, k - 1);
    AndStep(x, m);
    ModHalf(x, k);
  }

  /** `&` works bit by bit from the lowest bit up. */
  lemma AndStep(x: nat, y: nat)
    ensures And(x, y) == 2 * And(x / 2, y / 2) + (if x % 2 == 1 && y % 2 == 1 then 1 else 0)
  {
  }

  /** Masking with a value below 2^w only sees the w low bits. */
  lemma {:induction false} AndBelow(x: nat, m: nat, w: nat)
    requires m < Pow2(w)
    ensures And(x, m) == And(x % Pow2(w), m)
  {
    if w > 0 && m > 0 {
      var y := x % Pow2(w);
      ModHalf(x, w);
      assert y / 2 == (x / 2) % Pow2(w - 1) && y % 2 == x % 2;
      AndBelow(x / 2, m / 2, w - 1);
      AndStep(x, m);
      AndStep(y, m);
    } else if w == 0 {
      assert m == 0;
    }
  }

  /** A value shifted left by k shares no bit with a value below 2^k. */
  lemma {:induction false} AndShiftedDisjoint(x: nat, k: nat, y: nat)
    requires y < Pow2(k)
    ensures And(Shl(x, k), y) == 0
  {
    if k > 0 && x != 0 && y != 0 {
      var half := Shl(x, k - 1);
      assert Shl(x, k) == 2 * half;
      AndShiftedDisjoint(x, k - 1, y / 2);
    }
  }

  /** On values with no common bit, `|` is addition. */
  lemma {:induction false} OrDisjoint(x: nat, y: nat)
    requires And(x, y) == 0
    ensures Or(x, y) == x + y
  {
    if x != 0 && y != 0 {
      assert And(x / 2, y / 2) == 0;
      OrDisjoint(x / 2, y / 2);
    }
  }

  /** x and its w-bit inversion share no bit and together fill all w bits. */
  lemma {:induction false} ComplementDisjoint(x: nat, w: nat)
    requires x < Pow2(w)
    ensures And(x, Complement(x, w)) == 0
    ensures Or(x, Complement(x, w)) == Pow2(w) - 1
  {
    var y := Complement(x, w);
    if w > 0 && x != 0 && y != 0 {
      assert (x + y) % 2 == 1;
      assert x / 2 < Pow2(w - 1);
      assert y / 2 == Complement(x / 2, w - 1);
      ComplementDisjoint(x / 2, w - 1);
    }
    OrDisjoint(x, y);
  }

  /** The value with bits k .. w-1 set, below 2^w, has exactly those bits. */
  lemma {:induction false} HighMaskBits(w: nat, k: nat, i: nat)
    requires k <= w && i < w
    ensures TestBit(HighMask(w, k), i) <==> k <= i
  {
    var m := HighMask(w, k);
    if i == 0 {
      if k > 0 {
        assert m % 2 == 0;
      } else {
        assert m % 2 == 1;
      }
    } else if k == 0 {
      assert m / 2 == HighMask(w - 1, 0);
      HighMaskBits(w - 1, 0, i - 1);
    } else {
      assert m / 2 == HighMask(w - 1, k - 1);
      HighMaskBits(w - 1, k - 1, i - 1);
    }
  }
}
