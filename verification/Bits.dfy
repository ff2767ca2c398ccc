/** Bitwise operators on naturals, defined by recursion on the bits, with the laws that
    turn the masks used by the kernel into arithmetic. */
module Bits {

  function Pow2(k: nat): (p: nat)
    ensures p > 0
  {
    if k == 0 then 1 else 2 * Pow2(k - 1)
  }

  function And(x: nat, y: nat): (r: nat)
    decreases x
  {
    if x == 0 || y == 0 then 0 else 2 * And(x / 2, y / 2) + (if x % 2 == 1 && y % 2 == 1 then 1 else 0)
  }

  function Or(x: nat, y: nat): (r: nat)
    decreases x + y
  {
    if x == 0 then y
    else if y == 0 then x
    else 2 * Or(x / 2, y / 2) + (if x % 2 == 1 || y % 2 == 1 then 1 else 0)
  }

  /** `x << a` without a width. */
  function Shl(x: nat, a: nat): (r: nat)
  {
    if a == 0 then x else 2 * Shl(x, a - 1)
  }

  /** `x >> a`. */
  function Shr(x: nat, a: nat): (r: nat)
    decreases a
  {
    if a == 0 then x else Shr(x / 2, a - 1)
  }

  /** Bit `k` of `x`. */
  predicate Bit(x: nat, k: nat)
  {
    if k == 0 then x % 2 == 1 else Bit(x / 2, k - 1)
  }

  lemma {:induction false} BitZero(k: nat)
    ensures !Bit(0, k)
  {
    if k > 0 { BitZero(k - 1); }
  }

  lemma {:induction false} BitAnd(x: nat, y: nat, k: nat)
    ensures Bit(And(x, y), k) == (Bit(x, k) && Bit(y, k))
    decreases k
  {
    BitZero(k);
    if x != 0 && y != 0 {
      var t := And(x / 2, y / 2);
      assert And(x, y) / 2 == t;
      if k > 0 { BitAnd(x / 2, y / 2, k - 1); }
    }
  }

  lemma {:induction false} BitOr(x: nat, y: nat, k: nat)
    ensures Bit(Or(x, y), k) == (Bit(x, k) || Bit(y, k))
    decreases k
  {
    BitZero(k);
    if x != 0 && y != 0 {
      assert Or(x, y) / 2 == Or(x / 2, y / 2);
      if k > 0 { BitOr(x / 2, y / 2, k - 1); }
    }
  }

  lemma {:induction false} BitPow2(k: nat, j: nat)
    ensures Bit(Pow2(k), j) == (j == k)
    decreases j
  {
    BitZero(j);
    if k > 0 {
      assert Pow2(k) / 2 == Pow2(k - 1);
      if j > 0 { BitPow2(k - 1, j - 1); }
    } else if j > 0 {
      BitZero(j - 1);
    }
  }

  /** The mask with the low `n` bits set has exactly those bits. */
  lemma {:induction false} BitLowMask(n: nat, j: nat)
    ensures Bit(Pow2(n) - 1, j) == (j < n)
    decreases j
  {
    BitZero(j);
    if n > 0 {
      assert (Pow2(n) - 1) / 2 == Pow2(n - 1) - 1;
      if j > 0 { BitLowMask(n - 1, j - 1); }
    }
  }

  /** Clearing one bit of the all-ones mask: `!(1 << k)` at width `n`. */
  lemma {:induction false} BitHoleMask(n: nat, k: nat, j: nat)
    requires k < n
    ensures Pow2(k) < Pow2(n)
    ensures Bit(Pow2(n) - 1 - Pow2(k), j) == (j < n && j != k)
    decreases k
  {
    Pow2Monotone(k, n);
    var m := Pow2(n) - 1 - Pow2(k);
    if k == 0 {
      assert m == 2 * (Pow2(n - 1) - 1);
      if j > 0 { BitLowMask(n - 1, j - 1); }
    } else {
      BitHoleMask(n - 1, k - 1, if j > 0 then j - 1 else 0);
      assert m == 2 * (Pow2(n - 1) - 1 - Pow2(k - 1)) + 1;
    }
  }

  lemma {:induction false} Pow2Monotone(a: nat, b: nat)
    requires a < b
    ensures 2 * Pow2(a) <= Pow2(b)
    decreases b
  {
    if a + 1 < b { Pow2Monotone(a, b - 1); }
  }

  lemma {:induction false} Pow2Add(a: nat, b: nat)
    ensures Pow2(a + b) == Pow2(a) * Pow2(b)
    decreases a
  {
    if a > 0 {
      Pow2Add(a - 1, b);
      assert Pow2(a + b) == 2 * (Pow2(a - 1) * Pow2(b)) == Pow2(a) * Pow2(b);
    }
  }

  lemma Pow2Sum(a: nat, b: nat, p: nat, q: nat)
    requires Pow2(a) == p && Pow2(b) == q
    ensures Pow2(a + b) == p * q
  {
    Pow2Add(a, b);
  }

  /** The powers that appear as constants in the kernel. */
  lemma Pow2Values()
    ensures Pow2(8) == 0x100 && Pow2(9) == 0x200 && Pow2(12) == 0x1000
    ensures Pow2(40) == 0x100_0000_0000 && Pow2(52) == 0x10_0000_0000_0000
    ensures Pow2(64) == 0x1_0000_0000_0000_0000
  {
    assert Pow2(8) == 0x100;
    assert Pow2(9) == 0x200;
    Pow2Sum(8, 8, 0x100, 0x100);
    Pow2Sum(16, 16, 0x1_0000, 0x1_0000);
    Pow2Sum(32, 8, 0x1_0000_0000, 0x100);
    assert Pow2(4) == 0x10;
    Pow2Sum(8, 4, 0x100, 0x10);
    Pow2Sum(40, 12, 0x100_0000_0000, 0x1000);
    Pow2Sum(52, 12, 0x10_0000_0000_0000, 0x1000);
  }

  /** The two operators split a sum. */
  lemma {:induction false} AndPlusOr(x: nat, y: nat)
    ensures And(x, y) + Or(x, y) == x + y
    decreases x
  {
    if x != 0 && y != 0 {
      AndPlusOr(x / 2, y / 2);
    }
  }

  /** `x & (2^k - 1)` is the remainder. */
  lemma {:induction false} AndLowMask(x: nat, k: nat)
    ensures And(x, Pow2(k) - 1) == x % Pow2(k)
    decreases k
  {
    hide And;
    if k > 0 {
      var p := Pow2(k - 1);
      AndLowMask(x / 2, k - 1);
      AndOddMask(x, p);
      ModDouble(x, p);
    } else {
      AndZero(x);
    }
  }

  lemma {:induction false} AndOddMask(x: nat, p: nat)
    requires p > 0
    ensures And(x, 2 * p - 1) == 2 * And(x / 2, p - 1) + x % 2
  {
    assert (2 * p - 1) / 2 == p - 1 && (2 * p - 1) % 2 == 1;
    AndZero(p - 1);
  }

  lemma {:induction false} AndZero(x: nat)
    ensures And(x, 0) == 0 == And(0, x)
  {}

  lemma ModDouble(x: nat, p: nat)
    requires p > 0
    ensures x % (2 * p) == 2 * (x / 2 % p) + x % 2
  {
    var q, r := x / 2 / p, x / 2 % p;
    assert x / 2 == q * p + r;
    assert x == q * (2 * p) + (2 * r + x % 2) by {
      assert x == 2 * (x / 2) + x % 2;
    }
    DivModUnique(x, 2 * p, q, 2 * r + x % 2);
  }

  /** Quotient and remainder are determined by the division equation. */
  lemma DivModUnique(x: int, d: int, q: int, r: int)
    requires d > 0 && 0 <= r < d && x == q * d + r
    ensures x / d == q && x % d == r
  {
    var k, s := x / d, x % d;
    assert (k - q) * d == r - s;
    if k > q {
      MulAtLeast(k - q, d);
    } else if k < q {
      MulAtLeast(q - k, d);
    }
  }

  lemma MulAtLeast(a: int, d: int)
    requires a >= 1 && d > 0
    ensures a * d >= d
  {
    assert a * d == (a - 1) * d + d;
    assert (a - 1) * d >= 0;
  }

  /** A mask and its complement split the word. */
  lemma {:induction false} AndComplement(x: nat, m: nat, n: nat)
    requires x < Pow2(n) && m < Pow2(n)
    ensures And(x, m) <= x
    ensures And(x, Pow2(n) - 1 - m) == x - And(x, m)
    decreases n
  {
    if n > 0 {
      var c := Pow2(n) - 1 - m;
      assert c / 2 == Pow2(n - 1) - 1 - m / 2 && c % 2 == 1 - m % 2;
      AndComplement(x / 2, m / 2, n - 1);
      AndUnfold(x, m);
      AndUnfold(x, c);
    }
  }

  lemma AndUnfold(x: nat, y: nat)
    ensures And(x, y) == 2 * And(x / 2, y / 2) + (if x % 2 == 1 && y % 2 == 1 then 1 else 0)
  {}

  /** A mask shifted left by `a` selects the shifted field. */
  lemma {:induction false} AndShifted(x: nat, m: nat, a: nat)
    ensures And(x, Shl(m, a)) == Shl(And(Shr(x, a), m), a)
    decreases a
  {
    if a > 0 {
      AndDoubled(x, Shl(m, a - 1));
      AndShifted(x / 2, m, a - 1);
    }
  }

  /** Shifting left multiplies by the power of two. */
  lemma {:induction false} ShlMultiplies(x: nat, a: nat)
    ensures Shl(x, a) == x * Pow2(a)
    decreases a
  {
    if a > 0 {
      ShlMultiplies(x, a - 1);
      assert 2 * (x * Pow2(a - 1)) == x * (2 * Pow2(a - 1));
    }
  }

  /** Shifting right divides by the power of two. */
  lemma {:induction false} ShrDivides(x: nat, a: nat)
    ensures Shr(x, a) == x / Pow2(a)
    decreases a
  {
    if a > 0 {
      ShrDivides(x / 2, a - 1);
      DivDiv(x, 2, Pow2(a - 1));
    }
  }

  lemma AndDoubled(x: nat, y: nat)
    ensures And(x, 2 * y) == 2 * And(x / 2, y)
  {
    AndUnfold(x, 2 * y);
  }

  lemma DivDiv(x: nat, a: nat, b: nat)
    requires a > 0 && b > 0
    ensures a * b > 0 && x / a / b == x / (a * b)
  {
    var q, r := x / a / b, x / a % b;
    assert x / a == q * b + r;
    assert x == a * (x / a) + x % a;
    assert a * (x / a) == q * (a * b) + a * r;
    assert a * r + x % a < a * b by {
      assert a * r <= a * (b - 1);
    }
    DivModUnique(x, a * b, q, a * r + x % a);
  }

  /** `x & !(2^k - 1)` at width `n` rounds down to a multiple of `2^k`. */
  lemma AndAlignDown(x: nat, k: nat, n: nat)
    requires k <= n && x < Pow2(n)
    ensures Pow2(k) <= Pow2(n)
    ensures And(x, Pow2(n) - 1 - (Pow2(k) - 1)) == x - x % Pow2(k)
  {
    if k < n { Pow2Monotone(k, n); }
    AndComplement(x, Pow2(k) - 1, n);
    AndLowMask(x, k);
  }

  /** Testing one bit with `x & 2^k`. */
  lemma {:induction false} AndPow2(x: nat, k: nat)
    ensures And(x, Pow2(k)) == if Bit(x, k) then Pow2(k) else 0
    decreases k
  {
    AndUnfold(x, Pow2(k));
    if k > 0 {
      assert Pow2(k) / 2 == Pow2(k - 1) && Pow2(k) % 2 == 0;
      AndPow2(x / 2, k - 1);
    } else {
      AndZero(x / 2);
    }
  }
}
