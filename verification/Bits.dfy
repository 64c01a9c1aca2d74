/** Shifts, masks and bitwise operations of unsigned machine words, as arithmetic on natural numbers. */
module Bits {
  function Pow2(n: nat): (p: nat)
    ensures p > 0
  {
    if n == 0 then 1 else 2 * Pow2(n - 1)
  }

  function Or(x: nat, y: nat): nat {
    if x == 0 then y
    else if y == 0 then x
    else 2 * Or(x / 2, y / 2) + (if x % 2 == 1 || y % 2 == 1 then 1 else 0)
  }

  function And(x: nat, y: nat): nat {
    if x == 0 || y == 0 then 0
    else 2 * And(x / 2, y / 2) + (if x % 2 == 1 && y % 2 == 1 then 1 else 0)
  }

  /** The complement in a word of `width` bits. */
  function Not(x: nat, width: nat): nat
    requires x < Pow2(width)
  {
    Pow2(width) - 1 - x
  }

  /** A left shift drops what leaves the word. */
  function Shl(x: nat, k: nat, width: nat): nat {
    x * Pow2(k) % Pow2(width)
  }

  /** The right shift of a two's complement number of any sign. */
  function Shr(x: int, k: nat): int {
    x / Pow2(k)
  }

  /** A conversion to an unsigned type of `width` bits. */
  function Unsigned(x: int, width: nat): (u: nat)
    ensures u < Pow2(width)
  {
    x % Pow2(width)
  }

  /** A conversion to a signed type of `width` bits. */
  function Signed(x: int, width: nat): int
    requires width > 0
  {
    var u := Unsigned(x, width);
    if u < Pow2(width - 1) then u else u - Pow2(width)
  }

  lemma {:induction false} Pow2Sum(m: nat, n: nat)
    ensures Pow2(m + n) == Pow2(m) * Pow2(n)
  {
    if m > 0 {
      Pow2Sum(m - 1, n);
    }
  }

  lemma Pow2Grows(m: nat, n: nat)
    requires m <= n
    ensures Pow2(m) <= Pow2(n)
  {
    Pow2Sum(m, n - m);
    MulAtLeast(Pow2(n - m), Pow2(m));
  }

  lemma Pow2Values()
    ensures Pow2(7) == 0x80 && Pow2(8) == 0x100 && Pow2(16) == 0x1_0000 && Pow2(24) == 0x100_0000
    ensures Pow2(32) == 0x1_0000_0000 && Pow2(40) == 0x100_0000_0000 && Pow2(48) == 0x1_0000_0000_0000
    ensures Pow2(56) == 0x100_0000_0000_0000 && Pow2(64) == 0x1_0000_0000_0000_0000
  {
    assert Pow2(4) == 16;
    Pow2Sum(4, 4);
    assert Pow2(7) * 2 == Pow2(8);
    Pow2Sum(8, 8);
    Pow2Sum(8, 16);
    Pow2Sum(16, 16);
    Pow2Sum(8, 32);
    Pow2Sum(16, 32);
    Pow2Sum(24, 32);
    Pow2Sum(32, 32);
  }

  lemma OrCommutes(x: nat, y: nat)
    ensures Or(x, y) == Or(y, x)
  {
  }

  lemma OrDouble(x: nat, z: nat)
    ensures Or(x, 2 * z) == 2 * Or(x / 2, z) + x % 2
  {
  }

  /** Words without common bits add up. */
  lemma {:induction false} OrDisjoint(x: nat, y: nat, k: nat)
    requires x < Pow2(k)
    ensures Or(x, y * Pow2(k)) == x + y * Pow2(k) == Or(y * Pow2(k), x)
  {
    if k > 0 {
      var z := y * Pow2(k - 1);
      assert y * Pow2(k) == 2 * z;
      OrDouble(x, z);
      OrDisjoint(x / 2, y, k - 1);
    }
    OrCommutes(x, y * Pow2(k));
  }

  lemma AndOdd(x: nat, y: nat)
    ensures And(x, 2 * y + 1) == 2 * And(x / 2, y) + x % 2
  {
  }

  lemma AndEven(x: nat, y: nat)
    ensures And(x, 2 * y) == 2 * And(x / 2, y)
  {
    if x > 0 && y > 0 {
      assert 2 * y / 2 == y && 2 * y % 2 == 0;
    }
  }

  lemma AndOnesStep(x: nat, y: nat, p: nat)
    requires p > 0 && And(x / 2, y) == x / 2 % p
    ensures And(x, 2 * y + 1) == x % (2 * p)
  {
    AndOdd(x, y);
    ModHalf(x, p);
  }

  lemma {:induction false} AndOnes(x: nat, width: nat)
    ensures And(x, Pow2(width) - 1) == x % Pow2(width)
  {
    if width > 0 {
      var p := Pow2(width - 1);
      AndOnes(x / 2, width - 1);
      AndOnesStep(x, p - 1, p);
      assert Pow2(width) == 2 * p;
    }
  }

  lemma AndMaskStep(x: nat, y: nat, p: nat, q: nat)
    requires p > 0 && q > 0 && And(x / 2, y) == x / 2 % p - x / 2 % q
    ensures And(x, 2 * y) == x % (2 * p) - x % (2 * q)
  {
    AndEven(x, y);
    ModHalf(x, p);
    ModHalf(x, q);
  }

  /** A mask of ones from bit `k` up to `width` keeps those bits. */
  lemma {:induction false} AndMask(x: nat, mask: nat, k: nat, width: nat)
    requires k <= width && mask == Pow2(width) - Pow2(k)
    ensures And(x, mask) == x % Pow2(width) - x % Pow2(k)
  {
    if k == 0 {
      AndOnes(x, width);
      assert x % 1 == 0;
    } else {
      var p, q := Pow2(width - 1), Pow2(k - 1);
      Pow2Grows(k - 1, width - 1);
      AndMask(x / 2, p - q, k - 1, width - 1);
      AndMaskStep(x, p - q, p, q);
      assert mask == 2 * (p - q);
    }
  }

  lemma ModHalf(x: nat, p: nat)
    requires p > 0
    ensures x % (2 * p) == 2 * (x / 2 % p) + x % 2
  {
    DivDiv(x, 2, p);
  }

  lemma ModUnique(x: int, d: nat, q: int, r: int)
    requires d > 0 && x == q * d + r && 0 <= r < d
    ensures x % d == r && x / d == q
  {
    var k := q - x / d;
    assert k * d == q * d - x / d * d;
    assert x == x / d * d + x % d;
    if k >= 1 {
      MulAtLeast(k, d);
    }
  }

  lemma NoWrap(x: nat, d: nat)
    requires x < d
    ensures x % d == x
  {
  }

  lemma MulCommutes(a: int, b: int)
    ensures a * b == b * a
  {
  }

  lemma MulAssociates(a: int, b: int, c: int)
    ensures a * (b * c) == (a * b) * c
  {
  }

  lemma MulAtLeast(k: nat, d: nat)
    requires k >= 1
    ensures k * d >= d
  {
  }

  /** Testing one bit. */
  lemma {:induction false} AndBit(x: nat, k: nat)
    ensures And(x, Pow2(k)) == Pow2(k) * (x / Pow2(k) % 2)
  {
    if k == 0 {
      assert And(x / 2, 0) == 0;
    } else {
      var p := Pow2(k - 1);
      AndBit(x / 2, k - 1);
      AndEven(x, p);
      DivDiv(x, 2, p);
      MulAssociates(2, p, x / Pow2(k) % 2);
    }
  }

  lemma DivDiv(x: int, a: nat, b: nat)
    requires a > 0 && b > 0
    ensures a * b > 0 && x / a / b == x / (a * b)
    ensures x % (a * b) == x % a + a * (x / a % b)
  {
    var y := x / a;
    var q, r := y / b, y % b;
    Expand(q, b, r, a);
    MulAtMost(a, r, b - 1);
    assert x == q * (a * b) + (a * r + x % a);
    ModUnique(x, a * b, q, a * r + x % a);
  }

  lemma ModOfMod(x: int, a: nat, b: nat)
    requires a > 0 && b > 0
    ensures a * b > 0 && x % (a * b) % a == x % a
  {
    DivDiv(x, a, b);
    ModUnique(x % (a * b), a, x / a % b, x % a);
  }

  lemma Expand(q: int, b: int, r: int, a: int)
    ensures (q * b + r) * a == q * (a * b) + a * r
  {
  }

  lemma MulAtMost(a: nat, r: int, s: int)
    requires r <= s
    ensures a * r <= a * s
  {
  }
}
