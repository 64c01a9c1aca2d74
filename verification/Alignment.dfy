/**
 MY_ALIGN and MY_ALIGN_DOWN of my_global.h.  The expressions are computed in words of `width` bits; the
 complement of L - 1 has ones up to `ones` bits: all of the word, or fewer when L is of a narrower unsigned type.
 */
module Alignment {
  import opened Bits

  function MyAlign(a: nat, l: nat, width: nat, ones: nat): nat
    requires 0 < l <= Pow2(ones)
  {
    And(Unsigned(a + l - 1, width), Not(l - 1, ones))
  }

  function MyAlignDown(a: nat, l: nat, ones: nat): nat
    requires 0 < l <= Pow2(ones)
  {
    And(a, Not(l - 1, ones))
  }

  predicate Multiple(x: nat, l: nat)
    requires l > 0
  {
    x == 0 || (x >= l && Multiple(x - l, l))
  }

  ghost predicate LeastMultipleFrom(r: nat, a: nat, l: nat)
    requires l > 0
  {
    Multiple(r, l) && r >= a && forall m: nat | Multiple(m, l) && m >= a :: r <= m
  }

  ghost predicate GreatestMultipleTo(r: nat, a: nat, l: nat)
    requires l > 0
  {
    Multiple(r, l) && r <= a && forall m: nat | Multiple(m, l) && m <= a :: m <= r
  }

  /** No multiple of `l` lies strictly between two neighbouring ones. */
  lemma {:induction false} MultiplesApart(x: nat, y: nat, l: nat)
    requires l > 0 && Multiple(x, l) && Multiple(y, l) && x < y
    ensures x + l <= y
  {
    if x > 0 {
      MultiplesApart(x - l, y - l, l);
    }
  }

  lemma {:induction false} MultipleIff(x: nat, l: nat)
    requires l > 0
    ensures Multiple(x, l) <==> x % l == 0
  {
    if x >= l {
      MultipleIff(x - l, l);
      ModLess(x, l);
    } else {
      NoWrap(x, l);
    }
  }

  lemma ModLess(x: nat, l: nat)
    requires 0 < l <= x
    ensures (x - l) % l == x % l
  {
    ModUnique(x, l, (x - l) / l + 1, (x - l) % l);
  }

  lemma RoundedMultiple(a: nat, l: nat)
    requires l > 0
    ensures Multiple(a - a % l, l)
  {
    MultipleIff(a - a % l, l);
    ModUnique(a - a % l, l, a / l, 0);
  }

  lemma RoundedDown(a: nat, l: nat)
    requires l > 0
    ensures GreatestMultipleTo(a - a % l, a, l)
  {
    var r := a - a % l;
    RoundedMultiple(a, l);
    forall m: nat | Multiple(m, l) && m <= a
      ensures m <= r
    {
      if r < m {
        MultiplesApart(r, m, l);
      }
    }
  }

  lemma RoundedUp(a: nat, l: nat, x: nat, r: nat)
    requires l > 0 && x == a + l - 1 && r == x - x % l
    ensures LeastMultipleFrom(r, a, l)
  {
    RoundedDown(x, l);
    forall m: nat | Multiple(m, l) && m >= a
      ensures r <= m
    {
      if m < r {
        MultiplesApart(m, r, l);
      }
    }
  }

  lemma Pow2Multiple(k: nat, n: nat)
    requires k <= n
    ensures Multiple(Pow2(n), Pow2(k))
  {
    Pow2Sum(k, n - k);
    MulCommutes(Pow2(k), Pow2(n - k));
    ModUnique(Pow2(n), Pow2(k), Pow2(n - k), 0);
    MultipleIff(Pow2(n), Pow2(k));
  }

  lemma AlignIsAlignDown(a: nat, k: nat, width: nat, ones: nat)
    requires k <= ones
    ensures Pow2(k) <= Pow2(ones)
    ensures MyAlign(a, Pow2(k), width, ones) == MyAlignDown(Unsigned(a + Pow2(k) - 1, width), Pow2(k), ones)
  {
    Pow2Grows(k, ones);
  }

  lemma ModPow2(x: nat, k: nat, n: nat)
    requires k <= n
    ensures x % Pow2(n) % Pow2(k) == x % Pow2(k)
  {
    Pow2Sum(k, n - k);
    ModOfMod(x, Pow2(k), Pow2(n - k));
  }

  lemma MaskedRest(x: nat, k: nat, ones: nat)
    requires k <= ones
    ensures Pow2(k) <= Pow2(ones)
    ensures var y := x % Pow2(ones); MyAlignDown(x, Pow2(k), ones) == y - y % Pow2(k)
  {
    Pow2Grows(k, ones);
    AndMask(x, Not(Pow2(k) - 1, ones), k, ones);
    ModPow2(x, k, ones);
  }

  lemma RoundedBelow(y: nat, d: nat, l: nat)
    requires l > 0 && Multiple(d, l) && y < d
    ensures Multiple(y - y % l, l) && y - y % l + l <= d
  {
    RoundedMultiple(y, l);
    MultiplesApart(y - y % l, d, l);
  }

  /** What the complement keeps is a multiple of 2^k that ends 2^k below 2^ones, whatever it is applied to. */
  lemma Masked(x: nat, k: nat, ones: nat)
    requires k <= ones
    ensures Pow2(k) <= Pow2(ones)
    ensures var r := MyAlignDown(x, Pow2(k), ones); Multiple(r, Pow2(k)) && r + Pow2(k) <= Pow2(ones)
  {
    MaskedRest(x, k, ones);
    Pow2Multiple(k, ones);
    RoundedBelow(x % Pow2(ones), Pow2(ones), Pow2(k));
  }

  /** On a number that fits, it rounds down. */
  lemma MaskedSmall(x: nat, k: nat, ones: nat)
    requires k <= ones && x < Pow2(ones)
    ensures Pow2(k) <= Pow2(ones)
    ensures MyAlignDown(x, Pow2(k), ones) == x - x % Pow2(k)
  {
    MaskedRest(x, k, ones);
    NoWrap(x, Pow2(ones));
  }

  lemma NotGreatest(r: nat, m: nat, a: nat, l: nat)
    requires l > 0 && Multiple(m, l) && r < m <= a
    ensures !GreatestMultipleTo(r, a, l)
  {
  }

  lemma NotLeast(r: nat, d: nat, a: nat, l: nat)
    requires l > 0 && r + l <= d <= a + l - 1
    ensures !LeastMultipleFrom(r, a, l)
  {
  }

  /** MY_ALIGN_DOWN gives the greatest multiple exactly when the mask is as wide as the address. */
  lemma AlignDownIsGreatestIff(a: nat, k: nat, ones: nat)
    requires k <= ones
    ensures Pow2(k) <= Pow2(ones)
    ensures GreatestMultipleTo(MyAlignDown(a, Pow2(k), ones), a, Pow2(k)) <==> a < Pow2(ones)
  {
    Masked(a, k, ones);
    if a < Pow2(ones) {
      MaskedSmall(a, k, ones);
      RoundedDown(a, Pow2(k));
    } else {
      Pow2Multiple(k, ones);
      NotGreatest(MyAlignDown(a, Pow2(k), ones), Pow2(ones), a, Pow2(k));
    }
  }

  lemma UnsignedSmall(x: nat, ones: nat, width: nat)
    requires ones <= width && x < Pow2(ones)
    ensures Unsigned(x, width) == x
  {
    Pow2Grows(ones, width);
    NoWrap(x, Pow2(width));
  }

  lemma AlignSmall(a: nat, k: nat, width: nat, ones: nat, x: nat)
    requires k <= ones <= width && x == a + Pow2(k) - 1 < Pow2(ones)
    ensures MyAlign(a, Pow2(k), width, ones) == x - x % Pow2(k)
  {
    UnsignedSmall(x, ones, width);
    AlignIsAlignDown(a, k, width, ones);
    MaskedSmall(x, k, ones);
  }

  lemma AlignIsLeast(a: nat, k: nat, width: nat, ones: nat)
    requires k <= ones <= width && a + Pow2(k) - 1 < Pow2(ones)
    ensures LeastMultipleFrom(MyAlign(a, Pow2(k), width, ones), a, Pow2(k))
  {
    AlignSmall(a, k, width, ones, a + Pow2(k) - 1);
    RoundedUp(a, Pow2(k), a + Pow2(k) - 1, MyAlign(a, Pow2(k), width, ones));
  }

  /** MY_ALIGN gives the least multiple exactly when neither the addition nor the mask runs out of bits. */
  lemma AlignIsLeastIff(a: nat, k: nat, width: nat, ones: nat)
    requires k <= ones <= width && a < Pow2(width)
    ensures Pow2(k) <= Pow2(ones)
    ensures LeastMultipleFrom(MyAlign(a, Pow2(k), width, ones), a, Pow2(k)) <==> a + Pow2(k) - 1 < Pow2(ones)
  {
    AlignIsAlignDown(a, k, width, ones);
    Masked(Unsigned(a + Pow2(k) - 1, width), k, ones);
    if a + Pow2(k) - 1 < Pow2(ones) {
      AlignIsLeast(a, k, width, ones);
    } else {
      NotLeast(MyAlign(a, Pow2(k), width, ones), Pow2(ones), a, Pow2(k));
    }
  }

  /** With a full mask, an addition that overflows gives 0. */
  lemma AlignOverflows(a: nat, k: nat, width: nat)
    requires k <= width && a < Pow2(width) <= a + Pow2(k) - 1
    ensures Pow2(k) <= Pow2(width) && MyAlign(a, Pow2(k), width, width) == 0
  {
    var l, d, x := Pow2(k), Pow2(width), a + Pow2(k) - 1;
    Pow2Grows(k, width);
    ModUnique(x, d, 1, x - d);
    MaskedSmall(x - d, k, width);
    NoWrap(x - d, l);
  }

  /** A multiple below 2^ones is left alone by both macros. */
  lemma MultipleStays(r: nat, k: nat, width: nat, ones: nat)
    requires k <= ones <= width && Multiple(r, Pow2(k)) && r + Pow2(k) <= Pow2(ones)
    ensures Pow2(k) <= Pow2(ones)
    ensures MyAlign(r, Pow2(k), width, ones) == r == MyAlignDown(r, Pow2(k), ones)
  {
    Pow2Grows(ones, width);
    AlignIsLeastIff(r, k, width, ones);
    AlignDownIsGreatestIff(r, k, ones);
  }

  lemma DownStays(x: nat, k: nat, width: nat, ones: nat)
    requires k <= ones <= width
    ensures Pow2(k) <= Pow2(ones)
    ensures var r := MyAlignDown(x, Pow2(k), ones);
            MyAlign(r, Pow2(k), width, ones) == r == MyAlignDown(r, Pow2(k), ones)
  {
    Masked(x, k, ones);
    MultipleStays(MyAlignDown(x, Pow2(k), ones), k, width, ones);
  }

  /** Applying either macro to a result of either macro changes nothing, also after an overflow. */
  lemma AlignIdempotent(a: nat, k: nat, width: nat, ones: nat)
    requires k <= ones <= width && a < Pow2(width)
    ensures Pow2(k) <= Pow2(ones)
    ensures var l := Pow2(k);
            var up, down := MyAlign(a, l, width, ones), MyAlignDown(a, l, ones);
            && MyAlign(up, l, width, ones) == up == MyAlignDown(up, l, ones)
            && MyAlign(down, l, width, ones) == down == MyAlignDown(down, l, ones)
  {
    AlignIsAlignDown(a, k, width, ones);
    DownStays(Unsigned(a + Pow2(k) - 1, width), k, width, ones);
    DownStays(a, k, width, ones);
  }

  /** Both macros keep the order of addresses, MY_ALIGN as long as the larger one does not overflow. */
  lemma AlignMonotone(a: nat, b: nat, k: nat, width: nat, ones: nat)
    requires k <= ones <= width && a <= b < Pow2(ones)
    ensures Pow2(k) <= Pow2(ones)
    ensures MyAlignDown(a, Pow2(k), ones) <= MyAlignDown(b, Pow2(k), ones)
    ensures b + Pow2(k) - 1 < Pow2(ones)
            ==> MyAlign(a, Pow2(k), width, ones) <= MyAlign(b, Pow2(k), width, ones)
  {
    AlignDownIsGreatestIff(a, k, ones);
    AlignDownIsGreatestIff(b, k, ones);
    if b + Pow2(k) - 1 < Pow2(ones) {
      Pow2Grows(ones, width);
      AlignIsLeastIff(a, k, width, ones);
      AlignIsLeastIff(b, k, width, ones);
    }
  }
}
