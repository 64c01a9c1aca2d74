/** The numbers a byte string stands for, low byte first and high byte first, and the bytes a number is stored as. */
module Bytes {
  import opened Bits

  type Byte = x: int | 0 <= x < 0x100

  function Pow256(n: nat): (p: nat)
    ensures p > 0
  {
    if n == 0 then 1 else 0x100 * Pow256(n - 1)
  }

  function LowFirst(s: seq<Byte>): nat {
    if s == [] then 0 else s[0] + 0x100 * LowFirst(s[1..])
  }

  function HighFirst(s: seq<Byte>): nat {
    if s == [] then 0 else 0x100 * HighFirst(s[..|s| - 1]) + s[|s| - 1]
  }

  /** The low `n` bytes of a number of any sign in two's complement, low byte first. */
  function Stored(v: int, n: nat): (s: seq<Byte>)
    ensures |s| == n
    decreases n
  {
    if n == 0 then [] else [v % 0x100] + Stored(v / 0x100, n - 1)
  }

  function Reversed(s: seq<Byte>): (r: seq<Byte>)
    ensures |r| == |s|
  {
    if s == [] then [] else [s[|s| - 1]] + Reversed(s[..|s| - 1])
  }

  function Zeros(n: nat): (s: seq<Byte>)
    ensures |s| == n
  {
    if n == 0 then [] else [0] + Zeros(n - 1)
  }

  lemma {:induction false} ZerosAt(n: nat, i: nat)
    requires i < n
    ensures Zeros(n)[i] == 0
  {
    if i > 0 {
      ZerosAt(n - 1, i - 1);
    }
  }

  lemma {:induction false} ZerosValue(n: nat)
    ensures LowFirst(Zeros(n)) == 0
  {
    if n > 0 {
      ZerosValue(n - 1);
    }
  }

  lemma {:induction false} ReversedAt(s: seq<Byte>, i: nat)
    requires i < |s|
    ensures Reversed(s)[i] == s[|s| - 1 - i]
  {
    if i > 0 {
      ReversedAt(s[..|s| - 1], i - 1);
    }
  }

  lemma ReversedAll(s: seq<Byte>)
    ensures forall i | 0 <= i < |s| :: Reversed(s)[i] == s[|s| - 1 - i]
  {
    forall i | 0 <= i < |s|
      ensures Reversed(s)[i] == s[|s| - 1 - i]
    {
      ReversedAt(s, i);
    }
  }

  lemma {:induction false} Pow256IsPow2(n: nat)
    ensures Pow256(n) == Pow2(8 * n)
  {
    if n > 0 {
      Pow256IsPow2(n - 1);
      Pow2Values();
      Pow2Sum(8, 8 * (n - 1));
      assert 8 * n == 8 + 8 * (n - 1);
    }
  }

  lemma {:induction false} LowFirstBound(s: seq<Byte>)
    ensures LowFirst(s) < Pow256(|s|)
  {
    if s != [] {
      LowFirstBound(s[1..]);
    }
  }

  lemma {:induction false} LowFirstConcat(s: seq<Byte>, t: seq<Byte>)
    ensures LowFirst(s + t) == LowFirst(s) + Pow256(|s|) * LowFirst(t)
  {
    if s == [] {
      assert s + t == t;
    } else {
      assert (s + t)[1..] == s[1..] + t;
      LowFirstConcat(s[1..], t);
      MulAssociates(0x100, Pow256(|s| - 1), LowFirst(t));
    }
  }

  lemma {:induction false} HighFirstIsReversed(s: seq<Byte>)
    ensures HighFirst(s) == LowFirst(Reversed(s))
  {
    if s != [] {
      HighFirstIsReversed(s[..|s| - 1]);
      assert Reversed(s)[1..] == Reversed(s[..|s| - 1]);
    }
  }

  /** Loading what was stored gives the value modulo 256^n. */
  lemma {:induction false} LoadStored(v: int, n: nat)
    ensures LowFirst(Stored(v, n)) == v % Pow256(n)
    decreases n
  {
    if n > 0 {
      LoadStored(v / 0x100, n - 1);
      assert Stored(v, n)[1..] == Stored(v / 0x100, n - 1);
      DivDiv(v, 0x100, Pow256(n - 1));
    }
  }

  lemma LowByte(b: Byte, x: nat)
    ensures (b + 0x100 * x) % 0x100 == b && (b + 0x100 * x) / 0x100 == x
  {
  }

  /** Storing what was loaded restores the bytes. */
  lemma {:induction false} StoreLoaded(s: seq<Byte>)
    ensures Stored(LowFirst(s), |s|) == s
  {
    if s != [] {
      StoreLoaded(s[1..]);
      LowByte(s[0], LowFirst(s[1..]));
      assert [s[0]] + s[1..] == s;
    }
  }

  /** Storing in two pieces. */
  lemma {:induction false} StoredConcat(v: int, m: nat, n: nat)
    ensures Stored(v, m + n) == Stored(v, m) + Stored(v / Pow256(m), n)
    decreases m
  {
    if m == 0 {
      assert Stored(v, 0) == [];
    } else {
      StoredConcat(v / 0x100, m - 1, n);
      ShiftTwice(v, m);
    }
  }

  lemma ShiftTwice(v: int, m: nat)
    requires m > 0
    ensures v / 0x100 / Pow256(m - 1) == v / Pow256(m)
  {
    DivDiv(v, 0x100, Pow256(m - 1));
  }

  /** A conversion to a type that is wide enough does not change the stored bytes. */
  lemma {:induction false} StoredOfMod(v: int, n: nat, m: nat)
    requires n <= m
    ensures Stored(v % Pow256(m), n) == Stored(v, n)
    decreases n
  {
    if n > 0 {
      var w, u := v / 0x100, v % Pow256(m);
      assert u % 0x100 == v % 0x100 && u / 0x100 == w % Pow256(m - 1) by {
        DivDiv(v, 0x100, Pow256(m - 1));
        assert u == v % 0x100 + 0x100 * (w % Pow256(m - 1));
      }
      StoredOfMod(w, n - 1, m - 1);
    }
  }

  lemma {:induction false} HighFirstFront(s: seq<Byte>)
    requires s != []
    ensures HighFirst(s) == Pow256(|s| - 1) * s[0] + HighFirst(s[1..])
  {
    if |s| == 1 {
      assert s[..0] == [];
    } else {
      var init := s[..|s| - 1];
      HighFirstFront(init);
      assert init[1..] == s[1..][..|s| - 2];
      MulAssociates(0x100, Pow256(|s| - 2), s[0]);
    }
  }

  lemma {:induction false} HighFirstBound(s: seq<Byte>)
    ensures HighFirst(s) < Pow256(|s|)
  {
    if s != [] {
      HighFirstBound(s[..|s| - 1]);
    }
  }

  /** Dictionary order. */
  predicate LexLess(s: seq<int>, t: seq<int>) {
    t != [] && (s == [] || s[0] < t[0] || (s[0] == t[0] && LexLess(s[1..], t[1..])))
  }

  /** Dictionary order is total. */
  lemma {:induction false} LexTotal(s: seq<int>, t: seq<int>)
    ensures LexLess(s, t) || s == t || LexLess(t, s)
    ensures !(LexLess(s, t) && LexLess(t, s)) && !LexLess(s, s)
  {
    if s != [] {
      LexTotal(s[1..], if t == [] then [] else t[1..]);
      if t != [] && s[0] == t[0] && s[1..] == t[1..] {
        assert s == [s[0]] + s[1..] && t == [t[0]] + t[1..];
      }
    }
  }

  /** The first difference decides. */
  lemma {:induction false} LexAt(s: seq<int>, t: seq<int>, k: nat)
    requires k < |s| && k < |t| && s[..k] == t[..k] && s[k] < t[k]
    ensures LexLess(s, t)
  {
    if k > 0 {
      assert s[0] == s[..k][0] == t[..k][0] == t[0];
      assert s[1..][..k - 1] == s[..k][1..] && t[1..][..k - 1] == t[..k][1..];
      LexAt(s[1..], t[1..], k - 1);
    }
  }

  /** A common beginning does not matter. */
  lemma {:induction false} LexPrefix(p: seq<int>, s: seq<int>, t: seq<int>)
    requires LexLess(s, t)
    ensures LexLess(p + s, p + t)
  {
    if p == [] {
      assert p + s == s && p + t == t;
    } else {
      LexPrefix(p[1..], s, t);
      assert (p + s)[1..] == p[1..] + s && (p + t)[1..] == p[1..] + t;
    }
  }

  /** High-byte-first numbers compare as their byte strings do. */
  lemma {:induction false} HighFirstOrder(s: seq<Byte>, t: seq<Byte>)
    requires |s| == |t|
    ensures HighFirst(s) < HighFirst(t) <==> LexLess(s, t)
    ensures HighFirst(s) == HighFirst(t) <==> s == t
  {
    if s != [] {
      HighFirstOrder(s[1..], t[1..]);
      HighFirstFront(s);
      HighFirstFront(t);
      HighFirstBound(s[1..]);
      HighFirstBound(t[1..]);
      var p := Pow256(|s| - 1);
      if s[0] < t[0] {
        MulSteps(p, s[0], t[0]);
      } else if t[0] < s[0] {
        MulSteps(p, t[0], s[0]);
      } else {
        assert s == [s[0]] + s[1..] && t == [t[0]] + t[1..];
      }
    }
  }

  lemma MulSteps(p: nat, a: int, b: int)
    requires a < b
    ensures p * a + p <= p * b
  {
    MulAtLeast(b - a, p);
    assert (b - a) * p == p * b - p * a;
  }
}
