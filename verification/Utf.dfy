/**
 The encoding forms UTF-16 (section 2 of RFC 2781) and UTF-8 (section 3 of RFC 3629): encoders,
 strict decoders, and that each pair is inverse in both directions.
 */
module Utf {
  import opened Options
  import opened Bytes

  type Unit = x: int | 0 <= x < 0x10000
  type Scalar = c: int | 0 <= c <= 0x10FFFF && !(0xD800 <= c <= 0xDFFF)

  // UTF-16

  predicate IsHigh(u: Unit) { 0xD800 <= u <= 0xDBFF }

  predicate IsLow(u: Unit) { 0xDC00 <= u <= 0xDFFF }

  function Units(c: Scalar): seq<Unit> {
    if c < 0x10000 then [c] else [0xD800 + (c - 0x10000) / 0x400, 0xDC00 + (c - 0x10000) % 0x400]
  }

  function Encode16(cs: seq<Scalar>): seq<Unit> {
    if cs == [] then [] else Units(cs[0]) + Encode16(cs[1..])
  }

  /** How many units the first character takes, or 0 if it is ill-formed. */
  function Head16(s: seq<Unit>): nat
    requires s != []
  {
    if !IsHigh(s[0]) && !IsLow(s[0]) then 1
    else if IsHigh(s[0]) && |s| > 1 && IsLow(s[1]) then 2
    else 0
  }

  function First16(s: seq<Unit>): Scalar
    requires s != [] && Head16(s) != 0
  {
    if Head16(s) == 1 then s[0] else 0x10000 + (s[0] as int - 0xD800) * 0x400 + (s[1] as int - 0xDC00)
  }

  function Decode16(s: seq<Unit>): Option<seq<Scalar>> {
    if s == [] then Some([])
    else if Head16(s) == 0 then None
    else
      match Decode16(s[Head16(s)..])
      case None => None
      case Some(rest) => Some([First16(s)] + rest)
  }

  /** Every high surrogate is followed by a low one and every low one preceded by a high one. */
  ghost predicate WellFormed16(s: seq<Unit>) {
    && (forall i | 0 <= i < |s| && IsHigh(s[i]) :: i + 1 < |s| && IsLow(s[i + 1]))
    && (forall i | 0 <= i < |s| && IsLow(s[i]) :: i > 0 && IsHigh(s[i - 1]))
  }

  /**
   Units sort as the characters do, except that a character from U+E000 to U+FFFF comes after every pair.  With
   the round trips this leaves only one map between pairs and supplementary characters.
   */
  lemma UnitsOrderIff(c: Scalar, d: Scalar)
    requires c < d
    ensures LexLess(Units(c), Units(d)) <==> !(0xE000 <= c < 0x10000 <= d)
  {
    var s, t := Units(c), Units(d);
    if 0x10000 <= c {
      PairOrder(c - 0x10000, d - 0x10000);
      LexAt(s, t, if s[0] < t[0] then 0 else 1);
    }
  }

  lemma PairOrder(x: nat, y: nat)
    requires x < y
    ensures x / 0x400 < y / 0x400 || (x / 0x400 == y / 0x400 && x % 0x400 < y % 0x400)
  {
  }

  lemma {:induction false} Decode16Encode16(cs: seq<Scalar>)
    ensures Decode16(Encode16(cs)) == Some(cs)
  {
    if cs == [] {
      assert Encode16(cs) == [];
    } else {
      assert [cs[0]] + cs[1..] == cs;
      Decode16Encode16(cs[1..]);
      var s := Encode16(cs);
      assert s[|Units(cs[0])|..] == Encode16(cs[1..]);
      assert Head16(s) == |Units(cs[0])| && First16(s) == cs[0];
    }
  }

  lemma {:induction false} Encode16Decode16(s: seq<Unit>)
    requires Decode16(s).Some?
    ensures Encode16(Decode16(s).value) == s
  {
    if s != [] {
      Encode16Decode16(s[Head16(s)..]);
      assert Units(First16(s)) == s[..Head16(s)];
    }
  }

  lemma WellFormedWhole16(s: seq<Unit>, n: nat)
    requires s != [] && Head16(s) == n != 0 && WellFormed16(s[n..])
    ensures WellFormed16(s)
  {
    var t := s[n..];
    assert forall i | n <= i < |s| :: s[i] == t[i - n];
  }

  lemma WellFormedRest16(s: seq<Unit>, n: nat)
    requires s != [] && Head16(s) == n != 0 && WellFormed16(s)
    ensures WellFormed16(s[n..])
  {
    var t := s[n..];
    assert forall i | 0 <= i < |t| :: t[i] == s[i + n];
  }

  lemma {:induction false} Decode16IffWellFormed(s: seq<Unit>)
    ensures Decode16(s).Some? <==> WellFormed16(s)
  {
    if s != [] && Head16(s) != 0 {
      var n := Head16(s);
      Decode16IffWellFormed(s[n..]);
      if WellFormed16(s[n..]) {
        WellFormedWhole16(s, n);
      } else if WellFormed16(s) {
        WellFormedRest16(s, n);
      }
    }
  }

  /** A final non-surrogate unit neither repairs nor spoils what stands before it. */
  lemma {:induction false} Decode16Append(s: seq<Unit>, u: Unit)
    requires !IsHigh(u) && !IsLow(u)
    ensures Decode16(s + [u]) == match Decode16(s) case None => None case Some(cs) => Some(cs + [u])
  {
    var t := s + [u];
    if s == [] {
      assert t == [u] && t[1..] == [] && [u] + [] == [] + [u];
    } else if Head16(s) != 0 {
      assert Head16(t) == Head16(s) && t[Head16(s)..] == s[Head16(s)..] + [u];
      Decode16Append(s[Head16(s)..], u);
      match Decode16(s[Head16(s)..])
      case None =>
      case Some(rest) => assert [First16(s)] + rest + [u] == [First16(s)] + (rest + [u]);
    }
  }

  // UTF-8

  function Octets(c: Scalar): seq<Byte> {
    if c < 0x80 then [c]
    else if c < 0x800 then [0xC0 + c / 0x40, 0x80 + c % 0x40]
    else if c < 0x10000 then [0xE0 + c / 0x40 / 0x40, 0x80 + c / 0x40 % 0x40, 0x80 + c % 0x40]
    else [0xF0 + c / 0x40 / 0x40 / 0x40, 0x80 + c / 0x40 / 0x40 % 0x40, 0x80 + c / 0x40 % 0x40, 0x80 + c % 0x40]
  }

  function Encode8(cs: seq<Scalar>): seq<Byte> {
    if cs == [] then [] else Octets(cs[0]) + Encode8(cs[1..])
  }

  predicate IsTail(b: Byte) { 0x80 <= b <= 0xBF }

  /** The length announced by a lead byte, or 0. */
  function Announced(b: Byte): nat {
    if b < 0x80 then 1
    else if 0xC0 <= b < 0xE0 then 2
    else if 0xE0 <= b < 0xF0 then 3
    else if 0xF0 <= b < 0xF8 then 4
    else 0
  }

  /** Six more bits from a tail byte. */
  function Shifted(x: int, tail: Byte): int {
    x * 0x40 + (tail as int - 0x80)
  }

  /** The number spelled by a lead byte and its tails, before any check. */
  function Spelled(s: seq<Byte>): int
    requires s != [] && 0 < Announced(s[0]) <= |s|
  {
    match Announced(s[0])
    case 1 => s[0]
    case 2 => Shifted(s[0] as int - 0xC0, s[1])
    case 3 => Shifted(Shifted(s[0] as int - 0xE0, s[1]), s[2])
    case _ => Shifted(Shifted(Shifted(s[0] as int - 0xF0, s[1]), s[2]), s[3])
  }

  /** The least number a sequence of this length may spell. */
  function Least(n: nat): nat {
    if n <= 1 then 0 else if n == 2 then 0x80 else if n == 3 then 0x800 else 0x10000
  }

  /** How many bytes the first character takes, or 0 if it is truncated, overlong, a surrogate or too large. */
  function Head8(s: seq<Byte>): nat
    requires s != []
  {
    var n := Announced(s[0]);
    if n == 0 || n > |s| || exists i | 0 < i < n :: !IsTail(s[i]) then 0
    else if Spelled(s) < Least(n) || Spelled(s) > 0x10FFFF || 0xD800 <= Spelled(s) <= 0xDFFF then 0
    else n
  }

  function First8(s: seq<Byte>): Scalar
    requires s != [] && Head8(s) != 0
  {
    Spelled(s)
  }

  function Decode8(s: seq<Byte>): Option<seq<Scalar>> {
    if s == [] then Some([])
    else if Head8(s) == 0 then None
    else
      match Decode8(s[Head8(s)..])
      case None => None
      case Some(rest) => Some([First8(s)] + rest)
  }

  lemma OctetsSpell(c: Scalar, s: seq<Byte>)
    requires Octets(c) <= s
    ensures Announced(s[0]) == |Octets(c)| && Spelled(s) == c
    ensures forall i | 0 < i < |Octets(c)| :: IsTail(s[i])
  {
    var n := |Octets(c)|;
    assert forall i | 0 <= i < n :: s[i] == Octets(c)[i];
  }

  lemma HeadOfEncoded8(c: Scalar, rest: seq<Byte>)
    ensures var s := Octets(c) + rest; Head8(s) == |Octets(c)| && First8(s) == c
  {
    OctetsSpell(c, Octets(c) + rest);
  }

  lemma {:induction false} Decode8Encode8(cs: seq<Scalar>)
    ensures Decode8(Encode8(cs)) == Some(cs)
  {
    if cs == [] {
      assert Encode8(cs) == [];
    } else {
      assert [cs[0]] + cs[1..] == cs;
      Decode8Encode8(cs[1..]);
      HeadOfEncoded8(cs[0], Encode8(cs[1..]));
      assert Encode8(cs)[|Octets(cs[0])|..] == Encode8(cs[1..]);
    }
  }

  lemma Unshifted(x: int, tail: Byte)
    requires IsTail(tail)
    ensures Shifted(x, tail) / 0x40 == x && 0x80 + Shifted(x, tail) % 0x40 == tail
  {
  }

  lemma Encoded2(a: int, b: Byte)
    requires IsTail(b) && 0x80 <= Shifted(a, b) < 0x800
    ensures Octets(Shifted(a, b)) == [0xC0 + a, b]
  {
    Unshifted(a, b);
  }

  lemma Encoded3(a: int, b: Byte, c: Byte)
    requires IsTail(b) && IsTail(c)
    requires var x := Shifted(Shifted(a, b), c); 0x800 <= x < 0x10000 && !(0xD800 <= x <= 0xDFFF)
    ensures Octets(Shifted(Shifted(a, b), c)) == [0xE0 + a, b, c]
  {
    Unshifted(a, b);
    Unshifted(Shifted(a, b), c);
  }

  lemma Encoded4(a: int, b: Byte, c: Byte, d: Byte)
    requires IsTail(b) && IsTail(c) && IsTail(d)
    requires 0x10000 <= Shifted(Shifted(Shifted(a, b), c), d) <= 0x10FFFF
    ensures Octets(Shifted(Shifted(Shifted(a, b), c), d)) == [0xF0 + a, b, c, d]
  {
    Unshifted(a, b);
    Unshifted(Shifted(a, b), c);
    Unshifted(Shifted(Shifted(a, b), c), d);
  }

  lemma EncodedHead8(s: seq<Byte>)
    requires s != [] && Head8(s) != 0
    ensures Octets(First8(s)) == s[..Head8(s)]
  {
    var n := Head8(s);
    assert forall i | 0 < i < n :: IsTail(s[i]);
    match n
    case 1 =>
    case 2 => Encoded2(s[0] as int - 0xC0, s[1]);
    case 3 => Encoded3(s[0] as int - 0xE0, s[1], s[2]);
    case _ => Encoded4(s[0] as int - 0xF0, s[1], s[2], s[3]);
  }

  /** The first character of a decoded string, and the rest. */
  lemma DecodedParts8(s: seq<Byte>, cs: seq<Scalar>) returns (n: nat)
    requires s != [] && Decode8(s) == Some(cs)
    ensures 0 < n <= |s| && cs != [] && Octets(cs[0]) == s[..n] && Decode8(s[n..]) == Some(cs[1..])
  {
    n := Head8(s);
    var rest := Decode8(s[n..]).value;
    assert cs == [First8(s)] + rest && cs[1..] == rest;
    EncodedHead8(s);
  }

  lemma JoinedEncoding8(cs: seq<Scalar>, s: seq<Byte>, n: nat)
    requires cs != [] && n <= |s| && Octets(cs[0]) == s[..n] && Encode8(cs[1..]) == s[n..]
    ensures Encode8(cs) == s
  {
  }

  lemma {:induction false} Encode8Decode8(s: seq<Byte>, cs: seq<Scalar>)
    requires Decode8(s) == Some(cs)
    ensures Encode8(cs) == s
    decreases |s|
  {
    if s != [] {
      var n := DecodedParts8(s, cs);
      Encode8Decode8(s[n..], cs[1..]);
      JoinedEncoding8(cs, s, n);
    }
  }

  lemma {:induction false} Encode8Append(cs: seq<Scalar>, c: Scalar)
    ensures Encode8(cs + [c]) == Encode8(cs) + Octets(c)
  {
    if cs == [] {
      assert Encode8([c]) == Octets(c) + Encode8([c][1..]);
    } else {
      assert (cs + [c])[1..] == cs[1..] + [c];
      Encode8Append(cs[1..], c);
    }
  }

  lemma SixBits(x: nat, y: nat)
    requires x < y
    ensures x / 0x40 < y / 0x40 || (x / 0x40 == y / 0x40 && x % 0x40 < y % 0x40)
  {
  }

  /** Where the bytes of two characters first differ: neither is the beginning of the other, and they sort alike. */
  lemma OctetsDiffer(c: Scalar, d: Scalar) returns (k: nat)
    requires c < d
    ensures var s, t := Octets(c), Octets(d);
            k < |s| && k < |t| && s[..k] == t[..k] && s[k] < t[k]
  {
    if |Octets(c)| == |Octets(d)| {
      k := OctetsDifferSame(c, d);
    } else {
      k := 0;
    }
  }

  lemma OctetsDifferSame(c: Scalar, d: Scalar) returns (k: nat)
    requires c < d && |Octets(c)| == |Octets(d)|
    ensures var s, t := Octets(c), Octets(d);
            k < |s| && s[..k] == t[..k] && s[k] < t[k]
  {
    var n := |Octets(c)|;
    k := n - 1;
    SixBits(c, d);
    if n > 1 && c / 0x40 < d / 0x40 {
      k := n - 2;
      SixBits(c / 0x40, d / 0x40);
      if n > 2 && c / 0x40 / 0x40 < d / 0x40 / 0x40 {
        k := n - 3;
        SixBits(c / 0x40 / 0x40, d / 0x40 / 0x40);
        if n > 3 && c / 0x40 / 0x40 / 0x40 < d / 0x40 / 0x40 / 0x40 {
          k := 0;
        }
      }
    }
  }

  lemma {:induction false} Encode8KeepsOrder(cs: seq<Scalar>, ds: seq<Scalar>)
    requires LexLess(cs, ds)
    ensures LexLess(Encode8(cs), Encode8(ds))
  {
    var s, t := Encode8(cs), Encode8(ds);
    if cs != [] {
      var c, d := cs[0], ds[0];
      if c < d {
        var k := OctetsDiffer(c, d);
        assert s[..k] == Octets(c)[..k] && t[..k] == Octets(d)[..k];
        LexAt(s, t, k);
      } else {
        Encode8KeepsOrder(cs[1..], ds[1..]);
        LexPrefix(Octets(c), Encode8(cs[1..]), Encode8(ds[1..]));
      }
    }
  }

  /** UTF-8 strings sort as their characters do. */
  lemma Encode8OrderIff(cs: seq<Scalar>, ds: seq<Scalar>)
    ensures LexLess(Encode8(cs), Encode8(ds)) <==> LexLess(cs, ds)
  {
    LexTotal(cs, ds);
    LexTotal(Encode8(cs), Encode8(ds));
    if LexLess(cs, ds) {
      Encode8KeepsOrder(cs, ds);
    } else if LexLess(ds, cs) {
      Encode8KeepsOrder(ds, cs);
    }
  }

  /** UTF8-octets by the grammar of section 4 of RFC 3629. */
  predicate Utf8Char(s: seq<Byte>) {
    || (|s| == 1 && s[0] <= 0x7F)
    || (|s| == 2 && 0xC2 <= s[0] <= 0xDF && IsTail(s[1]))
    || (|s| == 3 && IsTail(s[2])
        && (|| (s[0] == 0xE0 && 0xA0 <= s[1] <= 0xBF)
            || (0xE1 <= s[0] <= 0xEC && IsTail(s[1]))
            || (s[0] == 0xED && 0x80 <= s[1] <= 0x9F)
            || (0xEE <= s[0] <= 0xEF && IsTail(s[1]))))
    || (|s| == 4 && IsTail(s[2]) && IsTail(s[3])
        && (|| (s[0] == 0xF0 && 0x90 <= s[1] <= 0xBF)
            || (0xF1 <= s[0] <= 0xF3 && IsTail(s[1]))
            || (s[0] == 0xF4 && 0x80 <= s[1] <= 0x8F)))
  }

  ghost predicate Valid8(s: seq<Byte>)
    decreases |s|
  {
    s == [] || exists n | 1 <= n <= |s| && n <= 4 :: Utf8Char(s[..n]) && Valid8(s[n..])
  }

  lemma Head8IsChar(s: seq<Byte>, n: nat)
    requires s != [] && 1 <= n <= |s|
    ensures Utf8Char(s[..n]) <==> Head8(s) == n
  {
    if Head8(s) == n {
      assert forall i | 0 < i < n :: IsTail(s[i]);
      CharOfHead8(s, n);
    }
    if Utf8Char(s[..n]) {
      HeadOfChar8(s, n);
    }
  }

  lemma CharOfHead8(s: seq<Byte>, n: nat)
    requires s != [] && Head8(s) == n > 0
    requires forall i | 0 < i < n :: IsTail(s[i])
    ensures Utf8Char(s[..n])
  {
    var t := s[..n];
    assert t[0] == s[0];
    if n > 1 {
      assert t[1] == s[1] && IsTail(s[1]);
    }
    if n > 2 {
      assert t[2] == s[2] && IsTail(s[2]);
    }
    if n > 3 {
      assert t[3] == s[3] && IsTail(s[3]);
    }
  }

  lemma HeadOfChar8(s: seq<Byte>, n: nat)
    requires 1 <= n <= |s| && Utf8Char(s[..n])
    ensures Head8(s) == n
  {
    var t := s[..n];
    assert forall i | 0 <= i < n :: t[i] == s[i];
    assert Announced(s[0]) == n;
    assert forall i | 0 < i < n :: IsTail(t[i]);
  }

  lemma {:induction false} Decode8IffValid(s: seq<Byte>)
    ensures Decode8(s).Some? <==> Valid8(s)
    decreases |s|
  {
    if s != [] {
      if Head8(s) != 0 {
        Head8IsChar(s, Head8(s));
        Decode8IffValid(s[Head8(s)..]);
      }
      forall n | 1 <= n <= |s| && n <= 4
        ensures Utf8Char(s[..n]) <==> Head8(s) == n
      {
        Head8IsChar(s, n);
      }
    }
  }
}
