/** The high-byte-first readers of mariadb_rpl.h, written with shifts and ors of single bytes. */
module MyisamOrder {
  import opened Bits
  import opened Bytes
  import opened ByteOrder

  /** The first `n` bytes from last to first: what the macros or together low byte first. */
  function Flipped(b: seq<Byte>, n: nat): (f: seq<Byte>)
    requires n <= |b|
    ensures |f| == n && LowFirst(f) == HighFirst(b[..n])
    ensures forall i | 0 <= i < n :: f[i] == b[n - 1 - i]
  {
    HighFirstIsReversed(b[..n]);
    ReversedAll(b[..n]);
    Reversed(b[..n])
  }

  lemma OrFlipped(f: seq<Byte>, n: nat, width: nat)
    requires 2 <= n == |f| <= 4 && 8 * n <= width
    ensures LowFirst(f[..1]) == f[0] && f[..n] == f
    ensures Or(f[0], Shl(f[1], 8, width)) == LowFirst(f[..2])
    ensures n > 2 ==> Or(LowFirst(f[..2]), Shl(f[2], 16, width)) == LowFirst(f[..3])
    ensures n > 3 ==> Or(LowFirst(f[..3]), Shl(f[3], 24, width)) == LowFirst(f[..4])
  {
    OneByte(f, 0);
    OrByte(f, 1, 8, width);
    if n > 2 {
      OrByte(f, 2, 16, width);
    }
    if n > 3 {
      OrByte(f, 3, 24, width);
    }
  }

  function MyisamUint2Korr(b: seq<Byte>): (r: nat)
    requires |b| >= 2
    ensures r == HighFirst(b[..2])
  {
    var f := Flipped(b, 2);
    OrFlipped(f, 2, 16);
    LowFirstBound(f);
    Pow256IsPow2(2);
    NoWrap(LowFirst(f), Pow2(16));
    Unsigned(Or(b[1], Shl(b[0], 8, 16)), 16)
  }

  function MyisamSint2Korr(b: seq<Byte>): (r: int)
    requires |b| >= 2
    ensures r == Signed(HighFirst(b[..2]), 16)
  {
    OrFlipped(Flipped(b, 2), 2, 16);
    Signed(Or(b[1], Shl(b[0], 8, 16)), 16)
  }

  function MyisamUint3Korr(b: seq<Byte>): (r: nat)
    requires |b| >= 3
    ensures r == HighFirst(b[..3])
  {
    OrFlipped(Flipped(b, 3), 3, 32);
    Or(Or(b[2], Shl(b[1], 8, 32)), Shl(b[0], 16, 32))
  }

  /** The bytes are widened as unsigned, so three of them never set the sign of the 32-bit result. */
  function MyisamSint3Korr(b: seq<Byte>): (r: int)
    requires |b| >= 3
    ensures r == HighFirst(b[..3])
  {
    var f := Flipped(b, 3);
    OrFlipped(f, 3, 32);
    LowFirstBound(f);
    Pow256IsPow2(3);
    Pow2Grows(24, 31);
    SignedFitsIff(LowFirst(f), 32);
    Signed(Or(Or(b[2], Shl(b[1], 8, 32)), Shl(b[0], 16, 32)), 32)
  }

  function MyisamUint4Korr(b: seq<Byte>): (r: nat)
    requires |b| >= 4
    ensures r == HighFirst(b[..4])
  {
    OrFlipped(Flipped(b, 4), 4, 32);
    Or(Or(Or(b[3], Shl(b[2], 8, 32)), Shl(b[1], 16, 32)), Shl(b[0], 24, 32))
  }

  function MyisamSint4Korr(b: seq<Byte>): (r: int)
    requires |b| >= 4
    ensures r == Signed(HighFirst(b[..4]), 32)
  {
    Signed(MyisamUint4Korr(b), 32)
  }

  /** The byte-shift reader that shares its name with the byte-swapping one. */
  function MiUint5Korr(b: seq<Byte>): (r: nat)
    requires |b| >= 5
    ensures r == HighFirst(b[..5])
  {
    var f := Flipped(b, 5);
    var low := f[..4];
    OrFlipped(low, 4, 32);
    OrByte(f, 4, 32, 64);
    assert f[..5] == f;
    Or(Or(Or(Or(b[4], Shl(b[3], 8, 32)), Shl(b[2], 16, 32)), Shl(b[1], 24, 32)), Shl(b[0], 32, 64))
  }
}
