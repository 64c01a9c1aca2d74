/** byte_order_generic.h: readers and writers that touch one byte at a time. */
module ByteOrderGeneric {
  import opened Bits
  import opened Bytes
  import opened ByteOrder

  function Uint2Korr(a: seq<Byte>): (r: nat)
    requires |a| >= 2
    ensures r == LowFirst(a[..2])
  {
    OneByte(a, 0);
    OrByte(a, 1, 8, 16);
    LowFirstBound(a[..2]);
    Pow256IsPow2(2);
    NoWrap(LowFirst(a[..2]), Pow2(16));
    Unsigned(Or(a[0], Shl(a[1], 8, 16)), 16)
  }

  function Uint3Korr(a: seq<Byte>): (r: nat)
    requires |a| >= 3
    ensures r == LowFirst(a[..3])
  {
    OneByte(a, 0);
    OrByte(a, 1, 8, 32);
    OrByte(a, 2, 16, 32);
    Or(Or(a[0], Shl(a[1], 8, 32)), Shl(a[2], 16, 32))
  }

  function Uint4Korr(a: seq<Byte>): (r: nat)
    requires |a| >= 4
    ensures r == LowFirst(a[..4])
  {
    OneByte(a, 0);
    OrByte(a, 1, 8, 32);
    OrByte(a, 2, 16, 32);
    OrByte(a, 3, 24, 32);
    Or(Or(Or(a[0], Shl(a[1], 8, 32)), Shl(a[2], 16, 32)), Shl(a[3], 24, 32))
  }

  function Uint5Korr(a: seq<Byte>): (r: nat)
    requires |a| >= 5
    ensures r == LowFirst(a[..5])
  {
    OrByte(a, 4, 32, 64);
    Or(Uint4Korr(a), Shl(a[4], 32, 64))
  }

  function Uint6Korr(a: seq<Byte>): (r: nat)
    requires |a| >= 6
    ensures r == LowFirst(a[..6])
  {
    OrByte(a, 5, 40, 64);
    Or(Uint5Korr(a), Shl(a[5], 40, 64))
  }

  function Uint8Korr(a: seq<Byte>): (r: nat)
    requires |a| >= 8
    ensures r == LowFirst(a[..8])
  {
    assert a[4..][..4] == a[4..8];
    OrNext(a, 4, 8, 64);
    Or(Uint4Korr(a), Shl(Uint4Korr(a[4..]), 32, 64))
  }

  function Sint2Korr(a: seq<Byte>): (r: int)
    requires |a| >= 2
    ensures r == Signed(LowFirst(a[..2]), 16)
  {
    OneByte(a, 0);
    OrByte(a, 1, 8, 16);
    Signed(Or(a[0], Shl(a[1], 8, 16)), 16)
  }

  /** Three bytes are sign-extended by hand: when bit 7 of the high byte is set, the top byte is filled with ones. */
  function Sint3Korr(a: seq<Byte>): (r: int)
    requires |a| >= 3
    ensures r == Signed(LowFirst(a[..3]), 24)
  {
    HighBit(a[2]);
    LowFirst3(a);
    Sint3Value(a[2], a[1], a[0], LowFirst(a[..3]));
    if And(a[2], 0x80) != 0 then
      Signed(Or(Or(Or(Shl(0xFF, 24, 32), Shl(a[2], 16, 32)), Shl(a[1], 8, 32)), a[0]), 32)
    else
      Signed(Or(Or(Shl(a[2], 16, 32), Shl(a[1], 8, 32)), a[0]), 32)
  }

  function Sint4Korr(a: seq<Byte>): (r: int)
    requires |a| >= 4
    ensures r == Signed(LowFirst(a[..4]), 32)
  {
    Signed(Uint4Korr(a), 32)
  }

  function Sint8Korr(a: seq<Byte>): (r: int)
    requires |a| >= 8
    ensures r == Signed(LowFirst(a[..8]), 64)
  {
    Signed(Uint8Korr(a), 64)
  }

  lemma HighBit(b: Byte)
    ensures And(b, 0x80) != 0 <==> b >= 0x80
  {
    Pow2Values();
    AndBit(b, 7);
  }

  lemma OrSecond(high: nat, b: Byte)
    ensures Or(high * 0x1_0000, Shl(b, 8, 32)) == (high * 0x100 + b) * 0x100
  {
    Pow2Values();
    ShlFits(b, 8, 32);
    OrDisjoint(b as int * 0x100, high, 16);
  }

  lemma OrFirst(high: nat, c: Byte)
    ensures Or(high * 0x100, c) == high * 0x100 + c
  {
    Pow2Values();
    OrDisjoint(c, high, 8);
  }

  /** Or-ing two more bytes below `high`. */
  lemma OrDown(high: nat, b: Byte, c: Byte)
    ensures Or(Or(high * 0x1_0000, Shl(b, 8, 32)), c) == high * 0x1_0000 + b as int * 0x100 + c
  {
    OrSecond(high, b);
    OrFirst(high * 0x100 + b, c);
  }

  lemma LowFirst3(a: seq<Byte>)
    requires |a| >= 3
    ensures LowFirst(a[..3]) == a[2] as int * 0x1_0000 + a[1] as int * 0x100 + a[0]
  {
    var s := a[..3];
    var t := s[1..];
    assert t == [a[1], a[2]] && t[1..] == [a[2]] && [a[2]][1..] == [];
    assert LowFirst(t) == a[1] as int + 0x100 * LowFirst([a[2]]);
  }

  lemma Sint3Value(x: Byte, y: Byte, z: Byte, v: nat)
    requires v == x as int * 0x1_0000 + y as int * 0x100 + z
    ensures if x >= 0x80
            then Signed(Or(Or(Or(Shl(0xFF, 24, 32), Shl(x, 16, 32)), Shl(y, 8, 32)), z), 32) == Signed(v, 24)
            else Signed(Or(Or(Shl(x, 16, 32), Shl(y, 8, 32)), z), 32) == Signed(v, 24)
  {
    Pow2Values();
    ShlFits(x, 16, 32);
    OrDown(x, y, z);
    assert Or(Shl(0xFF, 24, 32), Shl(x, 16, 32)) == (0xFF00 + x as int) * 0x1_0000 by {
      ShlFits(0xFF, 24, 32);
      OrDisjoint(x as int * 0x1_0000, 0xFF, 24);
    }
    OrDown(0xFF00 + x as int, y, z);
    SignExtend(v);
  }

  lemma SignExtend(v: nat)
    requires v < 0x100_0000
    ensures if v >= 0x80_0000 then Signed(0xFF00_0000 + v, 32) == Signed(v, 24) else Signed(v, 32) == Signed(v, 24)
  {
    Pow2Values();
    SignedIs(v, 24, 0x80_0000);
    SignedIs(v, 32, 0x8000_0000);
    SignedIs(0xFF00_0000 + v, 32, 0x8000_0000);
  }

  lemma SignedIs(u: nat, width: nat, half: nat)
    requires width > 0 && Pow2(width) == 2 * half && u < 2 * half
    ensures Signed(u, width) == if u < half then u else u - 2 * half
  {
    NoWrap(u, 2 * half);
  }

  // Writers

  method Int2Store(t: array<Byte>, at: nat, v: int)
    requires at + 2 <= t.Length
    modifies t
    ensures t[..] == Written(old(t[..]), at, Stored(v, 2))
  {
    var temp := Unsigned(v, 32);
    t[at] := Unsigned(temp, 8);
    t[at + 1] := Unsigned(Shr(temp, 8), 8);
    StoredUnsigned(v, 2, 4);
    StoredAt(temp, 2, 0);
    StoredAt(temp, 2, 1);
    assert t[at..at + 2] == Stored(temp, 2);
  }

  method Int3Store(t: array<Byte>, at: nat, v: int)
    requires at + 3 <= t.Length
    modifies t
    ensures t[..] == Written(old(t[..]), at, Stored(v, 3))
  {
    t[at] := Unsigned(v, 8);
    t[at + 1] := Unsigned(Shr(v, 8), 8);
    t[at + 2] := Unsigned(Shr(v, 16), 8);
    WrittenThree(old(t[..]), at, v);
  }

  /** The first three bytes are written as int3store writes them. */
  method Int4Store(t: array<Byte>, at: nat, v: int)
    requires at + 4 <= t.Length
    modifies t
    ensures t[..] == Written(old(t[..]), at, Stored(v, 4))
  {
    Int3Store(t, at, v);
    t[at + 3] := Unsigned(Shr(v, 24), 8);
    WrittenByte(old(t[..]), at, v, 3);
  }

  /** The first four bytes are written as int4store writes them. */
  method Int5Store(t: array<Byte>, at: nat, v: int)
    requires at + 5 <= t.Length
    modifies t
    ensures t[..] == Written(old(t[..]), at, Stored(v, 5))
  {
    Int4Store(t, at, v);
    t[at + 4] := Unsigned(Shr(v, 32), 8);
    WrittenByte(old(t[..]), at, v, 4);
  }

  method Int6Store(t: array<Byte>, at: nat, v: int)
    requires at + 6 <= t.Length
    modifies t
    ensures t[..] == Written(old(t[..]), at, Stored(v, 6))
  {
    Int5Store(t, at, v);
    t[at + 5] := Unsigned(Shr(v, 40), 8);
    WrittenByte(old(t[..]), at, v, 5);
  }

  method Int8Store(t: array<Byte>, at: nat, v: int)
    requires at + 8 <= t.Length
    modifies t
    ensures t[..] == Written(old(t[..]), at, Stored(v, 8))
  {
    var temp, temp2 := Unsigned(v, 32), Unsigned(Shr(v, 32), 32);
    Int4Store(t, at, temp);
    Int4Store(t, at + 4, temp2);
    StoredUnsigned(v, 4, 4);
    StoredUnsigned(Shr(v, 32), 4, 4);
    StoredPieces(v, 4, 4);
    WrittenTwice(old(t[..]), at, Stored(v, 4), Stored(Shr(v, 32), 4));
  }
}
