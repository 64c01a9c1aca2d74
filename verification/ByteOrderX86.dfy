/** byte_order_generic_x86_64.h: wide loads and stores on a little-endian host, and byte swaps. */
module ByteOrderX86 {
  import opened Bits
  import opened Bytes
  import opened ByteOrder

  function Uint5Korr(p: seq<Byte>): (r: nat)
    requires |p| >= 5
    ensures r == LowFirst(p[..5])
  {
    OrByte(p, 4, 32, 64);
    var a := HostLoad(p, 0, 4);
    var b := p[4];
    Or(a, Shl(b, 32, 64))
  }

  function Uint6Korr(p: seq<Byte>): (r: nat)
    requires |p| >= 6
    ensures r == LowFirst(p[..6])
  {
    OrNext(p, 4, 6, 64);
    var a := HostLoad(p, 0, 4);
    var b := HostLoad(p, 4, 2);
    Or(a, Shl(b, 32, 64))
  }

  // Numbers stored in high-bytes-first order

  function MiUint5Korr(p: seq<Byte>): (r: nat)
    requires |p| >= 5
    ensures r == HighFirst(p[..5])
  {
    OrByte(p, 4, 32, 64);
    ShiftedToTop(p[..5], 3, 24, 64);
    SwapFromTop(Shl(LowFirst(p[..5]), 24, 64), p[..5], 8);
    var a := HostLoad(p, 0, 4);
    var b := p[4];
    ByteSwap(Shl(Or(a, Shl(b, 32, 64)), 24, 64), 8)
  }

  function MiUint6Korr(p: seq<Byte>): (r: nat)
    requires |p| >= 6
    ensures r == HighFirst(p[..6])
  {
    OrNext(p, 4, 6, 64);
    ShiftedToTop(p[..6], 2, 16, 64);
    SwapFromTop(Shl(LowFirst(p[..6]), 16, 64), p[..6], 8);
    var a := HostLoad(p, 0, 4);
    var b := HostLoad(p, 4, 2);
    ByteSwap(Shl(Or(a, Shl(b, 32, 64)), 16, 64), 8)
  }

  function MiUint7Korr(p: seq<Byte>): (r: nat)
    requires |p| >= 7
    ensures r == HighFirst(p[..7])
  {
    OrNext(p, 4, 6, 64);
    OrByte(p, 6, 48, 64);
    ShiftedToTop(p[..7], 1, 8, 64);
    SwapFromTop(Shl(LowFirst(p[..7]), 8, 64), p[..7], 8);
    var a := HostLoad(p, 0, 4);
    var b := HostLoad(p, 4, 2);
    var c := p[6];
    ByteSwap(Shl(Or(Or(a, Shl(b, 32, 64)), Shl(c, 48, 64)), 8, 64), 8)
  }

  function MiUint8Korr(p: seq<Byte>): (r: nat)
    requires |p| >= 8
    ensures r == HighFirst(p[..8])
  {
    StoreLoaded(p[..8]);
    HighFirstIsReversed(p[..8]);
    ByteSwap(HostLoad(p, 0, 8), 8)
  }

  // Writers

  /** A store of the low `n` bytes of a word on a little-endian host. */
  method HostStore(t: array<Byte>, at: nat, v: nat, n: nat)
    requires at + n <= t.Length
    modifies t
    ensures t[..] == Written(old(t[..]), at, Stored(v, n))
  {
    MemCpy(t, at, Stored(v, n));
  }

  method Int2Store(t: array<Byte>, at: nat, v: int)
    requires at + 2 <= t.Length
    modifies t
    ensures t[..] == Written(old(t[..]), at, Stored(v, 2))
  {
    StoredUnsigned(v, 2, 2);
    HostStore(t, at, Unsigned(v, 16), 2);
  }

  /** Shifting the number as an unsigned int gives the same middle byte. */
  lemma MiddleByte(v: int)
    ensures Pow2(8) == 0x100 && Unsigned(Shr(Unsigned(v, 32), 8), 8) == Unsigned(Shr(v, 8), 8)
  {
    Pow2Values();
    StoredUnsigned(v, 2, 4);
    StoredAt(Unsigned(v, 32), 2, 1);
    StoredAt(v, 2, 1);
  }

  method Int3Store(t: array<Byte>, at: nat, v: int)
    requires at + 3 <= t.Length
    modifies t
    ensures t[..] == Written(old(t[..]), at, Stored(v, 3))
  {
    MiddleByte(v);
    t[at] := Unsigned(v, 8);
    t[at + 1] := Unsigned(Shr(Unsigned(v, 32), 8), 8);
    t[at + 2] := Unsigned(Shr(v, 16), 8);
    WrittenThree(old(t[..]), at, v);
  }

  method Int4Store(t: array<Byte>, at: nat, v: int)
    requires at + 4 <= t.Length
    modifies t
    ensures t[..] == Written(old(t[..]), at, Stored(v, 4))
  {
    StoredUnsigned(v, 4, 4);
    HostStore(t, at, Unsigned(v, 32), 4);
  }

  method Int5Store(t: array<Byte>, at: nat, v: int)
    requires at + 5 <= t.Length
    modifies t
    ensures t[..] == Written(old(t[..]), at, Stored(v, 5))
  {
    StoredUnsigned(v, 4, 4);
    HostStore(t, at, Unsigned(v, 32), 4);
    t[at + 4] := Unsigned(Shr(v, 32), 8);
    WrittenByte(old(t[..]), at, v, 4);
  }

  method Int6Store(t: array<Byte>, at: nat, v: int)
    requires at + 6 <= t.Length
    modifies t
    ensures t[..] == Written(old(t[..]), at, Stored(v, 6))
  {
    StoredUnsigned(v, 4, 4);
    HostStore(t, at, Unsigned(v, 32), 4);
    StoredUnsigned(Shr(v, 32), 2, 2);
    HostStore(t, at + 4, Unsigned(Shr(v, 32), 16), 2);
    StoredPieces(v, 4, 2);
    WrittenTwice(old(t[..]), at, Stored(v, 4), Stored(Shr(v, 32), 2));
  }

  method Int8Store(t: array<Byte>, at: nat, v: int)
    requires at + 8 <= t.Length
    modifies t
    ensures t[..] == Written(old(t[..]), at, Stored(v, 8))
  {
    StoredUnsigned(v, 8, 8);
    HostStore(t, at, Unsigned(v, 64), 8);
  }
}
