/** Facts shared by all readers and writers of numbers in byte buffers. */
module ByteOrder {
  import opened Bits
  import opened Bytes

  lemma ShlFits(x: nat, k: nat, width: nat)
    requires x * Pow2(k) < Pow2(width)
    ensures Shl(x, k, width) == x * Pow2(k)
  {
    NoWrap(x * Pow2(k), Pow2(width));
  }

  lemma OrShifted(low: nat, x: nat, k: nat, width: nat)
    requires low < Pow2(k) && low + x * Pow2(k) < Pow2(width)
    ensures Or(low, Shl(x, k, width)) == low + x * Pow2(k)
  {
    ShlFits(x, k, width);
    OrDisjoint(low, x, k);
  }

  /** Or-ing in the next bytes, shifted into place, extends a low-byte-first number. */
  lemma OrNext(s: seq<Byte>, k: nat, m: nat, width: nat)
    requires k <= m <= |s| && 8 * m <= width
    ensures Or(LowFirst(s[..k]), Shl(LowFirst(s[k..m]), 8 * k, width)) == LowFirst(s[..m])
  {
    var low, x := LowFirst(s[..k]), LowFirst(s[k..m]);
    assert low < Pow2(8 * k) by {
      LowFirstBound(s[..k]);
      Pow256IsPow2(k);
    }
    assert LowFirst(s[..m]) == low + x * Pow2(8 * k) by {
      assert s[..k] + s[k..m] == s[..m];
      LowFirstConcat(s[..k], s[k..m]);
      Pow256IsPow2(k);
      MulCommutes(Pow256(k), x);
    }
    assert LowFirst(s[..m]) < Pow2(width) by {
      LowFirstBound(s[..m]);
      Pow256IsPow2(m);
      Pow2Grows(8 * m, width);
    }
    OrShifted(low, x, 8 * k, width);
  }

  lemma OneByte(s: seq<Byte>, k: nat)
    requires k < |s|
    ensures LowFirst(s[k..k + 1]) == s[k]
  {
    assert s[k..k + 1] == [s[k]];
    assert [s[k]][1..] == [];
  }

  lemma OrByte(s: seq<Byte>, k: nat, shift: nat, width: nat)
    requires k < |s| && shift == 8 * k && 8 * (k + 1) <= width
    ensures Or(LowFirst(s[..k]), Shl(s[k], shift, width)) == LowFirst(s[..k + 1])
  {
    OneByte(s, k);
    OrNext(s, k, k + 1, width);
  }

  /** The host is little-endian: a load of `n` bytes takes them low byte first. */
  function HostLoad(p: seq<Byte>, at: nat, n: nat): nat
    requires at + n <= |p|
  {
    LowFirst(p[at..at + n])
  }

  /** Reverses the bytes of a word of `n` bytes, as the bswapq instruction does for 8. */
  function ByteSwap(v: nat, n: nat): nat {
    LowFirst(Reversed(Stored(v, n)))
  }

  lemma {:induction false} ReversedConcat(s: seq<Byte>, t: seq<Byte>)
    ensures Reversed(s + t) == Reversed(t) + Reversed(s)
  {
    if t == [] {
      assert s + t == s;
    } else {
      assert (s + t)[..|s + t| - 1] == s + t[..|t| - 1];
      ReversedConcat(s, t[..|t| - 1]);
    }
  }

  lemma ReversedZeros(n: nat)
    ensures Reversed(Zeros(n)) == Zeros(n)
  {
    forall i | 0 <= i < n
      ensures Reversed(Zeros(n))[i] == Zeros(n)[i]
    {
      ReversedAt(Zeros(n), i);
      ZerosAt(n, i);
      ZerosAt(n, n - 1 - i);
    }
  }

  lemma ShiftedToTop(s: seq<Byte>, j: nat, k: nat, width: nat)
    requires k == 8 * j && width == 8 * (j + |s|)
    ensures Shl(LowFirst(s), k, width) == LowFirst(Zeros(j) + s)
  {
    var t := Zeros(j) + s;
    assert LowFirst(s) * Pow2(k) == LowFirst(t) by {
      LowFirstConcat(Zeros(j), s);
      ZerosValue(j);
      Pow256IsPow2(j);
      MulCommutes(LowFirst(s), Pow256(j));
    }
    assert LowFirst(t) < Pow2(width) by {
      LowFirstBound(t);
      Pow256IsPow2(j + |s|);
    }
    ShlFits(LowFirst(s), k, width);
  }

  lemma ReversedFromTop(s: seq<Byte>, j: nat)
    ensures LowFirst(Reversed(Zeros(j) + s)) == HighFirst(s)
  {
    ReversedConcat(Zeros(j), s);
    ReversedZeros(j);
    LowFirstConcat(Reversed(s), Zeros(j));
    ZerosValue(j);
    HighFirstIsReversed(s);
  }

  /** A number in the top bytes of a word of `n` bytes, swapped, is that number read high byte first. */
  lemma SwapFromTop(v: nat, s: seq<Byte>, n: nat)
    requires |s| <= n && v == LowFirst(Zeros(n - |s|) + s)
    ensures ByteSwap(v, n) == HighFirst(s)
  {
    StoreLoaded(Zeros(n - |s|) + s);
    ReversedFromTop(s, n - |s|);
  }

  // Writing into a buffer

  function Written(buffer: seq<Byte>, at: nat, bytes: seq<Byte>): (r: seq<Byte>)
    requires at + |bytes| <= |buffer|
    ensures |r| == |buffer|
  {
    buffer[..at] + bytes + buffer[at + |bytes|..]
  }

  method MemCpy(dest: array<Byte>, at: nat, src: seq<Byte>)
    requires at + |src| <= dest.Length
    modifies dest
    ensures dest[at..at + |src|] == src
    ensures dest[..at] == old(dest[..at]) && dest[at + |src|..] == old(dest[at + |src|..])
  {
    for i := 0 to |src|
      invariant dest[at..at + i] == src[..i]
      invariant dest[..at] == old(dest[..at]) && dest[at + i..] == old(dest[at + i..])
    {
      dest[at + i] := src[i];
    }
  }

  lemma WrittenTwice(buffer: seq<Byte>, at: nat, s: seq<Byte>, t: seq<Byte>)
    requires at + |s| + |t| <= |buffer|
    ensures Written(Written(buffer, at, s), at + |s|, t) == Written(buffer, at, s + t)
  {
  }

  lemma {:induction false} StoredAt(v: int, n: nat, i: nat)
    requires i < n
    ensures Stored(v, n)[i] == Unsigned(Shr(v, 8 * i), 8)
  {
    StoredConcat(v, i, n - i);
    Pow256IsPow2(i);
    Pow2Values();
  }

  /** Writing one more byte of the same number after the first `n`. */
  lemma WrittenByte(buffer: seq<Byte>, at: nat, v: int, n: nat)
    requires at + n < |buffer|
    ensures Pow2(8) == 0x100
    ensures Written(buffer, at, Stored(v, n))[at + n := Unsigned(Shr(v, 8 * n), 8)]
         == Written(buffer, at, Stored(v, n + 1))
  {
    Pow2Values();
    StoredConcat(v, n, 1);
    StoredAt(v, n + 1, n);
  }

  lemma WrittenThree(buffer: seq<Byte>, at: nat, v: int)
    requires at + 3 <= |buffer|
    ensures Pow2(8) == 0x100
    ensures buffer[at := Unsigned(v, 8)][at + 1 := Unsigned(Shr(v, 8), 8)][at + 2 := Unsigned(Shr(v, 16), 8)]
         == Written(buffer, at, Stored(v, 3))
  {
    assert Written(buffer, at, Stored(v, 0)) == buffer;
    WrittenByte(buffer, at, v, 0);
    WrittenByte(buffer, at, v, 1);
    WrittenByte(buffer, at, v, 2);
  }

  /** Converting to a type of 8m bits first does not matter for the low `n` bytes. */
  lemma StoredUnsigned(v: int, n: nat, m: nat)
    requires n <= m
    ensures Stored(Unsigned(v, 8 * m), n) == Stored(v, n)
  {
    Pow256IsPow2(m);
    StoredOfMod(v, n, m);
  }

  lemma StoredPieces(v: int, m: nat, n: nat)
    ensures Stored(v, m) + Stored(Shr(v, 8 * m), n) == Stored(v, m + n)
  {
    Pow256IsPow2(m);
    StoredConcat(v, m, n);
  }

  // Signed readers

  lemma CenteredMod(v: int, h: nat)
    requires h > 0
    ensures var u := v % (2 * h);
            (if u < h then u else u - 2 * h) == v <==> -(h as int) <= v < h
  {
    if 0 <= v < h {
      ModUnique(v, 2 * h, 0, v);
    } else if -(h as int) <= v < 0 {
      ModUnique(v, 2 * h, -1, v + 2 * h);
    }
  }

  /** A conversion to a signed type keeps a number exactly when it is in range. */
  lemma SignedFitsIff(v: int, width: nat)
    requires width > 0
    ensures Signed(v, width) == v <==> -(Pow2(width - 1) as int) <= v < Pow2(width - 1)
  {
    CenteredMod(v, Pow2(width - 1));
  }

  /** Reading back a stored signed number gives it back exactly when it fits. */
  lemma SignedRoundTripIff(v: int, n: nat)
    requires n > 0
    ensures Signed(LowFirst(Stored(v, n)), 8 * n) == v <==> -(Pow2(8 * n - 1) as int) <= v < Pow2(8 * n - 1)
  {
    var h := Pow2(8 * n - 1);
    assert Pow2(8 * n) == 2 * h;
    assert Unsigned(LowFirst(Stored(v, n)), 8 * n) == v % (2 * h) by {
      LoadStored(v, n);
      Pow256IsPow2(n);
      NoWrap(v % (2 * h), 2 * h);
    }
    CenteredMod(v, h);
  }
}
