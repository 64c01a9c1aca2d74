/** Laws that hold across the readers and writers of all headers. */
module ByteOrderLaws {
  import opened Bits
  import opened Bytes
  import opened ByteOrder
  import Generic = ByteOrderGeneric
  import X86 = ByteOrderX86
  import Myisam = MyisamOrder

  /** The wide, the byte-swapping and the byte-by-byte readers agree on every buffer. */
  lemma ReadersAgree(p: seq<Byte>)
    requires |p| >= 8
    ensures X86.Uint5Korr(p) == Generic.Uint5Korr(p) && X86.Uint6Korr(p) == Generic.Uint6Korr(p)
    ensures X86.MiUint5Korr(p) == Myisam.MiUint5Korr(p)
    ensures X86.MiUint5Korr(p) == Generic.Uint5Korr(Reversed(p[..5]))
    ensures X86.MiUint6Korr(p) == Generic.Uint6Korr(Reversed(p[..6]))
    ensures X86.MiUint8Korr(p) == Generic.Uint8Korr(Reversed(p[..8]))
  {
    forall n | 0 <= n <= 8
      ensures HighFirst(p[..n]) == LowFirst(Reversed(p[..n])[..n])
    {
      HighFirstIsReversed(p[..n]);
      assert Reversed(p[..n])[..n] == Reversed(p[..n]);
    }
  }

  /** The byte-swapping reader for each width from 5 to 8. */
  function MiKorr(p: seq<Byte>, n: nat): (r: nat)
    requires 5 <= n <= 8 && n <= |p|
    ensures r == HighFirst(p[..n])
  {
    match n
    case 5 => X86.MiUint5Korr(p)
    case 6 => X86.MiUint6Korr(p)
    case 7 => X86.MiUint7Korr(p)
    case _ => X86.MiUint8Korr(p)
  }

  /** Comparing the numbers the fast readers return is comparing the byte strings in dictionary order. */
  lemma FastReadersKeepOrder(p: seq<Byte>, q: seq<Byte>, n: nat)
    requires 5 <= n <= 8 && n <= |p| && n <= |q|
    ensures MiKorr(p, n) < MiKorr(q, n) <==> LexLess(p[..n], q[..n])
    ensures MiKorr(p, n) == MiKorr(q, n) <==> p[..n] == q[..n]
  {
    HighFirstOrder(p[..n], q[..n]);
  }

  /** The byte-by-byte reader for each width that has a writer. */
  function Korr(p: seq<Byte>, n: nat): (r: nat)
    requires n in {2, 3, 4, 5, 6, 8} && n <= |p|
    ensures r == LowFirst(p[..n])
  {
    match n
    case 2 => Generic.Uint2Korr(p)
    case 3 => Generic.Uint3Korr(p)
    case 4 => Generic.Uint4Korr(p)
    case 5 => Generic.Uint5Korr(p)
    case 6 => Generic.Uint6Korr(p)
    case _ => Generic.Uint8Korr(p)
  }

  /** Loads and stores of the same width undo each other, up to the width. */
  lemma LoadsAndStores(v: int, p: seq<Byte>, n: nat)
    requires n in {2, 3, 4, 5, 6, 8} && n <= |p|
    ensures Korr(Stored(v, n), n) == v % Pow256(n)
    ensures Stored(Korr(p, n), n) == p[..n]
  {
    assert Stored(v, n)[..n] == Stored(v, n);
    LoadStored(v, n);
    StoreLoaded(p[..n]);
  }

  /** sint3korr undoes int3store exactly on the 24-bit signed range. */
  lemma Sint3RoundTripIff(v: int)
    ensures Generic.Sint3Korr(Stored(v, 3)) == v <==> -0x80_0000 <= v < 0x80_0000
  {
    SignedRoundTripIff(v, 3);
    assert Stored(v, 3)[..3] == Stored(v, 3);
    Pow2Values();
    assert Pow2(23) * 2 == Pow2(24);
  }

  /** The two signed three-byte readers agree on reversed bytes exactly when the high byte is below 128. */
  lemma Sint3ReadersAgreeIff(b: seq<Byte>)
    requires |b| == 3
    ensures Myisam.MyisamSint3Korr(b) == Myisam.MyisamUint3Korr(b)
    ensures Myisam.MyisamSint3Korr(b) == Generic.Sint3Korr(Reversed(b)) <==> b[0] < 0x80
  {
    var f := Reversed(b);
    assert b[..3] == b && f[..3] == f;
    HighFirstIsReversed(b);
    ReversedAt(b, 2);
    HighByteDecides(f);
  }

  lemma HighByteDecides(f: seq<Byte>)
    requires |f| == 3
    ensures Signed(LowFirst(f), 24) == LowFirst(f) <==> f[2] < 0x80
  {
    assert f[..3] == f;
    Generic.LowFirst3(f);
    SignedFitsIff(LowFirst(f), 24);
    Pow2Values();
    assert Pow2(23) * 2 == Pow2(24);
  }

  // Lists of stores

  /** A number stored in `n` bytes at offset `at`. */
  datatype Item = Item(at: nat, n: nat, v: int)

  predicate Fits(item: Item, size: nat) {
    item.at + item.n <= size
  }

  predicate Apart(a: Item, b: Item) {
    a.at + a.n <= b.at || b.at + b.n <= a.at
  }

  function StoreAll(buffer: seq<Byte>, items: seq<Item>): (r: seq<Byte>)
    requires forall i | 0 <= i < |items| :: Fits(items[i], |buffer|)
    ensures |r| == |buffer|
    decreases |items|
  {
    if items == [] then buffer
    else
      var last := items[|items| - 1];
      assert Fits(last, |buffer|);
      Written(StoreAll(buffer, items[..|items| - 1]), last.at, Stored(last.v, last.n))
  }

  /** What no store touches keeps its value. */
  lemma {:induction false} StoreAllElsewhere(buffer: seq<Byte>, items: seq<Item>, k: nat)
    requires forall i | 0 <= i < |items| :: Fits(items[i], |buffer|)
    requires k < |buffer| && forall i | 0 <= i < |items| :: !(items[i].at <= k < items[i].at + items[i].n)
    ensures StoreAll(buffer, items)[k] == buffer[k]
  {
    if items != [] {
      StoreAllElsewhere(buffer, items[..|items| - 1], k);
    }
  }

  /** After any list of stores to disjoint places, each one reads back as if it had been alone. */
  lemma StoresReadBack(buffer: seq<Byte>, items: seq<Item>, i: nat)
    requires forall j | 0 <= j < |items| :: Fits(items[j], |buffer|)
    requires forall j, k | 0 <= j < k < |items| :: Apart(items[j], items[k])
    requires i < |items|
    ensures var r := StoreAll(buffer, items)[items[i].at..items[i].at + items[i].n];
            r == Stored(items[i].v, items[i].n) && LowFirst(r) == items[i].v % Pow256(items[i].n)
  {
    StoresStay(buffer, items, i);
    LoadStored(items[i].v, items[i].n);
  }

  lemma {:induction false} StoresStay(buffer: seq<Byte>, items: seq<Item>, i: nat)
    requires forall j | 0 <= j < |items| :: Fits(items[j], |buffer|)
    requires forall j, k | 0 <= j < k < |items| :: Apart(items[j], items[k])
    requires i < |items|
    ensures StoreAll(buffer, items)[items[i].at..items[i].at + items[i].n] == Stored(items[i].v, items[i].n)
  {
    if i < |items| - 1 {
      var init, last := items[..|items| - 1], items[|items| - 1];
      StoresStay(buffer, init, i);
      assert Apart(items[i], last);
      WrittenApart(StoreAll(buffer, init), last.at, Stored(last.v, last.n), items[i].at, items[i].n);
    }
  }

  lemma WrittenApart(buffer: seq<Byte>, at: nat, bytes: seq<Byte>, from: nat, n: nat)
    requires at + |bytes| <= |buffer| && from + n <= |buffer|
    requires at + |bytes| <= from || from + n <= at
    ensures Written(buffer, at, bytes)[from..from + n] == buffer[from..from + n]
  {
  }

  /** Performs a list of stores with the macros of either header. */
  method PerformStores(t: array<Byte>, items: seq<Item>, wide: bool)
    requires forall i | 0 <= i < |items| :: Fits(items[i], t.Length) && items[i].n in {2, 3, 4, 5, 6, 8}
    modifies t
    ensures t[..] == StoreAll(old(t[..]), items)
  {
    for i := 0 to |items|
      invariant t[..] == StoreAll(old(t[..]), items[..i])
    {
      PerformStore(t, items[i], wide);
      assert items[..i + 1][..i] == items[..i];
    }
    assert items[..|items|] == items;
  }

  method PerformStore(t: array<Byte>, item: Item, wide: bool)
    requires Fits(item, t.Length) && item.n in {2, 3, 4, 5, 6, 8}
    modifies t
    ensures t[..] == Written(old(t[..]), item.at, Stored(item.v, item.n))
  {
    match item.n
    case 2 => if wide { X86.Int2Store(t, item.at, item.v); } else { Generic.Int2Store(t, item.at, item.v); }
    case 3 => if wide { X86.Int3Store(t, item.at, item.v); } else { Generic.Int3Store(t, item.at, item.v); }
    case 4 => if wide { X86.Int4Store(t, item.at, item.v); } else { Generic.Int4Store(t, item.at, item.v); }
    case 5 => if wide { X86.Int5Store(t, item.at, item.v); } else { Generic.Int5Store(t, item.at, item.v); }
    case 6 => if wide { X86.Int6Store(t, item.at, item.v); } else { Generic.Int6Store(t, item.at, item.v); }
    case _ => if wide { X86.Int8Store(t, item.at, item.v); } else { Generic.Int8Store(t, item.at, item.v); }
  }
}
