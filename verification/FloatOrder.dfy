/**
 The float and double macros of big_endian.h and little_endian.h, on the bytes of a value in memory:
 a big-endian host, a little-endian one, and one that keeps the words of a double in big-endian order.
 */
module FloatOrder {
  import opened Bytes
  import opened ByteOrder

  datatype Host = Big | Little | Mixed

  /** How a host keeps the value whose bytes, least significant first, are `w`. */
  function Image(w: seq<Byte>, host: Host): (v: seq<Byte>)
    requires |w| == 4 || |w| == 8
    ensures |v| == |w|
  {
    match host
    case Big => Reversed(w)
    case Little => w
    case Mixed => if |w| == 8 then w[4..] + w[..4] else w
  }

  /** Read in the host's own order, its image is the number that `w` spells: a Mixed host puts the high word first. */
  lemma ImageValue(w: seq<Byte>)
    requires |w| == 4 || |w| == 8
    ensures HighFirst(Image(w, Big)) == LowFirst(w) == LowFirst(Image(w, Little))
    ensures |w| == 4 ==> LowFirst(Image(w, Mixed)) == LowFirst(w)
    ensures |w| == 8 ==>
              var v := Image(w, Mixed);
              LowFirst(v[4..]) + 0x1_0000_0000 * LowFirst(v[..4]) == LowFirst(w)
  {
    ReversedTwice(w);
    HighFirstIsReversed(Reversed(w));
    if |w| == 8 {
      var v := Image(w, Mixed);
      assert v[4..] == w[..4] && v[..4] == w[4..] && w[..4] + w[4..] == w;
      LowFirstConcat(w[..4], w[4..]);
      Pow256Of4();
    }
  }

  lemma Pow256Of4()
    ensures Pow256(4) == 0x1_0000_0000
  {
    assert Pow256(2) == 0x1_0000;
  }

  lemma ReversedTwice(s: seq<Byte>)
    ensures Reversed(Reversed(s)) == s
  {
    ReversedAll(s);
    ReversedAll(Reversed(s));
  }

  /** The bytes in the order in which a host's store and get macros copy them. */
  function Copied(v: seq<Byte>, host: Host): (r: seq<Byte>)
    requires |v| == 4 || |v| == 8
    ensures |r| == |v|
  {
    match host
    case Big =>
      if |v| == 4 then [v[3], v[2], v[1], v[0]] else [v[7], v[6], v[5], v[4], v[3], v[2], v[1], v[0]]
    case Little => v
    case Mixed =>
      if |v| == 4 then v else [v[4], v[5], v[6], v[7], v[0], v[1], v[2], v[3]]
  }

  /** A get gives the host its own image of the bytes that are in the buffer, least significant first. */
  lemma GetGivesImage(w: seq<Byte>, host: Host)
    requires |w| == 4 || |w| == 8
    ensures Copied(w, host) == Image(w, host)
  {
    if host == Big {
      ReversedAll(w);
    }
  }

  /** Every host's store writes the value least significant byte first. */
  lemma OneWireImage(w: seq<Byte>, host: Host)
    requires |w| == 4 || |w| == 8
    ensures Copied(Image(w, host), host) == w
  {
    GetGivesImage(w, host);
    if |w| == 4 {
      CopiedTwice4(w, host);
    } else {
      CopiedTwice8(w, host);
    }
  }

  lemma CopiedTwice4(w: seq<Byte>, host: Host)
    requires |w| == 4
    ensures Copied(Copied(w, host), host) == w
  {
  }

  lemma CopiedTwice8(w: seq<Byte>, host: Host)
    requires |w| == 8
    ensures Copied(Copied(w, host), host) == w
  {
  }

  method Float4StoreBig(t: array<Byte>, at: nat, v: seq<Byte>)
    requires |v| == 4 && at + 4 <= t.Length
    modifies t
    ensures t[..] == Written(old(t[..]), at, Copied(v, Big))
  {
    Put4(t, at, v[3], v[2], v[1], v[0]);
  }

  method Float4StoreLittle(t: array<Byte>, at: nat, v: seq<Byte>)
    requires |v| == 4 && at + 4 <= t.Length
    modifies t
    ensures t[..] == Written(old(t[..]), at, v)
  {
    MemCpy(t, at, v);
  }

  method Float8StoreBig(t: array<Byte>, at: nat, v: seq<Byte>)
    requires |v| == 8 && at + 8 <= t.Length
    modifies t
    ensures t[..] == Written(old(t[..]), at, Copied(v, Big))
  {
    Put4(t, at, v[7], v[6], v[5], v[4]);
    Put4(t, at + 4, v[3], v[2], v[1], v[0]);
    WrittenHalves(old(t[..]), at, Copied(v, Big));
  }

  /** A little-endian host whose floating-point word order is big-endian. */
  method DoubleStoreMixed(t: array<Byte>, at: nat, v: seq<Byte>)
    requires |v| == 8 && at + 8 <= t.Length
    modifies t
    ensures t[..] == Written(old(t[..]), at, Copied(v, Mixed))
  {
    Put4(t, at, v[4], v[5], v[6], v[7]);
    Put4(t, at + 4, v[0], v[1], v[2], v[3]);
    WrittenHalves(old(t[..]), at, Copied(v, Mixed));
  }

  method DoubleStoreLittle(t: array<Byte>, at: nat, v: seq<Byte>)
    requires |v| == 8 && at + 8 <= t.Length
    modifies t
    ensures t[..] == Written(old(t[..]), at, v)
  {
    MemCpy(t, at, v);
  }

  /** Four of the byte assignments. */
  method Put4(t: array<Byte>, at: nat, a: Byte, b: Byte, c: Byte, d: Byte)
    requires at + 4 <= t.Length
    modifies t
    ensures t[..] == Written(old(t[..]), at, [a, b, c, d])
  {
    t[at] := a;
    t[at + 1] := b;
    t[at + 2] := c;
    t[at + 3] := d;
  }

  lemma WrittenHalves(buffer: seq<Byte>, at: nat, r: seq<Byte>)
    requires |r| == 8 && at + 8 <= |buffer|
    ensures var high, low := [r[0], r[1], r[2], r[3]], [r[4], r[5], r[6], r[7]];
            Written(Written(buffer, at, high), at + 4, low) == Written(buffer, at, r)
  {
    var high, low := [r[0], r[1], r[2], r[3]], [r[4], r[5], r[6], r[7]];
    WrittenTwice(buffer, at, high, low);
    assert high + low == r;
  }

  /** float4store as the host's header defines it, for a value in that host's memory. */
  method StoreFloat(t: array<Byte>, at: nat, v: seq<Byte>, host: Host, ghost w: seq<Byte>)
    requires |w| == 4 && v == Image(w, host) && at + 4 <= t.Length
    modifies t
    ensures t[..] == Written(old(t[..]), at, w)
  {
    OneWireImage(w, host);
    match host
    case Big => Float4StoreBig(t, at, v);
    case _ => Float4StoreLittle(t, at, v);
  }

  /** float8store as the host's header defines it. */
  method StoreDouble(t: array<Byte>, at: nat, v: seq<Byte>, host: Host, ghost w: seq<Byte>)
    requires |w| == 8 && v == Image(w, host) && at + 8 <= t.Length
    modifies t
    ensures t[..] == Written(old(t[..]), at, w)
  {
    OneWireImage(w, host);
    match host
    case Big => Float8StoreBig(t, at, v);
    case Little => DoubleStoreLittle(t, at, v);
    case Mixed => DoubleStoreMixed(t, at, v);
  }

  /** float4get, at the start of `m`. */
  method GetFloat(m: seq<Byte>, host: Host) returns (v: seq<Byte>)
    requires |m| >= 4
    ensures v == Image(m[..4], host)
  {
    GetGivesImage(m[..4], host);
    match host
    case Big => v := [m[3], m[2], m[1], m[0]];
    case _ => v := m[..4];
  }

  /** float8get, at the start of `m`. */
  method GetDouble(m: seq<Byte>, host: Host) returns (v: seq<Byte>)
    requires |m| >= 8
    ensures v == Image(m[..8], host)
  {
    GetGivesImage(m[..8], host);
    match host
    case Big => v := [m[7], m[6], m[5], m[4], m[3], m[2], m[1], m[0]];
    case Little => v := m[..8];
    case Mixed => v := [m[4], m[5], m[6], m[7], m[0], m[1], m[2], m[3]];
  }

  /** A double stored on one host and fetched on any other is the same value there. */
  method TransferDouble(t: array<Byte>, at: nat, v: seq<Byte>, from: Host, to: Host, ghost w: seq<Byte>)
    returns (r: seq<Byte>)
    requires |w| == 8 && v == Image(w, from) && at + 8 <= t.Length
    modifies t
    ensures t[..] == Written(old(t[..]), at, w) && r == Image(w, to)
  {
    StoreDouble(t, at, v, from, w);
    assert t[at..][..8] == w;
    r := GetDouble(t[at..], to);
  }

  /** And so is a float. */
  method TransferFloat(t: array<Byte>, at: nat, v: seq<Byte>, from: Host, to: Host, ghost w: seq<Byte>)
    returns (r: seq<Byte>)
    requires |w| == 4 && v == Image(w, from) && at + 4 <= t.Length
    modifies t
    ensures t[..] == Written(old(t[..]), at, w) && r == Image(w, to)
  {
    StoreFloat(t, at, v, from, w);
    assert t[at..][..4] == w;
    r := GetFloat(t[at..], to);
  }
}
