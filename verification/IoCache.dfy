/**
 The IO_CACHE inlines of my_sys.h over a file.  The slow paths the header only declares are given as
 simple reference implementations that keep the contract of its comments.
 */
module IoCache {
  import opened Bytes
  import opened ByteOrder

  datatype CacheType = READ_CACHE | WRITE_CACHE

  const EOF: int := -0x8000_0000

  /** One byte written at `pos`, at most one past the end. */
  function Put(file: seq<Byte>, pos: nat, b: Byte): (r: seq<Byte>)
    requires pos <= |file|
    ensures |r| > pos
  {
    if pos < |file| then file[pos := b] else file + [b]
  }

  /** `bytes` written over `file` from `pos` on, extending it where necessary. */
  function Overlay(file: seq<Byte>, pos: nat, bytes: seq<Byte>): (r: seq<Byte>)
    requires pos <= |file|
    ensures |r| >= pos + |bytes|
    decreases |bytes|
  {
    if bytes == [] then file else Overlay(Put(file, pos, bytes[0]), pos + 1, bytes[1..])
  }

  lemma {:induction false} OverlayTwice(file: seq<Byte>, pos: nat, a: seq<Byte>, b: seq<Byte>)
    requires pos <= |file|
    ensures Overlay(Overlay(file, pos, a), pos + |a|, b) == Overlay(file, pos, a + b)
    decreases |a|
  {
    if a == [] {
      assert a + b == b;
    } else {
      OverlayTwice(Put(file, pos, a[0]), pos + 1, a[1..], b);
      assert (a + b)[1..] == a[1..] + b;
    }
  }

  /** What a file holds from `pos` on. */
  function From(file: seq<Byte>, pos: nat): seq<Byte> {
    if pos <= |file| then file[pos..] else []
  }

  lemma AroundPut(file: seq<Byte>, pos: nat, b: Byte, end: nat)
    requires pos <= |file| && pos < end
    ensures Put(file, pos, b)[..pos + 1] == file[..pos] + [b] && From(Put(file, pos, b), end) == From(file, end)
  {
  }

  lemma Prepended(front: seq<Byte>, bytes: seq<Byte>, back: seq<Byte>)
    requires bytes != []
    ensures front + [bytes[0]] + bytes[1..] + back == front + bytes + back
  {
    assert [bytes[0]] + bytes[1..] == bytes;
    assert front + [bytes[0]] + bytes[1..] == front + ([bytes[0]] + bytes[1..]);
  }

  /** What stands before and after the written range is kept; the range holds `bytes`. */
  lemma {:induction false} OverlayIs(file: seq<Byte>, pos: nat, bytes: seq<Byte>)
    requires pos <= |file|
    ensures Overlay(file, pos, bytes) == file[..pos] + bytes + From(file, pos + |bytes|)
    decreases |bytes|
  {
    if bytes == [] {
      assert file[..pos] + [] + file[pos..] == file;
    } else {
      OverlayIs(Put(file, pos, bytes[0]), pos + 1, bytes[1..]);
      AroundPut(file, pos, bytes[0], pos + |bytes|);
      Prepended(file[..pos], bytes, From(file, pos + |bytes|));
    }
  }

  lemma SliceConcat(s: seq<Byte>, i: nat, j: nat, k: nat)
    requires i <= j <= k <= |s|
    ensures s[i..j] + s[j..k] == s[i..k]
  {
  }

  /** Writing at the end appends. */
  lemma OverlayAtEnd(file: seq<Byte>, bytes: seq<Byte>)
    ensures Overlay(file, |file|, bytes) == file + bytes
  {
    OverlayIs(file, |file|, bytes);
  }

  datatype WriteOp = Block(bytes: seq<Byte>) | Single(byte: Byte)

  function OpBytes(op: WriteOp): seq<Byte> {
    match op case Block(bytes) => bytes case Single(byte) => [byte]
  }

  function Payload(ops: seq<WriteOp>): seq<Byte> {
    if ops == [] then [] else Payload(ops[..|ops| - 1]) + OpBytes(ops[|ops| - 1])
  }

  /** The part of `n` bytes that fills buffers of `size` bytes completely. */
  function WholeBuffers(n: nat, size: nat): (d: nat)
    requires size > 0
    ensures d <= n && n - d < size && (d == 0 <==> n < size)
  {
    if n < size then 0 else size + WholeBuffers(n - size, size)
  }

  /** How often a write that overruns the buffer by `over` bytes goes to disk: to flush, and for whole buffers. */
  function DiskUses(over: nat, size: nat): nat {
    if over < size then 1 else 2
  }

  function Sum(sizes: seq<nat>): nat {
    if sizes == [] then 0 else Sum(sizes[..|sizes| - 1]) + sizes[|sizes| - 1]
  }

  /** The state the fast read paths work on. */
  datatype ReadView = ReadView(buffer: seq<Byte>, posInFile: nat, requestPos: nat, readPos: nat, readEnd: nat) {
    predicate Ready(n: nat) {
      requestPos <= readPos && readPos + n <= readEnd <= |buffer|
    }

    function Tell(): int { posInFile + (readPos - requestPos) }

    function BytesInCache(): int { readEnd - readPos }

    function BytesInBuffer(): int { readEnd - requestPos }
  }

  function ReadFast(v: ReadView, n: nat): (r: (seq<Byte>, ReadView))
    requires v.Ready(n)
  {
    (v.buffer[v.readPos..v.readPos + n], v.(readPos := v.readPos + n))
  }

  function GetFast(v: ReadView): (r: (Byte, ReadView))
    requires v.Ready(1)
  {
    var v' := v.(readPos := v.readPos + 1);
    (v'.buffer[v'.readPos - 1], v')
  }

  /** `n` fast gets, one after the other. */
  function GetsFast(v: ReadView, n: nat): (r: (seq<Byte>, ReadView))
    requires v.Ready(n)
    decreases n
  {
    if n == 0 then ([], v)
    else
      var (c, v') := GetFast(v);
      var (rest, v'') := GetsFast(v', n - 1);
      ([c] + rest, v'')
  }

  /** `n` gets return the bytes and leave the state of one read of `n`. */
  lemma {:induction false} GetsAreRead(v: ReadView, n: nat)
    requires v.Ready(n)
    ensures GetsFast(v, n) == ReadFast(v, n)
    decreases n
  {
    if n == 0 {
      assert v.buffer[v.readPos..v.readPos] == [];
    } else {
      GetsAreRead(GetFast(v).1, n - 1);
      assert v.buffer[v.readPos..v.readPos + n] == [v.buffer[v.readPos]] + v.buffer[v.readPos + 1..v.readPos + n];
    }
  }

  /** A run of fast reads of the given sizes. */
  function ReadsFast(v: ReadView, sizes: seq<nat>): (r: (seq<Byte>, ReadView))
    requires v.Ready(Sum(sizes))
    ensures r.1 == v.(readPos := v.readPos + Sum(sizes))
  {
    if sizes == [] then ([], v)
    else
      var (out, v') := ReadsFast(v, sizes[..|sizes| - 1]);
      var (last, v'') := ReadFast(v', sizes[|sizes| - 1]);
      (out + last, v'')
  }

  /** Any run of fast reads is one fast read of their total, and keeps tell plus cached bytes fixed. */
  lemma {:induction false} ReadsAreOneRead(v: ReadView, sizes: seq<nat>)
    requires v.Ready(Sum(sizes))
    ensures ReadsFast(v, sizes) == ReadFast(v, Sum(sizes))
    ensures var v' := ReadsFast(v, sizes).1;
            && v'.Tell() + v'.BytesInCache() == v.posInFile + v.BytesInBuffer()
            && v'.Tell() == v.Tell() + Sum(sizes)
  {
    if sizes == [] {
      assert v.buffer[v.readPos..v.readPos] == [];
    } else {
      var n, m := Sum(sizes[..|sizes| - 1]), sizes[|sizes| - 1];
      ReadsAreOneRead(v, sizes[..|sizes| - 1]);
      assert v.buffer[v.readPos..v.readPos + n] + v.buffer[v.readPos + n..v.readPos + n + m]
          == v.buffer[v.readPos..v.readPos + Sum(sizes)];
    }
  }

  lemma SliceOfSlice(buffer: seq<Byte>, lo: nat, hi: nat, file: seq<Byte>, pos: nat, from: nat, to: nat)
    requires lo <= from <= to <= hi <= |buffer| && pos + (hi - lo) <= |file|
    requires buffer[lo..hi] == file[pos..pos + (hi - lo)]
    ensures buffer[from..to] == file[pos + (from - lo)..pos + (to - lo)]
  {
    var s, t := buffer[from..to], file[pos + (from - lo)..pos + (to - lo)];
    forall i | 0 <= i < |s|
      ensures s[i] == t[i]
    {
      assert s[i] == buffer[lo..hi][from - lo + i];
    }
  }

  lemma TwoParts(dest: seq<Byte>, left: nat, n: nat, file: seq<Byte>, tell: nat)
    requires left <= n <= |dest| && tell + n <= |file|
    requires dest[..left] == file[tell..tell + left] && dest[left..n] == file[tell + left..tell + n]
    ensures dest[..n] == file[tell..tell + n]
  {
    SliceConcat(dest, 0, left, n);
    SliceConcat(file, tell, tell + left, tell + n);
  }

  class IoCache {
    const kind: CacheType
    const buffer: array<Byte>
    // offsets into the buffer; write_buffer is its start
    var requestPos: nat
    var readPos: nat
    var readEnd: nat
    var writePos: nat
    var writeEnd: nat
    var posInFile: nat
    var error: int
    // the file, and how many more disk operations will succeed
    var file: seq<Byte>
    var diskOps: nat

    ghost predicate Valid()
      reads this, buffer
    {
      && buffer.Length > 0
      && (kind == WRITE_CACHE ==>
            requestPos == 0 && writePos <= writeEnd <= buffer.Length && posInFile <= |file|)
      && (kind == READ_CACHE ==>
            && requestPos <= readPos <= readEnd <= buffer.Length
            && posInFile + (readEnd - requestPos) <= |file|
            && buffer[requestPos..readEnd] == file[posInFile..posInFile + (readEnd - requestPos)])
    }

    function Tell(): nat
      requires Valid()
      reads this, buffer
    {
      if kind == WRITE_CACHE then posInFile + (writePos - requestPos) else posInFile + (readPos - requestPos)
    }

    function BytesInCache(): nat
      requires Valid()
      reads this, buffer
    {
      if kind == WRITE_CACHE then writeEnd - writePos else readEnd - readPos
    }

    /** What the file will hold once the buffer is flushed. */
    ghost function Contents(): seq<Byte>
      requires Valid() && kind == WRITE_CACHE
      reads this, buffer
    {
      Overlay(file, posInFile, buffer[..writePos])
    }

    // Reading

    /** The reading side as a value. */
    ghost function View(): ReadView
      requires Valid() && kind == READ_CACHE
      reads this, buffer
    {
      ReadView(buffer[..], posInFile, requestPos, readPos, readEnd)
    }

    /** memcpy from the read position. */
    method Take(dest: array<Byte>, at: nat, n: nat)
      requires Valid() && kind == READ_CACHE && readPos + n <= readEnd
      requires dest != buffer && at + n <= dest.Length
      modifies `readPos, dest
      ensures Valid() && View() == ReadFast(old(View()), n).1
      ensures dest[at..at + n] == ReadFast(old(View()), n).0 == file[old(Tell())..old(Tell()) + n]
      ensures dest[..at] == old(dest[..at]) && dest[at + n..] == old(dest[at + n..])
    {
      ReadyIsFile(n);
      MemCpy(dest, at, buffer[readPos..readPos + n]);
      Skip(n);
    }

    /** What is ready in the buffer is what the file holds at the current position. */
    lemma ReadyIsFile(n: nat)
      requires Valid() && kind == READ_CACHE && readPos + n <= readEnd
      ensures buffer[readPos..readPos + n] == ReadFast(View(), n).0 == file[Tell()..Tell() + n]
    {
      SliceOfSlice(buffer[..], requestPos, readEnd, file, posInFile, readPos, readPos + n);
    }

    method Skip(n: nat)
      requires Valid() && kind == READ_CACHE && readPos + n <= readEnd
      modifies `readPos
      ensures Valid() && View() == ReadFast(old(View()), n).1
    {
      readPos := readPos + n;
    }

    /** The view tells what the cache tells. */
    lemma ViewAgrees()
      requires Valid() && kind == READ_CACHE
      ensures View().Tell() == Tell() && View().BytesInCache() == BytesInCache()
    {
    }

    /** How a read that needs the disk ends: refused by it, delivered, or cut short by the end of the file. */
    twostate predicate ReadOutcome(dest: array<Byte>, n: nat, r: int)
      requires old(Valid()) && Valid() && kind == READ_CACHE && n <= dest.Length
      reads this, buffer, dest
    {
      var tell := old(Tell());
      && file == old(file)
      && if old(diskOps) == 0 then r != 0 && error == -1 && diskOps == 0 && Tell() == tell
         else
           && diskOps == old(diskOps) - 1
           && if tell + n <= |file| then
                r == 0 && error == 0 && Tell() == tell + n && dest[..n] == file[tell..tell + n]
              else
                r != 0 && error == |file| - tell && Tell() == |file| && dest[..error] == file[tell..]
    }

    /** my_b_read. */
    method Read(dest: array<Byte>, n: nat) returns (r: int)
      requires Valid() && kind == READ_CACHE && dest != buffer && n <= dest.Length
      modifies `readPos, `readEnd, `requestPos, `posInFile, `error, `diskOps, buffer, dest
      ensures Valid()
      ensures n > old(BytesInCache()) ==> ReadOutcome(dest, n, r)
      ensures n <= old(BytesInCache()) ==>
                && r == 0 && error == old(error) && diskOps == old(diskOps)
                && View() == ReadFast(old(View()), n).1
                && dest[..n] == ReadFast(old(View()), n).0 == file[old(Tell())..old(Tell()) + n]
                && Tell() == old(Tell()) + n && BytesInCache() == old(BytesInCache()) - n
    {
      if readPos + n <= readEnd {
        Take(dest, 0, n);
        return 0;
      }
      r := SlowRead(dest, n);
    }

    /** Reference for _my_b_read: what is left, then the rest from disk, then a fresh buffer. */
    method SlowRead(dest: array<Byte>, n: nat) returns (r: int)
      requires Valid() && kind == READ_CACHE && dest != buffer && n <= dest.Length
      requires readPos == readEnd || readPos + n > readEnd
      modifies `readPos, `readEnd, `requestPos, `posInFile, `error, `diskOps, buffer, dest
      ensures Valid() && ReadOutcome(dest, n, r)
      ensures r == 0 ==> BytesInCache() == Available(Tell())
    {
      if diskOps == 0 {
        error := -1;
        return 1;
      }
      diskOps := diskOps - 1;
      r := ReadDisk(dest, n);
    }

    method ReadDisk(dest: array<Byte>, n: nat) returns (r: int)
      requires Valid() && kind == READ_CACHE && dest != buffer && n <= dest.Length
      requires readPos == readEnd || readPos + n > readEnd
      modifies `readPos, `readEnd, `requestPos, `posInFile, `error, buffer, dest
      ensures Valid()
      ensures r == 0 ==> Tell() == old(Tell()) + n <= |file| && BytesInCache() == Available(Tell())
      ensures r == 0 ==> error == 0 && dest[..n] == file[old(Tell())..old(Tell()) + n]
      ensures r != 0 ==> old(Tell()) + n > |file| == Tell() && error == |file| - old(Tell()) >= 0
      ensures r != 0 ==> dest[..error] == file[old(Tell())..]
    {
      if Tell() + n <= |file| {
        error := 0;
        Deliver(dest, n);
        return 0;
      }
      DeliverRest(dest);
      return 1;
    }

    /** Hands out all that is left of the file, which is not enough. */
    method DeliverRest(dest: array<Byte>)
      requires Valid() && kind == READ_CACHE && dest != buffer && |file| - Tell() <= dest.Length
      modifies `readPos, `readEnd, `requestPos, `posInFile, `error, buffer, dest
      ensures Valid() && Tell() == |file| && error == |file| - old(Tell()) >= 0
      ensures dest[..error] == file[old(Tell())..]
    {
      var tell := Tell();
      error := |file| - tell;
      Deliver(dest, error);
      assert file[tell..] == file[tell..tell + error];
    }

    /** Hands out what is left in the buffer and the rest from disk, then refills. */
    method Deliver(dest: array<Byte>, n: nat)
      requires Valid() && kind == READ_CACHE && dest != buffer && n <= dest.Length
      requires readEnd - readPos <= n && Tell() + n <= |file|
      modifies `readPos, `readEnd, `requestPos, `posInFile, buffer, dest
      ensures Valid() && Tell() == old(Tell()) + n && BytesInCache() == Available(Tell())
      ensures dest[..n] == file[old(Tell())..old(Tell()) + n]
    {
      var tell := Tell();
      HandOut(dest, n);
      Refill(tell + n);
    }

    method HandOut(dest: array<Byte>, n: nat)
      requires Valid() && kind == READ_CACHE && dest != buffer && n <= dest.Length
      requires readEnd - readPos <= n && Tell() + n <= |file|
      modifies `readPos, dest
      ensures Valid() && dest[..n] == file[old(Tell())..old(Tell()) + n]
    {
      var tell, left := Tell(), readEnd - readPos;
      Take(dest, 0, left);
      MemCpy(dest, left, file[tell + left..tell + n]);
      TwoParts(dest[..], left, n, file, tell);
    }

    /** How much a fresh buffer at `pos` can hold. */
    function Available(pos: nat): nat
      requires pos <= |file|
      reads `file
    {
      if |file| - pos < buffer.Length then |file| - pos else buffer.Length
    }

    /** Fills the buffer from `pos` as far as buffer and file go. */
    method Refill(pos: nat)
      requires buffer.Length > 0 && kind == READ_CACHE && pos <= |file|
      modifies `readPos, `readEnd, `requestPos, `posInFile, buffer
      ensures Valid() && Tell() == pos && BytesInCache() == Available(pos)
    {
      var n := Available(pos);
      MemCpy(buffer, 0, file[pos..pos + n]);
      posInFile, requestPos, readPos, readEnd := pos, 0, 0, n;
    }

    /** my_b_get. */
    method Get() returns (c: int)
      requires Valid() && kind == READ_CACHE
      modifies `readPos, `readEnd, `requestPos, `posInFile, `error, `diskOps, buffer
      ensures Valid()
      ensures old(readPos) < old(readEnd) ==>
                && c == GetFast(old(View())).0 && View() == GetFast(old(View())).1
                && error == old(error) && diskOps == old(diskOps)
      ensures old(readPos) == old(readEnd) ==> GetOutcome(c)
      ensures c != EOF ==> old(Tell()) < |file| && c == file[old(Tell())] && Tell() == old(Tell()) + 1
      ensures c == -0x8000_0000 <==> old(readPos) == old(readEnd) && (old(diskOps) == 0 || old(Tell()) == |file|)
    {
      if readPos != readEnd {
        ReadyIsFile(1);
        readPos := readPos + 1;
        return buffer[readPos - 1];
      }
      c := SlowGet();
    }

    /** How a get that needs the disk ends. */
    twostate predicate GetOutcome(c: int)
      reads this
    {
      if old(diskOps) == 0 then c == EOF && error == -1 && diskOps == 0
      else error == 0 && diskOps == old(diskOps) - 1
    }

    /** Reference for _my_b_get. */
    method SlowGet() returns (c: int)
      requires Valid() && kind == READ_CACHE && readPos == readEnd
      modifies `readPos, `readEnd, `requestPos, `posInFile, `error, `diskOps, buffer
      ensures Valid()
      ensures c != EOF ==> old(Tell()) < |file| && c == file[old(Tell())] && Tell() == old(Tell()) + 1
      ensures c == EOF <==> old(diskOps) == 0 || old(Tell()) == |file|
      ensures GetOutcome(c)
    {
      var one := new Byte[1](_ => 0);
      var r := SlowRead(one, 1);
      if r != 0 {
        return EOF;
      }
      assert one[..1] == [one[0]];
      return one[0];
    }

    /** my_b_fill: the number of bytes now ready, 0 on error or at the end of the file. */
    method Fill() returns (n: nat)
      requires Valid() && kind == READ_CACHE
      modifies `readPos, `readEnd, `requestPos, `posInFile, `error, `diskOps, buffer
      ensures Valid() && Tell() == old(posInFile + (readEnd - requestPos))
      ensures old(diskOps) > 0 ==> error == 0 && n == BytesInCache() && (n == 0 <==> Tell() == |file|)
      ensures old(diskOps) > 0 ==> n <= |file| - Tell() && (n < buffer.Length ==> Tell() + n == |file|)
      ensures old(diskOps) == 0 ==> n == 0 && error == -1
    {
      readPos := readEnd;
      var none := new Byte[0];
      var r := SlowRead(none, 0);
      return if r != 0 then 0 else readEnd - readPos;
    }

    /** A read into a fresh destination. */
    method ReadNew(n: nat) returns (r: int, out: seq<Byte>)
      requires Valid() && kind == READ_CACHE
      modifies `readPos, `readEnd, `requestPos, `posInFile, `error, `diskOps, buffer
      ensures Valid() && (r != 0 ==> diskOps == 0 || Tell() == |file|)
      ensures r == 0 ==> |out| == n && Tell() == old(Tell()) + n <= |file| && out == file[old(Tell())..old(Tell()) + n]
    {
      var dest := new Byte[n](_ => 0);
      r := Read(dest, n);
      out := dest[..n];
    }

    /** One more read after `out` has been delivered since `tell`. */
    method ReadMore(n: nat, ghost tell: nat, out: seq<Byte>) returns (r: int, all: seq<Byte>)
      requires Valid() && kind == READ_CACHE && Tell() == tell + |out| && out == file[tell..tell + |out|]
      modifies `readPos, `readEnd, `requestPos, `posInFile, `error, `diskOps, buffer
      ensures Valid() && tell + |all| <= |file| && all == file[tell..tell + |all|]
      ensures r == 0 ==> |all| == |out| + n && Tell() == tell + |all|
      ensures r != 0 ==> all == out && (diskOps == 0 || Tell() == |file|)
    {
      var piece;
      r, piece := ReadNew(n);
      all := out;
      if r == 0 {
        SliceConcat(file, tell, tell + |out|, tell + |out| + n);
        all := out + piece;
      }
    }

    /** Any list of reads that all return 0 delivers consecutive bytes of the file, whatever the buffer size. */
    method ReadAll(sizes: seq<nat>) returns (r: int, out: seq<Byte>)
      requires Valid() && kind == READ_CACHE
      modifies `readPos, `readEnd, `requestPos, `posInFile, `error, `diskOps, buffer
      ensures Valid() && old(Tell()) + |out| <= |file|
      ensures out == file[old(Tell())..old(Tell()) + |out|]
      ensures r == 0 ==> |out| == Sum(sizes) && Tell() == old(Tell()) + |out|
      ensures r != 0 ==> diskOps == 0 || Tell() == |file|
    {
      out, r := [], 0;
      ghost var tell := Tell();
      for i := 0 to |sizes|
        invariant Valid() && r == 0 && |out| == Sum(sizes[..i]) && Tell() == tell + |out| <= |file|
        invariant out == file[tell..tell + |out|]
      {
        r, out := ReadMore(sizes[i], tell, out);
        if r != 0 {
          return;
        }
        assert sizes[..i + 1][..i] == sizes[..i];
      }
      assert sizes[..|sizes|] == sizes;
    }

    // Writing

    /**
     How an operation that goes to disk `uses` times ends when the disk allows `available`: it returns 0 and
     `error` is 0 exactly if that is enough; otherwise the disk has failed and `error` is -1.
     */
    ghost predicate DiskUsed(r: int, uses: nat, available: nat)
      reads this
    {
      if uses <= available then r == 0 && error == 0 && diskOps == available - uses
      else r != 0 && error == -1 && diskOps == 0
    }

    /** A disk write at the current file position. */
    method DiskWrite(bytes: seq<Byte>) returns (failed: bool)
      requires posInFile <= |file|
      modifies `file, `posInFile, `error, `diskOps
      ensures failed ==> file == old(file) && posInFile == old(posInFile)
      ensures !failed ==> file == Overlay(old(file), old(posInFile), bytes) && posInFile == old(posInFile) + |bytes|
      ensures DiskUsed(if failed then 1 else 0, 1, old(diskOps))
    {
      if diskOps == 0 {
        error := -1;
        return true;
      }
      diskOps, error := diskOps - 1, 0;
      file := Overlay(file, posInFile, bytes);
      posInFile := posInFile + |bytes|;
      return false;
    }

    /** Reference for my_b_flush_io_cache on a write cache. */
    method Flush() returns (failed: bool)
      requires Valid() && kind == WRITE_CACHE
      modifies `file, `posInFile, `error, `diskOps, `writePos, `writeEnd
      ensures Valid() && Contents() == old(Contents()) && Tell() == old(Tell())
      ensures DiskUsed(if failed then 1 else 0, 1, old(diskOps))
      ensures if failed then file == old(file) && writePos == old(writePos) && writeEnd == old(writeEnd)
              else file == old(Contents()) && writePos == 0 && writeEnd == BytesInCache() == buffer.Length
    {
      failed := DiskWrite(buffer[..writePos]);
      if !failed {
        assert buffer[..0] == [];
        writePos, writeEnd := 0, buffer.Length;
      }
    }

    /** memcpy to the write position. */
    method Append(bytes: seq<Byte>)
      requires Valid() && kind == WRITE_CACHE && writePos + |bytes| <= writeEnd
      modifies `writePos, buffer
      ensures Valid() && Accepted(bytes)
    {
      ghost var before := buffer[..writePos];
      MemCpy(buffer, writePos, bytes);
      SliceConcat(buffer[..], 0, writePos, writePos + |bytes|);
      assert buffer[..writePos + |bytes|] == before + bytes;
      OverlayTwice(file, posInFile, before, bytes);
      writePos := writePos + |bytes|;
    }

    /** Accepting `bytes` advances the position by their number and overlays them on the contents. */
    twostate predicate Accepted(bytes: seq<Byte>)
      requires old(Valid()) && Valid() && kind == WRITE_CACHE
      reads this, buffer
    {
      Tell() == old(Tell()) + |bytes| && Contents() == Overlay(old(Contents()), old(Tell()), bytes)
    }

    /**
     Reference for _my_b_write: fill the buffer, flush it, write whole buffers straight to disk and keep the
     rest.  When a disk operation fails, a proper prefix `written` has been accepted.
     */
    method SlowWrite(bytes: seq<Byte>) returns (r: int, ghost written: seq<Byte>)
      requires Valid() && kind == WRITE_CACHE && writePos + |bytes| > writeEnd
      modifies `file, `posInFile, `error, `diskOps, `writePos, `writeEnd, buffer
      ensures Valid() && Accepted(written) && written <= bytes && (r == 0 <==> written == bytes)
      ensures DiskUsed(r, DiskUses(|bytes| - old(BytesInCache()), buffer.Length), old(diskOps))
    {
      var room := writeEnd - writePos;
      var first, rest := bytes[..room], bytes[room..];
      assert first + rest == bytes;
      ghost var contents, tell := Contents(), Tell();
      var failed := FillAndFlush(first);
      if failed {
        return 1, first;
      }
      ghost var contents1, more := Contents(), [];
      r, more := WriteRest(rest);
      AcceptedTwice(contents, contents1, Contents(), tell, first, more);
      PrefixJoined(first, more, rest);
      written := first + more;
    }

    method FillAndFlush(first: seq<Byte>) returns (failed: bool)
      requires Valid() && kind == WRITE_CACHE && writePos + |first| == writeEnd
      modifies `file, `posInFile, `error, `diskOps, `writePos, `writeEnd, buffer
      ensures Valid() && Accepted(first) && DiskUsed(if failed then 1 else 0, 1, old(diskOps))
      ensures !failed ==> writePos == 0 && writeEnd == buffer.Length
    {
      Append(first);
      failed := Flush();
    }

    /** With the buffer just flushed: whole buffers go to disk directly, the remainder is kept. */
    method WriteRest(rest: seq<Byte>) returns (r: int, ghost written: seq<Byte>)
      requires Valid() && kind == WRITE_CACHE && writePos == 0 && writeEnd == buffer.Length && error == 0
      modifies `file, `posInFile, `error, `diskOps, `writePos, buffer
      ensures Valid() && Accepted(written) && written <= rest && (r == 0 <==> written == rest)
      ensures DiskUsed(r, if |rest| < buffer.Length then 0 else 1, old(diskOps))
    {
      var k := WholeBuffers(|rest|, buffer.Length);
      var direct, last := rest[..k], rest[k..];
      assert direct + last == rest;
      ghost var contents, tell := Contents(), Tell();
      var failed := WriteDirect(direct);
      if failed {
        return 1, [];
      }
      AppendAfter(last, contents, tell, direct);
      return 0, rest;
    }

    /** Append, after `done` has been accepted since `contents` and `tell`. */
    method AppendAfter(bytes: seq<Byte>, ghost contents: seq<Byte>, ghost tell: nat, ghost done: seq<Byte>)
      requires Valid() && kind == WRITE_CACHE && writePos + |bytes| <= writeEnd && tell <= |contents|
      requires Tell() == tell + |done| && Contents() == Overlay(contents, tell, done)
      modifies `writePos, buffer
      ensures Valid() && Tell() == tell + |done + bytes| && Contents() == Overlay(contents, tell, done + bytes)
    {
      Append(bytes);
      OverlayTwice(contents, tell, done, bytes);
    }

    /** Writes past an empty buffer, if there is anything to write. */
    method WriteDirect(bytes: seq<Byte>) returns (failed: bool)
      requires Valid() && kind == WRITE_CACHE && writePos == 0 && error == 0
      modifies `file, `posInFile, `error, `diskOps
      ensures Valid() && Accepted(if failed then [] else bytes)
      ensures DiskUsed(if failed then 1 else 0, if bytes == [] then 0 else 1, old(diskOps))
    {
      failed := false;
      assert buffer[..0] == [];
      if |bytes| > 0 {
        failed := DiskWrite(bytes);
      }
    }

    /** my_b_write. */
    method Write(bytes: seq<Byte>) returns (r: int, ghost written: seq<Byte>)
      requires Valid() && kind == WRITE_CACHE
      modifies `file, `posInFile, `error, `diskOps, `writePos, `writeEnd, buffer
      ensures Valid() && Accepted(written) && written <= bytes && (r == 0 <==> written == bytes)
      ensures |bytes| <= old(BytesInCache()) ==>
                && r == 0 && file == old(file) && error == old(error) && diskOps == old(diskOps)
                && BytesInCache() == old(BytesInCache()) - |bytes|
      ensures |bytes| > old(BytesInCache()) ==>
                DiskUsed(r, DiskUses(|bytes| - old(BytesInCache()), buffer.Length), old(diskOps))
    {
      if writePos + |bytes| <= writeEnd {
        if |bytes| > 0 {
          Append(bytes);
        }
        return 0, bytes;
      }
      r, written := SlowWrite(bytes);
    }

    /** my_b_write_byte. */
    method WriteByte(chr: Byte) returns (r: int)
      requires Valid() && kind == WRITE_CACHE
      modifies `file, `posInFile, `error, `diskOps, `writePos, `writeEnd, buffer
      ensures Valid() && Accepted(if r == 0 then [chr] else [])
      ensures old(BytesInCache()) > 0 ==>
                && r == 0 && file == old(file) && error == old(error) && diskOps == old(diskOps)
                && BytesInCache() == old(BytesInCache()) - 1
      ensures old(BytesInCache()) == 0 ==>
                DiskUsed(r, 1, old(diskOps)) && BytesInCache() == if r == 0 then buffer.Length - 1 else 0
    {
      if writePos >= writeEnd {
        var failed := Flush();
        if failed {
          return 1;
        }
      }
      Append([chr]);
      return 0;
    }

    /** One operation after `done` has been accepted since `contents` and `tell`. */
    method Perform(op: WriteOp, ghost contents: seq<Byte>, ghost tell: nat, ghost done: seq<Byte>)
      returns (r: int, ghost all: seq<Byte>)
      requires Valid() && kind == WRITE_CACHE && tell <= |contents|
      requires Tell() == tell + |done| && Contents() == Overlay(contents, tell, done)
      modifies `file, `posInFile, `error, `diskOps, `writePos, `writeEnd, buffer
      ensures Valid() && Tell() == tell + |all| && Contents() == Overlay(contents, tell, all)
      ensures done <= all <= done + OpBytes(op) && (r == 0 ==> all == done + OpBytes(op))
      ensures r != 0 ==> diskOps == 0 && error == -1
    {
      ghost var written;
      match op {
        case Block(bytes) =>
          r, written := Write(bytes);
        case Single(chr) =>
          r := WriteByte(chr);
          written := if r == 0 then [chr] else [];
      }
      OverlayTwice(contents, tell, done, written);
      all := done + written;
    }

    /**
     Any list of writes that all return 0 leaves the file as one write of everything; when one does not, the disk
     has failed and a prefix was accepted.
     */
    method WriteAll(ops: seq<WriteOp>) returns (r: int, ghost written: seq<Byte>)
      requires Valid() && kind == WRITE_CACHE
      modifies `file, `posInFile, `error, `diskOps, `writePos, `writeEnd, buffer
      ensures Valid() && Accepted(written) && written <= Payload(ops) && (r == 0 ==> written == Payload(ops))
      ensures r != 0 ==> diskOps == 0 && error == -1
    {
      ghost var contents, tell := Contents(), Tell();
      r, written := 0, [];
      for i := 0 to |ops|
        invariant Valid() && r == 0 && written == Payload(ops[..i])
        invariant Tell() == tell + |written| && Contents() == Overlay(contents, tell, written)
      {
        PayloadStep(ops, i);
        r, written := Perform(ops[i], contents, tell, written);
        if r != 0 {
          PayloadPrefix(ops, i + 1);
          return;
        }
      }
      assert ops[..|ops|] == ops;
    }
  }

  lemma AcceptedTwice(c0: seq<Byte>, c1: seq<Byte>, c2: seq<Byte>, tell: nat, a: seq<Byte>, b: seq<Byte>)
    requires tell <= |c0| && c1 == Overlay(c0, tell, a) && c2 == Overlay(c1, tell + |a|, b)
    ensures c2 == Overlay(c0, tell, a + b)
  {
    OverlayTwice(c0, tell, a, b);
  }

  lemma PrefixJoined(first: seq<Byte>, more: seq<Byte>, rest: seq<Byte>)
    requires more <= rest
    ensures first + more <= first + rest && (first + more == first + rest <==> more == rest)
  {
    assert |more| == |rest| ==> more == rest;
  }

  lemma PayloadStep(ops: seq<WriteOp>, i: nat)
    requires i < |ops|
    ensures Payload(ops[..i + 1]) == Payload(ops[..i]) + OpBytes(ops[i])
  {
    assert ops[..i + 1][..i] == ops[..i];
  }

  /** The payload of a prefix is a prefix of the payload. */
  lemma {:induction false} PayloadPrefix(ops: seq<WriteOp>, i: nat)
    requires i <= |ops|
    ensures Payload(ops[..i]) <= Payload(ops)
    decreases |ops| - i
  {
    if i == |ops| {
      assert ops[..i] == ops;
    } else {
      PayloadStep(ops, i);
      PayloadPrefix(ops, i + 1);
    }
  }
}
