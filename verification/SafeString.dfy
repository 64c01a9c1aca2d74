/** safe_strcpy and safe_strcat of m_string.h: bounded copy and append that always terminate the result. */
module SafeString {
  import opened Bytes
  import opened CStrings

  function Clip(s: seq<Byte>, n: nat): (r: seq<Byte>)
    ensures |r| == if |s| < n then |s| else n
  {
    if |s| <= n then s else s[..n]
  }

  /** A clipped copy of `s` padded with zeros to `size`. */
  function Padded(s: seq<Byte>, size: nat): (r: seq<Byte>)
    ensures |r| == size
  {
    Clip(s, size) + Zeros(size - |Clip(s, size)|)
  }

  lemma PaddedAt(s: seq<Byte>, size: nat, i: nat)
    requires i < size
    ensures Padded(s, size)[i] == if i < |s| then s[i] else 0
  {
    if i >= |s| {
      ZerosAt(size - |s|, i - |s|);
    }
  }

  method StrNCpy(dst: array<Byte>, at: nat, src: seq<Byte>, size: nat)
    requires at + size <= dst.Length
    modifies dst
    ensures dst[..at] == old(dst[..at]) && dst[at + size..] == old(dst[at + size..])
    ensures dst[at..at + size] == Padded(src, size)
  {
    for i := 0 to size
      invariant dst[..at] == old(dst[..at]) && dst[at + size..] == old(dst[at + size..])
      invariant dst[at..at + i] == Padded(src, size)[..i]
    {
      dst[at + i] := if i < |src| then src[i] else 0;
      PaddedAt(src, size, i);
    }
  }

  /** Cutting the last character of a full copy is copying one character less. */
  lemma LastCut(src: seq<Byte>, size: nat)
    requires size > 0
    ensures Padded(src, size)[size - 1 := 0] == Padded(Clip(src, size - 1), size)
    ensures |src| <= size - 1 ==> Padded(src, size) == Padded(Clip(src, size - 1), size)
  {
    var cut := Clip(src, size - 1);
    forall i | 0 <= i < size
      ensures Padded(src, size)[size - 1 := 0][i] == Padded(cut, size)[i]
    {
      PaddedAt(src, size, i);
      PaddedAt(cut, size, i);
    }
  }

  /** Copies into the `size` cells from `at`. */
  method SafeStrCpy(dst: array<Byte>, at: nat, size: nat, src: seq<Byte>) returns (r: int)
    requires size > 0 && at + size <= dst.Length && 0 !in src
    modifies dst
    ensures dst[..] == old(dst[..at]) + Padded(Clip(src, size - 1), size) + old(dst[at + size..])
    ensures r == if |src| <= size - 1 then 0 else 1
  {
    StrNCpy(dst, at, src, size);
    PaddedAt(src, size, size - 1);
    LastCut(src, size);
    assert dst[at + size - 1] == dst[at..at + size][size - 1];
    r := 0;
    if dst[at + size - 1] != 0 {
      ghost var full := dst[at..at + size];
      dst[at + size - 1] := 0;
      assert dst[at..at + size] == full[size - 1 := 0];
      r := 1;
    }
    assert dst[..] == dst[..at] + dst[at..at + size] + dst[at + size..];
  }

  /** What safe_strcpy leaves is a terminated string: the first size - 1 characters of the source. */
  lemma CopiedText(src: seq<Byte>, size: nat)
    requires size > 0 && 0 !in src
    ensures var mem := Padded(Clip(src, size - 1), size); 0 in mem && Text(mem, 0) == Clip(src, size - 1)
  {
    var text := Clip(src, size - 1);
    PaddedAt(text, size, |text|);
    TextIs(text, Padded(text, size), 0);
  }

  method StrLen(dst: array<Byte>) returns (n: nat)
    requires 0 in dst[..]
    ensures n == |Text(dst[..], 0)|
  {
    n := 0;
    while dst[n] != 0
      invariant n <= |Text(dst[..], 0)|
      decreases dst.Length - n
    {
      assert dst[n] == dst[..][n];
      n := n + 1;
    }
    assert dst[n] == dst[..][n];
  }

  /** What safe_strcat returns for a string of length `len`, `added` more characters and a buffer of `size`. */
  function CatCode(len: nat, added: nat, size: nat): int
    requires size > 0
  {
    if len < size - 1 && len + added <= size - 1 then 0 else 1
  }

  /** The code reports truncation as documented except when nothing is appended to a string that fills its buffer. */
  lemma CatCodeIsTruncationIff(len: nat, added: nat, size: nat)
    requires size > 0
    ensures (CatCode(len, added, size) == 1 <==> added > 0 && len + added > size - 1)
       <==> !(len >= size - 1 && added == 0)
  {
  }

  /** The string `s` extended by what fits of `src`, zeros up to `size`, and the memory beyond. */
  function Extended(s: seq<Byte>, mem: seq<Byte>, size: nat, src: seq<Byte>): (r: seq<Byte>)
    requires |s| < size <= |mem|
    ensures |r| == |mem|
  {
    s + Padded(Clip(src, size - |s| - 1), size - |s|) + mem[size..]
  }

  /** The memory safe_strcat leaves: a string that already fills `size` cells stays, any other is extended. */
  function Catted(mem: seq<Byte>, size: nat, src: seq<Byte>): (r: seq<Byte>)
    requires 0 in mem && 0 < size <= |mem|
    ensures |r| == |mem|
  {
    var s := Text(mem, 0);
    if |s| >= size - 1 then mem else Extended(s, mem, size, src)
  }

  /** The string safe_strcat leaves. */
  function CatText(s: seq<Byte>, src: seq<Byte>, size: nat): (r: seq<Byte>)
    requires size > 0
  {
    if |s| >= size - 1 then s else Clip(s + src, size - 1)
  }

  lemma ExtendedAt(s: seq<Byte>, mem: seq<Byte>, size: nat, src: seq<Byte>, i: nat)
    requires |s| < size <= |mem| && i < size
    ensures var text := Clip(s + src, size - 1);
            Extended(s, mem, size, src)[i] == if i < |text| then text[i] else 0
  {
    if i >= |s| {
      PaddedAt(Clip(src, size - |s| - 1), size - |s|, i - |s|);
    }
  }

  lemma ExtendedIs(s: seq<Byte>, mem: seq<Byte>, size: nat, src: seq<Byte>, text: seq<Byte>)
    requires |s| < size <= |mem| && 0 !in s && 0 !in src && text == Clip(s + src, size - 1)
    ensures var r := Extended(s, mem, size, src);
            && 0 in r && Text(r, 0) == text && r[size..] == mem[size..]
            && forall i | |text| <= i < size :: r[i] == 0
  {
    var r := Extended(s, mem, size, src);
    forall i | 0 <= i < size
      ensures r[i] == if i < |text| then text[i] else 0
    {
      ExtendedAt(s, mem, size, src, i);
    }
    assert r[|text|] == 0 && r[..|text|] == text;
    TextIs(text, r, 0);
  }

  /** The memory is terminated, holds that string, is zero up to `size` when extended, and is untouched beyond. */
  lemma CattedIs(mem: seq<Byte>, size: nat, src: seq<Byte>)
    requires 0 in mem && 0 < size <= |mem| && 0 !in src
    ensures var r, s := Catted(mem, size, src), Text(mem, 0);
            && 0 in r && Text(r, 0) == CatText(s, src, size)
            && (|s| < size - 1 ==> forall i | |Text(r, 0)| <= i < size :: r[i] == 0)
            && r[size..] == mem[size..]
  {
    var s := Text(mem, 0);
    if |s| < size - 1 {
      ExtendedIs(s, mem, size, src, Clip(s + src, size - 1));
    }
  }

  /** 0 is returned exactly when the old text left room and all of `src` stands behind it now. */
  lemma CodeTellsText(mem: seq<Byte>, size: nat, src: seq<Byte>, after: seq<Byte>, r: int)
    requires 0 in mem && 0 < size <= |mem| && 0 !in src
    requires after == Catted(mem, size, src) && r == CatCode(|Text(mem, 0)|, |src|, size)
    ensures r == 0 <==> |Text(mem, 0)| < size - 1 && Text(after, 0) == Text(mem, 0) + src
  {
    CattedIs(mem, size, src);
  }

  method SafeStrCat(dst: array<Byte>, size: nat, src: seq<Byte>) returns (r: int)
    requires 0 in dst[..] && 0 < size <= dst.Length && 0 !in src
    modifies dst
    ensures dst[..] == Catted(old(dst[..]), size, src)
    ensures r == CatCode(|Text(old(dst[..]), 0)|, |src|, size)
    ensures r == 0 || r == 1
    ensures r == 0 <==> |Text(old(dst[..]), 0)| < size - 1 && Text(dst[..], 0) == Text(old(dst[..]), 0) + src
  {
    ghost var mem := dst[..];
    var len := StrLen(dst);
    if len >= size - 1 {
      CodeTellsText(mem, size, src, dst[..], 1);
      return 1;
    }
    r := CopyBehind(dst, len, size, src);
    CodeTellsText(mem, size, src, dst[..], r);
  }

  /** The safe_strcpy call behind the text of length `len`. */
  method CopyBehind(dst: array<Byte>, len: nat, size: nat, src: seq<Byte>) returns (r: int)
    requires 0 in dst[..] && len == |Text(dst[..], 0)| < size - 1 < dst.Length && 0 !in src
    modifies dst
    ensures dst[..] == Catted(old(dst[..]), size, src)
    ensures r == CatCode(|Text(old(dst[..]), 0)|, |src|, size)
  {
    ghost var mem, s, back := dst[..], dst[..len], dst[size..];
    TextIsFront(mem, len);
    r := SafeStrCpy(dst, len, size - len, src);
    ExtendedParts(s, mem, size, src, back, dst[..]);
  }

  lemma TextIsFront(mem: seq<Byte>, len: nat)
    requires len == |Text(mem, 0)|
    ensures mem[..len] == Text(mem, 0)
  {
  }

  lemma ExtendedParts(s: seq<Byte>, mem: seq<Byte>, size: nat, src: seq<Byte>, back: seq<Byte>, after: seq<Byte>)
    requires |s| < size <= |mem| && back == mem[size..]
    requires after == s + Padded(Clip(src, size - |s| - 1), size - |s|) + back
    ensures after == Extended(s, mem, size, src)
  {
  }

  // Lists of appends

  function Concat(srcs: seq<seq<Byte>>): (s: seq<Byte>) {
    if srcs == [] then [] else Concat(srcs[..|srcs| - 1]) + srcs[|srcs| - 1]
  }

  lemma ConcatStep(srcs: seq<seq<Byte>>, i: nat)
    requires i < |srcs|
    ensures Concat(srcs[..i + 1]) == Concat(srcs[..i]) + srcs[i]
  {
    assert srcs[..i + 1][..i] == srcs[..i];
  }

  /** Clipping after each append is clipping once at the end. */
  lemma CatTextTwice(s: seq<Byte>, t: seq<Byte>, u: seq<Byte>, size: nat)
    requires size > 0
    ensures CatText(CatText(s, t, size), u, size) == CatText(s, t + u, size)
    ensures CatCode(|CatText(s, t, size)|, |u|, size) == CatCode(|s + t|, |u|, size)
  {
    assert s + t + u == s + (t + u);
  }

  /** What the call for `srcs[i]` returns when the buffer held `s` at first. */
  function CodeAt(s: seq<Byte>, srcs: seq<seq<Byte>>, i: nat, size: nat): int
    requires i < |srcs| && size > 0
  {
    CatCode(|s + Concat(srcs[..i])|, |srcs[i]|, size)
  }

  /** Once a call has returned 1, every later one does. */
  lemma {:induction false} CodesStay(s: seq<Byte>, srcs: seq<seq<Byte>>, i: nat, j: nat, size: nat)
    requires i < j < |srcs| && size > 0 && CodeAt(s, srcs, i, size) == 1
    ensures |s + Concat(srcs[..j])| >= size - 1 && CodeAt(s, srcs, j, size) == 1
    decreases j
  {
    ConcatStep(srcs, j - 1);
    if i < j - 1 {
      CodesStay(s, srcs, i, j - 1, size);
    }
  }

  lemma CatStep(mem: seq<Byte>, s: seq<Byte>, srcs: seq<seq<Byte>>, i: nat, size: nat)
    requires i < |srcs| && 0 in mem && 0 < size <= |mem| && 0 !in srcs[i]
    requires Text(mem, 0) == CatText(s, Concat(srcs[..i]), size)
    ensures var r := Catted(mem, size, srcs[i]);
            && 0 in r && r[size..] == mem[size..]
            && Text(r, 0) == CatText(s, Concat(srcs[..i + 1]), size)
            && CatCode(|Text(mem, 0)|, |srcs[i]|, size) == CodeAt(s, srcs, i, size)
  {
    CattedIs(mem, size, srcs[i]);
    CatTextTwice(s, Concat(srcs[..i]), srcs[i], size);
    ConcatStep(srcs, i);
  }

  /** What the first `n` calls return. */
  function Codes(s: seq<Byte>, srcs: seq<seq<Byte>>, n: nat, size: nat): (codes: seq<int>)
    requires n <= |srcs| && size > 0
    ensures |codes| == n
    ensures forall i | 0 <= i < n :: codes[i] == CodeAt(s, srcs, i, size)
  {
    if n == 0 then [] else Codes(s, srcs, n - 1, size) + [CodeAt(s, srcs, n - 1, size)]
  }

  /** Any list of appends leaves the clipped concatenation. */
  method CatAll(dst: array<Byte>, size: nat, srcs: seq<seq<Byte>>) returns (codes: seq<int>)
    requires 0 in dst[..] && 0 < size <= dst.Length && forall i | 0 <= i < |srcs| :: 0 !in srcs[i]
    modifies dst
    ensures 0 in dst[..] && Text(dst[..], 0) == CatText(Text(old(dst[..]), 0), Concat(srcs), size)
    ensures dst[size..] == old(dst[size..])
    ensures codes == Codes(Text(old(dst[..]), 0), srcs, |srcs|, size)
  {
    ghost var was, s := dst[..], Text(dst[..], 0);
    ghost var mem := was;
    codes := [];
    for i := 0 to |srcs|
      invariant dst[..] == mem && 0 in mem && |mem| == |was| && mem[size..] == was[size..]
      invariant Text(mem, 0) == CatText(s, Concat(srcs[..i]), size)
      invariant codes == Codes(s, srcs, i, size)
    {
      CatStep(mem, s, srcs, i, size);
      var r := SafeStrCat(dst, size, srcs[i]);
      mem := Catted(mem, size, srcs[i]);
      codes := codes + [r];
    }
    assert srcs[..|srcs|] == srcs;
  }
}
