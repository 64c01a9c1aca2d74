/** my_uuid2str of my_sys.h, a parser for its output, and that each undoes the other. */
module Uuid {
  import opened Options
  import opened Bytes

  const UUID_SIZE: nat := 16

  /** Sixteen different digit characters, none of which is the separator. */
  ghost predicate GoodDigits(digits: seq<char>) {
    && |digits| == 16
    && (forall i | 0 <= i < 16 :: digits[i] != '-')
    && (forall i, j | 0 <= i < j < 16 :: digits[i] != digits[j])
  }

  /** Separators follow bytes 3, 5, 7 and 9, as section 4 of RFC 9562 groups the digits. */
  predicate SeparatorAfter(i: nat) {
    i == 3 || i == 5 || i == 7 || i == 9
  }

  /** The text of one byte, with the separator that follows it. */
  function Piece(b: Byte, dash: bool, digits: seq<char>): (s: seq<char>)
    requires |digits| == 16
    ensures |s| == if dash then 3 else 2
  {
    [digits[b / 16], digits[b % 16]] + if dash then ['-'] else []
  }

  /** The text of the first `n` bytes. */
  function Printed(guid: seq<Byte>, n: nat, digits: seq<char>, separated: bool): seq<char>
    requires n <= |guid| && |digits| == 16
    decreases n
  {
    if n == 0 then []
    else Printed(guid, n - 1, digits, separated) + Piece(guid[n - 1], separated && SeparatorAfter(n - 1), digits)
  }

  /** The length of the text of `n` bytes. */
  function PrintedLength(n: nat, separated: bool): nat {
    if n == 0 then 0 else PrintedLength(n - 1, separated) + if separated && SeparatorAfter(n - 1) then 3 else 2
  }

  lemma {:induction false} PrintedHasLength(guid: seq<Byte>, n: nat, digits: seq<char>, separated: bool)
    requires n <= |guid| && |digits| == 16
    ensures |Printed(guid, n, digits, separated)| == PrintedLength(n, separated)
  {
    if n > 0 {
      PrintedHasLength(guid, n - 1, digits, separated);
    }
  }

  lemma {:induction false} PrintedLengthGrows(m: nat, n: nat, separated: bool)
    requires m <= n
    ensures PrintedLength(m, separated) <= PrintedLength(n, separated)
    decreases n
  {
    if m < n {
      PrintedLengthGrows(m, n - 1, separated);
    }
  }

  lemma LengthOf16()
    ensures PrintedLength(UUID_SIZE, true) == 36 && PrintedLength(UUID_SIZE, false) == 32
  {
    assert PrintedLength(4, true) == 9 && PrintedLength(8, true) == 19 && PrintedLength(12, true) == 28;
    assert PrintedLength(8, false) == 16;
  }

  /** 36 characters with separators, 32 without. */
  lemma UuidLengths(guid: seq<Byte>, n: nat, digits: seq<char>)
    requires |guid| == n == UUID_SIZE && |digits| == 16
    ensures |Printed(guid, n, digits, true)| == PrintedLength(n, true) == 36
    ensures |Printed(guid, n, digits, false)| == PrintedLength(n, false) == 32
  {
    PrintedHasLength(guid, n, digits, true);
    PrintedHasLength(guid, n, digits, false);
    LengthOf16();
  }

  /** Where the text of byte `i` starts: the groups are 8, 4, 4, 4 and 12 digits with one dash between them. */
  function Column(i: nat): nat {
    2 * i + if i < 4 then 0 else if i < 6 then 1 else if i < 8 then 2 else if i < 10 then 3 else 4
  }

  predicate DashColumn(k: nat) {
    k == 8 || k == 13 || k == 18 || k == 23
  }

  /** The text of byte `i` stands at its column, the high digit first. */
  ghost predicate ByteAt(t: seq<char>, b: Byte, i: nat, digits: seq<char>)
    requires |digits| == 16
  {
    Column(i) + 1 < |t| && t[Column(i)] == digits[b / 16] && t[Column(i) + 1] == digits[b % 16]
  }

  ghost predicate DashesAt(t: seq<char>) {
    forall k | 0 <= k < |t| :: t[k] == '-' <==> DashColumn(k)
  }

  /** Each byte is two digits, the high one first, at its column; dashes stand at 8, 13, 18 and 23 and nowhere else. */
  lemma {:induction false} PrintedAt(guid: seq<Byte>, n: nat, digits: seq<char>)
    requires n <= |guid| && GoodDigits(digits)
    ensures var t := Printed(guid, n, digits, true);
            && |t| == Column(n) && DashesAt(t)
            && forall i | 0 <= i < n :: ByteAt(t, guid[i], i, digits)
  {
    if n > 0 {
      PrintedAt(guid, n - 1, digits);
      var s := Printed(guid, n - 1, digits, true);
      PieceAt(s, guid[n - 1], n - 1, digits);
      forall i | 0 <= i < n - 1
        ensures ByteAt(Printed(guid, n, digits, true), guid[i], i, digits)
      {
        ByteStays(s, Piece(guid[n - 1], SeparatorAfter(n - 1), digits), guid[i], i, digits);
      }
    }
  }

  lemma ByteStays(s: seq<char>, p: seq<char>, b: Byte, i: nat, digits: seq<char>)
    requires |digits| == 16 && ByteAt(s, b, i, digits)
    ensures ByteAt(s + p, b, i, digits)
  {
  }

  lemma PieceAt(s: seq<char>, b: Byte, i: nat, digits: seq<char>)
    requires GoodDigits(digits) && |s| == Column(i) && DashesAt(s)
    ensures var t := s + Piece(b, SeparatorAfter(i), digits);
            |t| == Column(i + 1) && ByteAt(t, b, i, digits) && DashesAt(t)
  {
  }

  /** Without separators the digits follow each other. */
  lemma {:induction false} BareAt(guid: seq<Byte>, n: nat, digits: seq<char>)
    requires n <= |guid| && |digits| == 16
    ensures var t := Printed(guid, n, digits, false);
            && |t| == 2 * n
            && forall i | 0 <= i < n :: t[2 * i] == digits[guid[i] / 16] && t[2 * i + 1] == digits[guid[i] % 16]
  {
    if n > 0 {
      BareAt(guid, n - 1, digits);
    }
  }

  /** The mask of the loop after `i` right shifts. */
  function Mask(i: nat): nat {
    if i == 0 then 8 + 32 + 128 + 512 else Mask(i - 1) / 2
  }

  lemma MaskMarksSeparators(i: nat)
    requires i < UUID_SIZE
    ensures Mask(i) % 2 == 1 <==> SeparatorAfter(i)
  {
    assert Mask(0) == 680 && Mask(1) == 340 && Mask(2) == 170 && Mask(3) == 85;
    assert Mask(4) == 42 && Mask(5) == 21 && Mask(6) == 10 && Mask(7) == 5;
    assert Mask(8) == 2 && Mask(9) == 1 && Mask(10) == 0;
    if i > 10 {
      MaskEnds(i);
    }
  }

  lemma {:induction false} MaskEnds(i: nat)
    requires i >= 10
    ensures Mask(i) == 0
  {
    if i > 10 {
      MaskEnds(i - 1);
    } else {
      assert Mask(8) == 2;
    }
  }

  method PutByte(s: array<char>, pos: nat, b: Byte, dash: bool, digits: seq<char>) returns (next: nat)
    requires |digits| == 16 && pos + (if dash then 3 else 2) <= s.Length
    modifies s
    ensures next == pos + |Piece(b, dash, digits)|
    ensures s[..next] == old(s[..pos]) + Piece(b, dash, digits)
    ensures s[next..] == old(s[next..])
  {
    s[pos] := digits[b / 16];
    s[pos + 1] := digits[b % 16];
    next := pos + 2;
    if dash {
      s[next] := '-';
      next := next + 1;
    }
  }

  lemma RoomForPiece(guid: seq<Byte>, i: nat, digits: seq<char>, separated: bool)
    requires i < |guid| && |digits| == 16
    ensures |Printed(guid, i, digits, separated)| + (if separated && SeparatorAfter(i) then 3 else 2)
         <= PrintedLength(|guid|, separated)
  {
    PrintedHasLength(guid, i, digits, separated);
    PrintedLengthGrows(i + 1, |guid|, separated);
  }

  method Uuid2Str(guid: seq<Byte>, s: array<char>, withSeparators: bool, digits: seq<char>)
    requires |guid| == UUID_SIZE && |digits| == 16
    requires s.Length >= PrintedLength(|guid|, withSeparators)
    modifies s
    ensures var text := Printed(guid, |guid|, digits, withSeparators);
            |text| <= s.Length && s[..|text|] == text && s[|text|..] == old(s[|text|..])
  {
    PutBytes(guid, s, withSeparators, digits);
  }

  /** The loop, for any number of bytes that the mask covers. */
  method PutBytes(guid: seq<Byte>, s: array<char>, withSeparators: bool, digits: seq<char>)
    requires |guid| <= UUID_SIZE && |digits| == 16
    requires s.Length >= PrintedLength(|guid|, withSeparators)
    modifies s
    ensures var text := Printed(guid, |guid|, digits, withSeparators);
            |text| <= s.Length && s[..|text|] == text && s[|text|..] == old(s[|text|..])
  {
    var mask := if withSeparators then 8 + 32 + 128 + 512 else 0;
    var pos: nat := 0;
    for i := 0 to |guid|
      invariant mask == if withSeparators then Mask(i) else 0
      invariant pos <= s.Length && s[..pos] == Printed(guid, i, digits, withSeparators)
      invariant s[pos..] == old(s[..])[pos..]
    {
      MaskMarksSeparators(i);
      RoomForPiece(guid, i, digits, withSeparators);
      pos := PutByte(s, pos, guid[i], mask % 2 == 1, digits);
      mask := mask / 2;
    }
  }

  function WithoutDashes(s: seq<char>): seq<char> {
    if s == [] then []
    else WithoutDashes(s[..|s| - 1]) + if s[|s| - 1] == '-' then [] else [s[|s| - 1]]
  }

  lemma {:induction false} WithoutDashesConcat(s: seq<char>, t: seq<char>)
    ensures WithoutDashes(s + t) == WithoutDashes(s) + WithoutDashes(t)
  {
    if t == [] {
      assert s + t == s;
    } else {
      assert (s + t)[..|s + t| - 1] == s + t[..|t| - 1];
      WithoutDashesConcat(s, t[..|t| - 1]);
    }
  }

  lemma PieceWithoutDash(b: Byte, dash: bool, digits: seq<char>)
    requires GoodDigits(digits)
    ensures WithoutDashes(Piece(b, dash, digits)) == Piece(b, false, digits)
  {
    var hi, lo := [digits[b / 16]], [digits[b % 16]];
    assert hi[..0] == [] && lo[..0] == [] && ['-'][..0] == [];
    assert WithoutDashes(hi) == hi && WithoutDashes(lo) == lo && WithoutDashes(['-']) == [];
    WithoutDashesConcat(hi, lo);
    WithoutDashesConcat(hi + lo, ['-']);
    assert Piece(b, false, digits) == hi + lo && Piece(b, true, digits) == hi + lo + ['-'];
  }

  /** Deleting the separators gives the bare form. */
  lemma {:induction false} DashesDeleted(guid: seq<Byte>, n: nat, digits: seq<char>)
    requires n <= |guid| && GoodDigits(digits)
    ensures WithoutDashes(Printed(guid, n, digits, true)) == Printed(guid, n, digits, false)
    decreases n
  {
    if n > 0 {
      var text, piece := Printed(guid, n - 1, digits, true), Piece(guid[n - 1], SeparatorAfter(n - 1), digits);
      DashesDeleted(guid, n - 1, digits);
      PieceWithoutDash(guid[n - 1], SeparatorAfter(n - 1), digits);
      WithoutDashesConcat(text, piece);
      assert Printed(guid, n, digits, true) == text + piece;
    }
  }

  // Parsing

  /** The position of a digit character. */
  function Digit(c: char, digits: seq<char>, from: nat): (d: Option<nat>)
    requires |digits| == 16 && from <= 16
    ensures d.Some? ==> d.value < 16 && digits[d.value] == c
    ensures d.None? ==> forall i | from <= i < 16 :: digits[i] != c
    decreases 16 - from
  {
    if from == 16 then None
    else if digits[from] == c then Some(from)
    else Digit(c, digits, from + 1)
  }

  function ParsePiece(p: seq<char>, dash: bool, digits: seq<char>): Option<Byte>
    requires |digits| == 16 && |p| == if dash then 3 else 2
  {
    match (Digit(p[0], digits, 0), Digit(p[1], digits, 0))
    case (Some(hi), Some(lo)) => if dash && p[2] != '-' then None else Some(16 * hi + lo)
    case _ => None
  }

  /** Reads exactly `n` bytes. */
  function Parse(s: seq<char>, n: nat, digits: seq<char>, separated: bool): Option<seq<Byte>>
    requires |digits| == 16
    decreases n
  {
    if n == 0 then (if s == [] then Some([]) else None)
    else
      var dash := separated && SeparatorAfter(n - 1);
      var k := if dash then 3 else 2;
      if |s| < k then None
      else
        Joined(Parse(s[..|s| - k], n - 1, digits, separated), ParsePiece(s[|s| - k..], dash, digits))
  }

  function Joined(rest: Option<seq<Byte>>, b: Option<Byte>): Option<seq<Byte>> {
    if rest.Some? && b.Some? then Some(rest.value + [b.value]) else None
  }

  lemma ParseConcat(s: seq<char>, p: seq<char>, n: nat, digits: seq<char>, separated: bool,
                    rest: seq<Byte>, b: Byte, guid: seq<Byte>)
    requires |digits| == 16 && n > 0 && |p| == (if separated && SeparatorAfter(n - 1) then 3 else 2)
    requires Parse(s, n - 1, digits, separated) == Some(rest)
    requires ParsePiece(p, separated && SeparatorAfter(n - 1), digits) == Some(b)
    requires guid == rest + [b]
    ensures Parse(s + p, n, digits, separated) == Some(guid)
  {
    assert (s + p)[..|s + p| - |p|] == s && (s + p)[|s + p| - |p|..] == p;
  }

  lemma ParsePieceInverse(b: Byte, dash: bool, digits: seq<char>)
    requires GoodDigits(digits)
    ensures ParsePiece(Piece(b, dash, digits), dash, digits) == Some(b)
  {
    var p := Piece(b, dash, digits);
    assert p[0] == digits[b / 16] && p[1] == digits[b % 16] && (dash ==> p[2] == '-');
    DigitOf(b / 16, digits);
    DigitOf(b % 16, digits);
  }

  lemma DigitOf(i: nat, digits: seq<char>)
    requires GoodDigits(digits) && i < 16
    ensures Digit(digits[i], digits, 0) == Some(i)
  {
    var d := Digit(digits[i], digits, 0);
    assert d.Some? && digits[d.value] == digits[i];
  }

  lemma HexDigits(hi: nat, lo: nat)
    requires hi < 16 && lo < 16
    ensures (16 * hi + lo) / 16 == hi && (16 * hi + lo) % 16 == lo
  {
  }

  lemma PieceOf(p: seq<char>, b: Byte, dash: bool, digits: seq<char>)
    requires |digits| == 16 && |p| == (if dash then 3 else 2)
    requires digits[b / 16] == p[0] && digits[b % 16] == p[1] && (dash ==> p[2] == '-')
    ensures Piece(b, dash, digits) == p
  {
  }

  lemma PieceOfParsed(p: seq<char>, dash: bool, digits: seq<char>, b: Byte)
    requires |digits| == 16 && |p| == (if dash then 3 else 2) && ParsePiece(p, dash, digits) == Some(b)
    ensures Piece(b, dash, digits) == p
  {
    HexDigits(Digit(p[0], digits, 0).value, Digit(p[1], digits, 0).value);
    PieceOf(p, b, dash, digits);
  }

  ghost predicate PiecesParse(digits: seq<char>)
    requires |digits| == 16
  {
    forall b: Byte, dash: bool :: ParsePiece(Piece(b, dash, digits), dash, digits) == Some(b)
  }

  lemma ParseBackStep(guid: seq<Byte>, n: nat, digits: seq<char>, separated: bool, text: seq<char>, rest: seq<Byte>)
    requires 0 < n <= |guid| && |digits| == 16 && PiecesParse(digits)
    requires rest == guid[..n - 1] && text == Printed(guid, n - 1, digits, separated)
    requires Parse(text, n - 1, digits, separated) == Some(rest)
    ensures Parse(Printed(guid, n, digits, separated), n, digits, separated) == Some(guid[..n])
  {
    var b := guid[n - 1];
    var p := Piece(b, separated && SeparatorAfter(n - 1), digits);
    ParseConcat(text, p, n, digits, separated, rest, b, guid[..n]);
  }

  lemma {:induction false} ParseBack(guid: seq<Byte>, n: nat, digits: seq<char>, separated: bool)
    requires n <= |guid| && |digits| == 16 && PiecesParse(digits)
    ensures Parse(Printed(guid, n, digits, separated), n, digits, separated) == Some(guid[..n])
    decreases n
  {
    if n > 0 {
      ParseBack(guid, n - 1, digits, separated);
      ParseBackStep(guid, n, digits, separated, Printed(guid, n - 1, digits, separated), guid[..n - 1]);
    }
  }

  /** The parser undoes the printer. */
  lemma ParsePrinted(guid: seq<Byte>, n: nat, digits: seq<char>, separated: bool)
    requires n <= |guid| && GoodDigits(digits)
    ensures Parse(Printed(guid, n, digits, separated), n, digits, separated) == Some(guid[..n])
  {
    forall b: Byte, dash: bool
      ensures ParsePiece(Piece(b, dash, digits), dash, digits) == Some(b)
    {
      ParsePieceInverse(b, dash, digits);
    }
    ParseBack(guid, n, digits, separated);
  }

  /** The printer undoes the parser: no other text parses to the same bytes. */
  lemma {:induction false} PrintParsed(s: seq<char>, n: nat, digits: seq<char>, separated: bool, guid: seq<Byte>)
    requires GoodDigits(digits) && Parse(s, n, digits, separated) == Some(guid)
    ensures |guid| == n && Printed(guid, n, digits, separated) == s
    decreases n
  {
    if n > 0 {
      var dash := separated && SeparatorAfter(n - 1);
      var init, p, rest, b := ParsedParts(s, n, digits, separated, guid);
      PrintParsed(init, n - 1, digits, separated, rest);
      PieceOfParsed(p, dash, digits, b);
      PrintedExtended(rest, b, digits, separated);
    }
  }

  lemma ParsedParts(s: seq<char>, n: nat, digits: seq<char>, separated: bool, guid: seq<Byte>)
    returns (init: seq<char>, p: seq<char>, rest: seq<Byte>, b: Byte)
    requires |digits| == 16 && n > 0 && Parse(s, n, digits, separated) == Some(guid)
    ensures s == init + p && guid == rest + [b] && |p| == if separated && SeparatorAfter(n - 1) then 3 else 2
    ensures Parse(init, n - 1, digits, separated) == Some(rest)
    ensures ParsePiece(p, separated && SeparatorAfter(n - 1), digits) == Some(b)
  {
    var dash := separated && SeparatorAfter(n - 1);
    var k := if dash then 3 else 2;
    init, p := s[..|s| - k], s[|s| - k..];
    rest, b := JoinedParts(Parse(init, n - 1, digits, separated), ParsePiece(p, dash, digits), guid);
  }

  lemma JoinedParts(r: Option<seq<Byte>>, piece: Option<Byte>, guid: seq<Byte>) returns (rest: seq<Byte>, b: Byte)
    requires Joined(r, piece) == Some(guid)
    ensures r == Some(rest) && piece == Some(b) && guid == rest + [b]
  {
    rest, b := r.value, piece.value;
  }

  lemma PrintedExtended(g: seq<Byte>, b: Byte, digits: seq<char>, separated: bool)
    requires |digits| == 16
    ensures Printed(g + [b], |g| + 1, digits, separated)
         == Printed(g, |g|, digits, separated) + Piece(b, separated && SeparatorAfter(|g|), digits)
  {
    PrintedPrefix(g, b, |g|, digits, separated);
  }

  lemma {:induction false} PrintedPrefix(g: seq<Byte>, b: Byte, n: nat, digits: seq<char>, separated: bool)
    requires n <= |g| && |digits| == 16
    ensures Printed(g + [b], n, digits, separated) == Printed(g, n, digits, separated)
    decreases n
  {
    if n > 0 {
      PrintedPrefix(g, b, n - 1, digits, separated);
    }
  }
}
