/**
 The conversion of wide strings to UTF-8: one call of WideCharToMultiByte to measure with the
 terminator, an unsigned subtraction, and one call to write without it.
 */
module CommandLine {
  import opened Options
  import opened Bytes
  import opened CStrings
  import opened Utf

  const INT_MAX: int := 0x7FFF_FFFF
  const UINT_MAX: int := 0xFFFF_FFFF

  /** The value of an int expression converted to unsigned int, and back. */
  function ToUnsigned(x: int): (u: nat)
    ensures u <= UINT_MAX
  {
    x % 0x1_0000_0000
  }

  function ToInt(u: int): int {
    if u <= INT_MAX then u else u - 0x1_0000_0000
  }

  /** The two conversions undo each other on every int, and unsigned values up to INT_MAX are the non-negative ints. */
  lemma IntRange(x: int)
    requires -0x8000_0000 <= x <= 0x7FFF_FFFF
    ensures ToInt(ToUnsigned(x)) == x && (x >= 0 <==> ToUnsigned(x) <= INT_MAX) && ToUnsigned(x) <= 0xFFFF_FFFF
  {
  }

  method WcsLen(mem: seq<Unit>) returns (n: nat)
    requires 0 in mem
    ensures n == |Text(mem, 0)|
  {
    n := 0;
    while mem[n] != 0
      invariant n <= |Text(mem, 0)| && mem[..n] == Text(mem, 0)[..n]
      decreases |mem| - n
    {
      assert n < |Text(mem, 0)|;
      n := n + 1;
    }
  }

  /** Strict conversion of a range of units. */
  function Converted(units: seq<Unit>): Option<seq<Byte>> {
    match Decode16(units)
    case None => None
    case Some(cs) => Some(Encode8(cs))
  }

  /** The units a call converts: with count -1 up to and including the terminator. */
  function Source(mem: seq<Unit>, count: int): seq<Unit>
    requires 0 in mem && -1 <= count <= |mem|
  {
    if count == -1 then mem[..|Text(mem, 0)| + 1] else mem[..count]
  }

  function Count(converted: Option<seq<Byte>>): nat {
    match converted case None => 0 case Some(bytes) => |bytes|
  }

  /** The result of WideCharToMultiByte(CP_UTF8, WC_ERR_INVALID_CHARS) by its documented error cases. */
  function ConversionResult(units: seq<Unit>, capacity: int): int {
    if units == [] || capacity < 0 then 0
    else if capacity == 0 || Count(Converted(units)) <= capacity then Count(Converted(units))
    else 0
  }

  method WideCharToMultiByte(mem: seq<Unit>, count: int, buffer: array<Byte>, capacity: int) returns (n: int)
    requires 0 in mem && -1 <= count <= |mem|
    requires capacity <= buffer.Length
    modifies buffer
    ensures n == ConversionResult(Source(mem, count), capacity)
    ensures n != 0 && capacity > 0 ==>
              n <= capacity && Some(buffer[..n]) == Converted(Source(mem, count)) && buffer[n..] == old(buffer[n..])
  {
    var units := Source(mem, count);
    if units == [] || capacity < 0 {
      return 0;
    }
    var converted := Converted(units);
    if converted.None? {
      return 0;
    }
    var bytes := converted.value;
    n := |bytes|;
    if capacity == 0 {
      return;
    }
    if n > capacity {
      return 0;
    }
    for i := 0 to n
      invariant buffer[..i] == bytes[..i]
      invariant buffer[n..] == old(buffer[n..])
    {
      buffer[i] := bytes[i];
    }
    assert bytes[..n] == bytes;
  }

  /** A returned string, or the exception thrown when a buffer cannot be allocated. */
  datatype Outcome = Returned(bytes: seq<Byte>) | BadAlloc

  /** The string and its conversion are no longer than an int can count. */
  ghost predicate FitsInt(mem: seq<Unit>) {
    |Text(mem, 0)| < INT_MAX && match Converted(Text(mem, 0)) case None => true case Some(b) => |b| < INT_MAX
  }

  /**
   What Utf8FromUtf16 returns.  For ill-formed text the measured length wraps to UINT_MAX: the result is
   empty if that exceeds max_size or can be allocated, and an exception otherwise.
   */
  function Utf8Result(text: seq<Unit>, maxSize: nat, available: nat): Outcome {
    match Converted(text)
    case Some(bytes) =>
      if |bytes| > maxSize then Returned([]) else if |bytes| > available then BadAlloc else Returned(bytes)
    case None =>
      if maxSize < UINT_MAX || UINT_MAX <= available then Returned([]) else BadAlloc
  }

  /** The measuring pass with the terminator finds one byte more than the writing pass without it, or both fail. */
  lemma TwoPasses(mem: seq<Unit>)
    requires 0 in mem
    ensures Converted(Source(mem, -1)) == match Converted(Text(mem, 0)) case None => None case Some(b) => Some(b + [0])
  {
    assert Source(mem, -1) == Text(mem, 0) + [0];
    Decode16Append(Text(mem, 0), 0);
    match Decode16(Text(mem, 0))
    case None =>
    case Some(cs) => Encode8Append(cs, 0);
  }

  /** The unsigned length both passes agree on; it wraps when the measuring pass fails. */
  function TargetLength(text: seq<Unit>): (n: nat)
    ensures Converted(text).None? ==> n == 0xFFFF_FFFF
  {
    Wrapped(Converted(text))
  }

  function Wrapped(converted: Option<seq<Byte>>): nat {
    match converted case None => UINT_MAX case Some(bytes) => |bytes|
  }

  lemma CountWraps(converted: Option<seq<Byte>>, terminated: Option<seq<Byte>>)
    requires terminated == match converted case None => None case Some(bytes) => Some(bytes + [0])
    requires converted.Some? ==> |converted.value| < INT_MAX
    ensures ToUnsigned(Count(terminated) - 1) == Wrapped(converted)
  {
  }

  lemma MeasuredIsCount(units: seq<Unit>)
    ensures units != [] ==> ConversionResult(units, 0) == Count(Converted(units))
  {
  }

  lemma MeasuredLength(mem: seq<Unit>)
    requires 0 in mem && FitsInt(mem)
    ensures ToUnsigned(ConversionResult(Source(mem, -1), 0) - 1) == TargetLength(Text(mem, 0))
  {
    var units := Source(mem, -1);
    TwoPasses(mem);
    CountWraps(Converted(Text(mem, 0)), Converted(units));
    MeasuredIsCount(units);
  }

  method Utf8FromUtf16(utf16: Option<seq<Unit>>, maxSize: nat, available: nat) returns (r: Outcome)
    requires utf16.Some? ==> 0 in utf16.value && FitsInt(utf16.value)
    ensures r == if utf16.None? then Returned([]) else Utf8Result(Text(utf16.value, 0), maxSize, available)
  {
    if utf16.None? {
      return Returned([]);
    }
    var mem := utf16.value;
    MeasuredLength(mem);
    var none := new Byte[0];
    var measured := WideCharToMultiByte(mem, -1, none, 0);
    var targetLength := ToUnsigned(measured - 1);
    var inputLength := WcsLen(mem);
    assert Source(mem, inputLength) == Text(mem, 0);
    assert targetLength == TargetLength(Text(mem, 0));
    if targetLength == 0 || targetLength > maxSize {
      return Returned([]);
    }
    if targetLength > available {
      return BadAlloc;
    }
    var utf8 := new Byte[targetLength](i => 0);
    var converted := WideCharToMultiByte(mem, inputLength, utf8, ToInt(targetLength));
    if converted == 0 {
      return Returned([]);
    }
    assert utf8[..converted] == utf8[..];
    return Returned(utf8[..]);
  }

  /** For well-formed text with room enough, the result is valid UTF-8 for the same characters: they re-encode to it. */
  lemma Utf8SameText(text: seq<Unit>, maxSize: nat, available: nat)
    requires WellFormed16(text)
    requires forall b | Converted(text) == Some(b) :: |b| <= maxSize && |b| <= available
    ensures var r := Utf8Result(text, maxSize, available);
            && r.Returned? && Valid8(r.bytes) && Decode8(r.bytes) == Decode16(text)
            && Decode8(r.bytes).Some? && Encode16(Decode8(r.bytes).value) == text
            && (r.bytes == [] <==> text == [])
  {
    Decode16IffWellFormed(text);
    var cs := Decode16(text).value;
    assert Converted(text) == Some(Encode8(cs));
    Decode8Encode8(cs);
    Encode16Decode16(text);
    Decode8IffValid(Encode8(cs));
  }

  /**
   Well-formed text gives its bytes exactly when they are within max_size and memory, an exception exactly when
   they are within max_size only, and otherwise the empty string.
   */
  lemma WellFormedOutcomeIff(text: seq<Unit>, bytes: seq<Byte>, maxSize: nat, available: nat)
    requires Converted(text) == Some(bytes)
    ensures var r := Utf8Result(text, maxSize, available);
            && (r == BadAlloc <==> available < |bytes| <= maxSize)
            && (r == Returned(bytes) <==> |bytes| <= maxSize && |bytes| <= available)
            && (r == Returned([]) <==> |bytes| > maxSize || text == [])
  {
    var cs := Decode16(text).value;
    Encode16Decode16(text);
    if bytes == [] {
      EmptyEncoding8(cs);
    } else {
      assert text != [];
    }
  }

  lemma EmptyEncoding8(cs: seq<Scalar>)
    requires Encode8(cs) == []
    ensures cs == []
  {
  }

  /** Two different well-formed texts never convert to the same bytes. */
  lemma ConversionInjective(s: seq<Unit>, t: seq<Unit>)
    requires Converted(s).Some? && Converted(s) == Converted(t)
    ensures s == t
  {
    Decode8Encode8(Decode16(s).value);
    Decode8Encode8(Decode16(t).value);
    Encode16Decode16(s);
    Encode16Decode16(t);
  }

  /** The bytes of two texts sort as their characters do. */
  lemma ConversionOrderIff(s: seq<Unit>, t: seq<Unit>, x: seq<Byte>, y: seq<Byte>)
    requires Converted(s) == Some(x) && Converted(t) == Some(y)
    ensures LexLess(x, y) <==> LexLess(Decode16(s).value, Decode16(t).value)
  {
    Encode8OrderIff(Decode16(s).value, Decode16(t).value);
  }

  /** U+1F600, a surrogate pair, becomes its four UTF-8 bytes. */
  lemma GrinningFace(maxSize: nat, available: nat)
    requires maxSize >= 4 && available >= 4
    ensures Utf8Result([0xD83D, 0xDE00], maxSize, available) == Returned([0xF0, 0x9F, 0x98, 0x80])
  {
    var s: seq<Unit> := [0xD83D, 0xDE00];
    assert Head16(s) == 2 && s[2..] == [] && First16(s) == 0x1F600;
    var cs: seq<Scalar> := [0x1F600];
    assert Decode16(s[2..]) == Some([]) && cs + [] == cs;
    assert Decode16(s) == Some(cs);
    assert Octets(0x1F600) == [0xF0, 0x9F, 0x98, 0x80] && cs[1..] == [];
  }

  /** Ill-formed text gives the empty string exactly when the wrapped length is over max_size or can be allocated. */
  lemma IllFormedIsEmptyIff(text: seq<Unit>, maxSize: nat, available: nat)
    requires !WellFormed16(text)
    ensures Utf8Result(text, maxSize, available) == Returned([]) <==> maxSize < 0xFFFF_FFFF || 0xFFFF_FFFF <= available
  {
    Decode16IffWellFormed(text);
  }

  /** A lone surrogate where strings may be that long and memory is short: an exception instead of an empty string. */
  lemma LoneSurrogateThrows(maxSize: nat, available: nat)
    requires available < 0xFFFF_FFFF <= maxSize
    ensures !WellFormed16([0xD800]) && Utf8Result([0xD800], maxSize, available) == BadAlloc
  {
    var s: seq<Unit> := [0xD800];
    assert IsHigh(s[0]) && Head16(s) == 0;
    Decode16IffWellFormed(s);
  }

  /** The arguments after the program name, or the first exception. */
  datatype Arguments = Arguments(list: seq<seq<Byte>>) | ArgumentsBadAlloc

  function ArgumentResult(mem: seq<Unit>, maxSize: nat, available: nat): Outcome {
    Utf8Result(Text(mem, 0), maxSize, available)
  }

  method GetCommandLineArguments(argv: Option<seq<seq<Unit>>>, maxSize: nat, available: nat) returns (r: Arguments)
    requires argv.Some? ==> forall i | 0 < i < |argv.value| :: 0 in argv.value[i] && FitsInt(argv.value[i])
    ensures argv.None? ==> r == Arguments([])
    ensures argv.Some? && r.Arguments? ==> |r.list| == if argv.value == [] then 0 else |argv.value| - 1
    ensures argv.Some? && r.Arguments? ==>
              forall i | 0 < i < |argv.value| ::
                ArgumentResult(argv.value[i], maxSize, available) == Returned(r.list[i - 1])
    ensures r.ArgumentsBadAlloc? ==>
              && argv.Some?
              && exists i :: 0 < i < |argv.value| && ArgumentResult(argv.value[i], maxSize, available) == BadAlloc
  {
    if argv.None? {
      return Arguments([]);
    }
    var list := [];
    var i := 1;
    while i < |argv.value|
      invariant 1 <= i && |list| == i - 1
      invariant i <= |argv.value| || argv.value == []
      invariant argv.value == [] ==> list == []
      invariant forall j | 0 < j < i && j < |argv.value| ::
                  ArgumentResult(argv.value[j], maxSize, available) == Returned(list[j - 1])
    {
      var utf8 := Utf8FromUtf16(Some(argv.value[i]), maxSize, available);
      if utf8.BadAlloc? {
        assert ArgumentResult(argv.value[i], maxSize, available) == BadAlloc;
        return ArgumentsBadAlloc;
      }
      list := list + [utf8.bytes];
      i := i + 1;
    }
    return Arguments(list);
  }
}
