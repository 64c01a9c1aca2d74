/** High-resolution times of my_sys.h and timespec values of my_pthread.h. */
module Times {
  import opened Bits

  const HRTIME_RESOLUTION: nat := 1000000
  const NANOSECONDS: nat := 1000000000

  datatype Timespec = Timespec(sec: int, nsec: int)

  /** set_timespec_time_nsec. */
  method SetTimespecTimeNsec(nsec: int) returns (t: Timespec)
    ensures t.sec * 1_000_000_000 + t.nsec == Unsigned(nsec, 64) && 0 <= t.nsec < 1_000_000_000 && t.sec >= 0
    ensures t == Split(nsec)
  {
    var now := Unsigned(nsec, 64);
    t := Timespec(0, 0);
    t := t.(sec := Signed(now / NANOSECONDS, 64));
    t := t.(nsec := Unsigned(now % NANOSECONDS, 64));
    SplitFits(now);
  }

  function Split(nsec: int): Timespec {
    var now := Unsigned(nsec, 64);
    Timespec(now / NANOSECONDS, now % NANOSECONDS)
  }

  lemma SplitFits(now: nat)
    requires now < Pow2(64)
    ensures Signed(now / NANOSECONDS, 64) == now / NANOSECONDS
    ensures Unsigned(now % NANOSECONDS, 64) == now % NANOSECONDS
  {
    Pow2Values();
    assert Pow2(63) * 2 == Pow2(64);
  }

  function CmpTimespec(a: Timespec, b: Timespec): int {
    if a.sec > b.sec || (a.sec == b.sec && a.nsec > b.nsec) then 1
    else if a.sec < b.sec || (a.sec == b.sec && a.nsec < b.nsec) then -1
    else 0
  }

  function Sign(x: int): int {
    if x > 0 then 1 else if x < 0 then -1 else 0
  }

  /** Comparing two split counts is comparing the counts. */
  lemma CmpOfSplit(x: nat, y: nat)
    requires x < Pow2(64) && y < Pow2(64)
    ensures CmpTimespec(Split(x), Split(y)) == Sign(x - y)
    ensures Split(x).sec * 1_000_000_000 + Split(x).nsec == x && 0 <= Split(x).nsec < 1_000_000_000
  {
    ModUnique(x, Pow2(64), 0, x);
    ModUnique(y, Pow2(64), 0, y);
  }

  function MakeHrTime(time: int, part: nat): (val: nat) {
    Unsigned(Unsigned(time, 64) * HRTIME_RESOLUTION + part, 64)
  }

  function HrTimeToTime(val: nat): int {
    Signed(val / HRTIME_RESOLUTION, 64)
  }

  function HrTimeSecPart(val: nat): nat {
    val % HRTIME_RESOLUTION
  }

  /** The extractors undo make_hr_time exactly for non-negative times that fit with a part below a second. */
  lemma HrTimeRoundTripIff(time: int, part: nat)
    requires -(Pow2(63) as int) <= time < Pow2(63)
    ensures HrTimeToTime(MakeHrTime(time, part)) == time && HrTimeSecPart(MakeHrTime(time, part)) == part
       <==> time >= 0 && part < 1_000_000 && time * 1_000_000 + part < Pow2(64)
    ensures time >= 0 && time * 1_000_000 + part < Pow2(64) ==> MakeHrTime(time, part) == time * 1_000_000 + part
  {
    var val := MakeHrTime(time, part);
    Pow2Values();
    HrTimeFits(val);
    if time >= 0 && time * HRTIME_RESOLUTION + part < Pow2(64) {
      NoWrap(time, Pow2(64));
      NoWrap(time * HRTIME_RESOLUTION + part, Pow2(64));
    }
  }

  /** Seconds and microseconds recombine to the value. */
  lemma HrTimeFits(val: nat)
    requires val < Pow2(64)
    ensures HrTimeToTime(val) == val / HRTIME_RESOLUTION
    ensures HrTimeToTime(val) * 1_000_000 + HrTimeSecPart(val) == val && HrTimeSecPart(val) < 1_000_000
  {
    Pow2Values();
    NoWrap(val / HRTIME_RESOLUTION, Pow2(64));
  }
}
