/** Converting between host nanoseconds and the console's 60.75 MHz time base: 243 ticks in 4000 ns. The
    division is split so that no intermediate product leaves 64 bits. */
module Timebase {
  import opened MachineTypes

  const MAX_NANOSECONDS := 0x7FFF_FFFF_FFFF_FFFF

  /** 64-bit arithmetic as the machine does it. */
  function Wrap(n: nat): nat { n % TWO_64 }

  function NanosecondsToTicks(ns: nat): nat {
    Wrap(Wrap(ns / 4000 * 243) + Wrap(ns % 4000 * 243) / 4000)
  }

  const MAX_TICKS := NanosecondsToTicks(MAX_NANOSECONDS)

  /** No time and times beyond the host's range both give zero. */
  function TicksToDuration(ticks: nat): nat {
    if ticks == 0 || ticks > MAX_TICKS then 0
    else Wrap(Wrap(ticks / 243 * 4000) + Wrap(ticks % 243 * 4000) / 243)
  }

  lemma SplitTicks(ns: nat)
    ensures ns / 4000 * 243 + ns % 4000 * 243 / 4000 == ns * 243 / 4000
  {
    assert ns * 243 == 4000 * (ns / 4000 * 243) + ns % 4000 * 243;
  }

  lemma SplitNanoseconds(ticks: nat)
    ensures ticks / 243 * 4000 + ticks % 243 * 4000 / 243 == ticks * 4000 / 243
  {
    assert ticks * 4000 == 243 * (ticks / 243 * 4000) + ticks % 243 * 4000;
  }

  /** Both conversions are the exact floor on every value they accept: nothing wraps on the way. */
  lemma TicksAreExact(ns: nat)
    requires ns < TWO_64
    ensures NanosecondsToTicks(ns) == ns * 243 / 4000 < TWO_64
  {
    SplitTicks(ns);
    var whole, part := ns / 4000 * 243, ns % 4000 * 243;
    Unwrapped(part);
    Unwrapped(whole);
    Unwrapped(whole + part / 4000);
  }

  lemma MaxTicks()
    ensures MAX_TICKS == MAX_NANOSECONDS * 243 / 4000
  {
    TicksAreExact(MAX_NANOSECONDS);
  }

  lemma Unwrapped(n: nat)
    requires n < TWO_64
    ensures Wrap(n) == n
  {
  }

  lemma DurationFits(ticks: nat)
    requires ticks <= MAX_NANOSECONDS * 243 / 4000
    ensures ticks * 4000 / 243 <= MAX_NANOSECONDS
  {
    assert ticks * 4000 <= MAX_NANOSECONDS * 243;
  }

  lemma DurationIsExact(ticks: nat)
    ensures ticks <= 0x7FFF_FFFF_FFFF_FFFF * 243 / 4000 ==>
              TicksToDuration(ticks) == ticks * 4000 / 243 <= 0x7FFF_FFFF_FFFF_FFFF
    ensures ticks > 0x7FFF_FFFF_FFFF_FFFF * 243 / 4000 ==> TicksToDuration(ticks) == 0
  {
    MaxTicks();
    if ticks <= MAX_NANOSECONDS * 243 / 4000 {
      DurationFits(ticks);
      SplitNanoseconds(ticks);
      var whole, part := ticks / 243 * 4000, ticks % 243 * 4000;
      Unwrapped(part);
      Unwrapped(whole);
      Unwrapped(whole + part / 243);
    }
  }

  lemma ConversionsAreMonotone(a: nat, b: nat)
    requires a <= b < TWO_64
    ensures NanosecondsToTicks(a) <= NanosecondsToTicks(b)
    ensures b <= MAX_TICKS ==> TicksToDuration(a) <= TicksToDuration(b)
  {
    TicksAreExact(a);
    TicksAreExact(b);
    MaxTicks();
    DurationIsExact(a);
    DurationIsExact(b);
  }

  /** Ticks turned into nanoseconds and back lose at most one tick, and none exactly at whole multiples of
      243 ticks. */
  lemma RoundTripLosesOneTick(ticks: nat)
    requires ticks <= MAX_TICKS
    ensures var back := NanosecondsToTicks(TicksToDuration(ticks));
            back == if ticks % 243 == 0 then ticks else ticks - 1
  {
    MaxTicks();
    DurationIsExact(ticks);
    var ns := ticks * 4000 / 243;
    TicksAreExact(ns);
    assert ticks * 4000 == ns * 243 + ticks * 4000 % 243;
    NoCommonFactor(ticks);
  }

  /** 4000 and 243 have no common factor: 115 * 4000 is 1893 * 243 + 1. */
  lemma NoCommonFactor(ticks: nat)
    ensures ticks * 4000 % 243 == 0 <==> ticks % 243 == 0
  {
    var m := ticks * 4000 / 243;
    if ticks * 4000 % 243 == 0 {
      assert ticks * 4000 == 243 * m;
      assert ticks == 243 * (115 * m - 1893 * ticks);
    }
    assert ticks == 243 * (ticks / 243) + ticks % 243;
  }
}
