/** Write-generation counters for 64 KiB granules of guest memory. A cached digest of a range is trusted
    while the sum of the range's counters has not changed. The counters are 32 bits wide and wrap. */
module GxGuestWrite {
  import opened MachineTypes
  import opened MainMemory

  const TRACKED_SPAN := 0x1800_0000
  const GRANULE := 0x1_0000
  const GRANULES := 0x1800
  const QUARTER := 0x4000_0000
  const UNTRACKED := 0xFFFF_FFFF_FFFF_FFFF

  datatype Write = Write(address: Uint32, size: Uint32)

  predicate Tracked(address: Uint32, size: Uint32) { size != 0 && Canonical(address) + size <= TRACKED_SPAN }

  /** The byte belongs to the range, in canonical addresses. */
  predicate InRange(x: nat, address: Uint32, size: Uint32) { Canonical(address) <= x < Canonical(address) + size }

  /** Some guest byte of the range is the byte of main memory at this physical address, through whichever view. */
  ghost predicate Touches(address: Uint32, size: Uint32, x: nat) {
    exists a: Address :: address <= a < address + size && InMainMemory(a) && Canonical(a) == x
  }

  /** The range counted on from its start's physical address has every byte it touches but those before it. */
  lemma TouchedInRangeExactly(address: Uint32, size: Uint32, x: nat)
    requires Touches(address, size, x)
    ensures InRange(x, address, size) <==> Canonical(address) <= x
  {
  }

  /** The range starts in main memory and stays in one quarter of the address space, as a range inside one mapped
      region does if it starts in main memory. */
  predicate InOneView(address: Uint32, size: Uint32) {
    size > 0 && InMainMemory(address) && (address + size - 1) / QUARTER == address / QUARTER
  }

  /** Such a range touches no byte before its start, so all it touches are counted on from there. */
  lemma OneViewTouches(address: Uint32, size: Uint32, x: nat)
    requires InOneView(address, size) && Touches(address, size, x)
    ensures Canonical(address) <= x && InRange(x, address, size)
  {
    var a: Address :| address <= a < address + size && InMainMemory(a) && Canonical(a) == x;
    assert a / QUARTER == address / QUARTER;
  }

  /** Granules a notification bumps. */
  predicate Bumps(w: Write, g: nat) {
    && w.size != 0 && Canonical(w.address) < TRACKED_SPAN
    && Canonical(w.address) / GRANULE <= g <=
         ((if Canonical(w.address) + w.size < TRACKED_SPAN then Canonical(w.address) + w.size else TRACKED_SPAN) - 1)
           / GRANULE
  }

  /** A notification bumps a 64 KiB granule exactly when a byte of the write, counted on from its physical start,
      lies on the granule and below 0x1800_0000. */
  lemma BumpsExactly(w: Write, g: nat)
    ensures Bumps(w, g) <==> exists x: nat :: InRange(x, w.address, w.size) && OnGranule(x, g)
  {
    if Bumps(w, g) {
      var start := Canonical(w.address);
      var x := if start < g * 0x1_0000 then g * 0x1_0000 else start;
      assert InRange(x, w.address, w.size) && OnGranule(x, g);
    }
  }

  predicate OnGranule(x: nat, g: nat) {
    g * 0x1_0000 <= x < (g + 1) * 0x1_0000 && x < 0x1800_0000
  }

  function First(address: Uint32): nat { Canonical(address) / GRANULE }

  function Last(address: Uint32, size: Uint32): nat
    requires size != 0
  {
    (Canonical(address) + size - 1) / GRANULE
  }

  // ---- Counting notifications ----

  /** How often a log of notifications bumped one granule. */
  function Count(log: seq<Write>, g: nat): nat {
    if log == [] then 0
    else Count(log[..|log| - 1], g) + (if Bumps(log[|log| - 1], g) then 1 else 0)
  }

  function Counter(log: seq<Write>, g: nat): nat { Count(log, g) % TWO_32 }

  lemma CounterStep(log: seq<Write>, w: Write, g: nat)
    ensures Counter(log + [w], g) == if Bumps(w, g) then (Counter(log, g) + 1) % TWO_32 else Counter(log, g)
  {
    assert (log + [w])[..|log|] == log;
  }

  /** How often a log bumped the granules from `first` up to `end`. */
  function CountAll(log: seq<Write>, first: nat, end: nat): nat
    requires first <= end
    decreases end - first
  {
    if first == end then 0 else CountAll(log, first, end - 1) + Count(log, end - 1)
  }

  function Folded(log: seq<Write>, first: nat, end: nat): (sum: nat)
    requires first <= end
    ensures sum <= (end - first) * (TWO_32 - 1)
    decreases end - first
  {
    if first == end then 0
    else
      assert (end - first) * (TWO_32 - 1) == (end - 1 - first) * (TWO_32 - 1) + (TWO_32 - 1);
      Folded(log, first, end - 1) + Counter(log, end - 1)
  }

  /** What a consumer is told about a range after a log of notifications. */
  function Generation(log: seq<Write>, address: Uint32, size: Uint32): nat {
    if Tracked(address, size) then Folded(log, First(address), Last(address, size) + 1) else UNTRACKED
  }

  predicate CanSkipDigest(stored: nat, current: nat) { current != UNTRACKED && stored == current }

  // ---- The tracker ----

  class Tracker {
    var generations: array<nat>
    ghost var log: seq<Write>

    ghost predicate Valid()
      reads this, generations
    {
      && generations.Length == GRANULES
      && forall g :: 0 <= g < GRANULES ==> generations[g] == Counter(log, g)
    }

    constructor ()
      ensures Valid() && fresh(generations) && log == []
    {
      generations := new nat[GRANULES](_ => 0);
      log := [];
    }

    method GenerationForRange(address: Uint32, size: Uint32) returns (generation: nat)
      requires Valid()
      ensures generation == Generation(log, address, size)
      ensures generation != 0xFFFF_FFFF_FFFF_FFFF <==> 0 < size && Canonical(address) + size <= 0x1800_0000
    {
      if size == 0 {
        return UNTRACKED;
      }
      var start := Canonical(address);
      var end := start + size;
      if end <= start || end > TRACKED_SPAN {
        return UNTRACKED;
      }
      var firstGranule, lastGranule := start / GRANULE, (end - 1) / GRANULE;
      var folded := 0;
      for g := firstGranule to lastGranule + 1
        invariant folded == Folded(log, firstGranule, g)
      {
        folded := folded + generations[g];
      }
      FoldedIsSmall(log, firstGranule, lastGranule + 1);
      // The source lowers a sum that equals the sentinel; no sum of 0x1800 counters can.
      assert folded != UNTRACKED;
      return folded;
    }

    method NotifyWrite(address: Uint32, size: Uint32)
      requires Valid()
      modifies this`log, generations
      ensures Valid() && log == old(log) + [Write(address, size)]
    {
      ghost var w := Write(address, size);
      ghost var before := log;
      log := log + [w];
      if size == 0 {
        return;
      }
      var start := Canonical(address);
      var end := start + size;
      if end <= start || start >= TRACKED_SPAN {
        return;
      }
      var clampedEnd := if end < TRACKED_SPAN then end else TRACKED_SPAN;
      var firstGranule, lastGranule := start / GRANULE, (clampedEnd - 1) / GRANULE;
      forall g | 0 <= g < GRANULES
        ensures Counter(log, g) ==
                  if firstGranule <= g <= lastGranule then (Counter(before, g) + 1) % TWO_32 else Counter(before, g)
      {
        CounterStep(before, w, g);
      }
      for g := firstGranule to lastGranule + 1
        invariant forall k :: 0 <= k < GRANULES ==>
                    generations[k] == if firstGranule <= k < g then Counter(log, k) else Counter(before, k)
        modifies generations
      {
        generations[g] := (generations[g] + 1) % TWO_32;
      }
    }
  }

  lemma FoldedIsSmall(log: seq<Write>, first: nat, end: nat)
    requires first <= end <= GRANULES
    ensures Folded(log, first, end) < UNTRACKED
  {
    assert (end - first) * (TWO_32 - 1) <= GRANULES * (TWO_32 - 1);
  }

  // ---- Soundness ----

  lemma {:induction false} CountGrows(log: seq<Write>, more: seq<Write>, g: nat)
    ensures Count(log + more, g) == Count(log, g) + Count(more, g)
  {
    if more == [] {
      assert log + more == log;
    } else {
      var front := more[..|more| - 1];
      assert (log + more)[..|log + more| - 1] == log + front;
      CountGrows(log, front, g);
    }
  }

  /** The fold agrees with the true number of bumps, up to whole turns of a counter. */
  lemma {:induction false} FoldedCounts(log: seq<Write>, first: nat, end: nat) returns (turns: nat)
    requires first <= end
    ensures CountAll(log, first, end) == Folded(log, first, end) + turns * TWO_32
    decreases end - first
  {
    turns := 0;
    if first == end {
    } else {
      var before := FoldedCounts(log, first, end - 1);
      turns := before + Count(log, end - 1) / TWO_32;
    }
  }

  lemma {:induction false} CountAllGrows(log: seq<Write>, more: seq<Write>, first: nat, end: nat)
    requires first <= end
    ensures CountAll(log + more, first, end) == CountAll(log, first, end) + CountAll(more, first, end)
    decreases end - first
  {
    if first == end {
    } else {
      CountAllGrows(log, more, first, end - 1);
      CountGrows(log, more, end - 1);
    }
  }

  lemma {:induction false} NoBumpsSameFold(log: seq<Write>, more: seq<Write>, first: nat, end: nat)
    requires first <= end && CountAll(more, first, end) == 0
    ensures Folded(log + more, first, end) == Folded(log, first, end)
    decreases end - first
  {
    if first == end {
    } else {
      NoBumpsSameFold(log, more, first, end - 1);
      CountGrows(log, more, end - 1);
    }
  }

  /** A write that touches a byte at or after its own start's physical address bumps that byte's granule, through
      whichever views the write and the range see it. */
  lemma OverlapBumps(w: Write, address: Uint32, size: Uint32, x: nat)
    requires Tracked(address, size) && Touches(address, size, x) && Touches(w.address, w.size, x)
    requires Canonical(address) <= x && Canonical(w.address) <= x
    ensures First(address) <= x / GRANULE <= Last(address, size) && Bumps(w, x / GRANULE)
  {
    TouchedInRangeExactly(address, size, x);
    TouchedInRangeExactly(w.address, w.size, x);
  }

  lemma {:induction false} CountAtLeast(log: seq<Write>, first: nat, end: nat, n: nat, g: nat)
    requires first <= g < end && n < |log| && Bumps(log[n], g)
    ensures CountAll(log, first, end) >= 1
    decreases end - first
  {
    if g < end - 1 {
      CountAtLeast(log, first, end - 1, n, g);
    } else {
      CountPositive(log, n, g);
    }
  }

  lemma {:induction false} CountPositive(log: seq<Write>, n: nat, g: nat)
    requires n < |log| && Bumps(log[n], g)
    ensures Count(log, g) >= 1
  {
    if n == |log| - 1 {
    } else {
      CountPositive(log[..|log| - 1], n, g);
    }
  }

  /** The bumps that landed on a tracked range. */
  function Landed(log: seq<Write>, address: Uint32, size: Uint32): nat
    requires Tracked(address, size)
  {
    CountAll(log, First(address), Last(address, size) + 1)
  }

  /** A digest is skipped only if the number of bumps on the range since it was taken is a multiple of
      2^32; and, as long as there were fewer, exactly if there was none. */
  lemma SkipExactly(log: seq<Write>, more: seq<Write>, address: Uint32, size: Uint32)
    requires Tracked(address, size)
    ensures CanSkipDigest(Generation(log, address, size), Generation(log + more, address, size)) ==>
              Landed(more, address, size) % TWO_32 == 0
    ensures Landed(more, address, size) < TWO_32 ==>
              (CanSkipDigest(Generation(log, address, size), Generation(log + more, address, size)) <==>
               Landed(more, address, size) == 0)
  {
    var first, end := First(address), Last(address, size) + 1;
    var a := FoldedCounts(log, first, end);
    var b := FoldedCounts(log + more, first, end);
    CountAllGrows(log, more, first, end);
    FoldedIsSmall(log + more, first, end);
    if Landed(more, address, size) == 0 {
      NoBumpsSameFold(log, more, first, end);
    }
    if Folded(log, first, end) == Folded(log + more, first, end) {
      assert Landed(more, address, size) == (b - a) * TWO_32;
    }
  }

  /** The write and the range have a byte each on one granule. */
  ghost predicate MeetOnGranule(w: Write, address: Uint32, size: Uint32) {
    exists x: nat, y: nat, g: nat ::
      InRange(x, w.address, w.size) && InRange(y, address, size) && OnGranule(x, g) && OnGranule(y, g)
  }

  lemma {:induction false} NoneCounted(log: seq<Write>, g: nat)
    requires forall n :: 0 <= n < |log| ==> !Bumps(log[n], g)
    ensures Count(log, g) == 0
  {
    if log == [] {
    } else {
      NoneCounted(log[..|log| - 1], g);
    }
  }

  lemma {:induction false} NoneLanded(log: seq<Write>, address: Uint32, size: Uint32, first: nat, end: nat)
    requires Tracked(address, size) && First(address) <= first <= end <= Last(address, size) + 1
    requires forall n :: 0 <= n < |log| ==> !MeetOnGranule(log[n], address, size)
    ensures CountAll(log, first, end) == 0
    decreases end - first
  {
    if first == end {
    } else {
      var g, start := end - 1, Canonical(address);
      var y := if start < g * 0x1_0000 then g * 0x1_0000 else start;
      assert InRange(y, address, size) && OnGranule(y, g);
      forall n | 0 <= n < |log|
        ensures !Bumps(log[n], g)
      {
        BumpsExactly(log[n], g);
      }
      NoneCounted(log, g);
      NoneLanded(log, address, size, first, end - 1);
    }
  }

  /** A tracked range is skipped as long as no write notified since shares a granule with it. */
  lemma UntouchedIsSkipped(log: seq<Write>, more: seq<Write>, address: Uint32, size: Uint32)
    requires 0 < size && Canonical(address) + size <= 0x1800_0000
    requires forall n :: 0 <= n < |more| ==> !MeetOnGranule(more[n], address, size)
    ensures CanSkipDigest(Generation(log, address, size), Generation(log + more, address, size))
  {
    NoneLanded(more, address, size, First(address), Last(address, size) + 1);
    SkipExactly(log, more, address, size);
  }

  /** A range outside the tracked memory is never skipped. */
  lemma SkippedIsTracked(log: seq<Write>, stored: nat, address: Uint32, size: Uint32)
    requires CanSkipDigest(stored, Generation(log, address, size))
    ensures Tracked(address, size)
  {
  }

  /** The contract of the caches, byte by byte: if a digest is skipped and fewer than 2^32 bumps landed on its
      range, no write notified since then touched a byte of the range, unless the byte lies before the
      physical start of the range or of the write, which takes a range that runs from one view on into
      the next. */
  lemma SkipIsSound(log: seq<Write>, more: seq<Write>, address: Uint32, size: Uint32, n: nat, x: nat)
    requires CanSkipDigest(Generation(log, address, size), Generation(log + more, address, size))
    requires Tracked(address, size) ==> Landed(more, address, size) < TWO_32
    requires n < |more| && Touches(address, size, x) && Touches(more[n].address, more[n].size, x)
    ensures x < Canonical(address) || x < Canonical(more[n].address)
  {
    SkippedIsTracked(log + more, Generation(log, address, size), address, size);
    SkipExactly(log, more, address, size);
    if Canonical(address) <= x && Canonical(more[n].address) <= x {
      OverlapBumps(more[n], address, size, x);
      CountAtLeast(more, First(address), Last(address, size) + 1, n, x / GRANULE);
    }
  }

  /** So for ranges and writes inside one view each a skip excludes every common byte. */
  lemma SkipMeansUntouched(log: seq<Write>, more: seq<Write>, address: Uint32, size: Uint32, n: nat, x: nat)
    requires CanSkipDigest(Generation(log, address, size), Generation(log + more, address, size))
    requires Tracked(address, size) ==> Landed(more, address, size) < TWO_32
    requires n < |more| && InOneView(address, size) && InOneView(more[n].address, more[n].size)
    ensures !(Touches(address, size, x) && Touches(more[n].address, more[n].size, x))
  {
    if Touches(address, size, x) && Touches(more[n].address, more[n].size, x) {
      OneViewTouches(address, size, x);
      OneViewTouches(more[n].address, more[n].size, x);
      SkipIsSound(log, more, address, size, n, x);
      assert false;
    }
  }

  /** A write that runs into main memory from below is not seen: two bytes at 0x7FFFFFFF write the first byte of
      memory, and a range there is skipped. */
  lemma StraddlingWriteMissed()
    ensures var w := Write(0x7FFF_FFFF, 2);
            && Touches(w.address, w.size, 0) && Touches(0, 32, 0)
            && CanSkipDigest(Generation([], 0, 32), Generation([] + [w], 0, 32))
            && !InOneView(w.address, w.size)
  {
    var w := Write(0x7FFF_FFFF, 2);
    assert InMainMemory(0x8000_0000) && Canonical(0x8000_0000) == 0;
    assert InMainMemory(0) && Canonical(0) == 0;
    NoBumpsSameFold([], [w], 0, 1) by {
      assert Count([w], 0) == Count([w][..0], 0);
      assert CountAll([w], 0, 1) == CountAll([w], 0, 0) + Count([w], 0);
    }
  }

  function Repeated(w: Write, times: nat): seq<Write> { seq(times, _ => w) }

  lemma {:induction false} RepeatedCounts(w: Write, times: nat, g: nat)
    requires Bumps(w, g)
    ensures Count(Repeated(w, times), g) == times
  {
    if times == 0 {
    } else {
      RepeatedCounts(w, times - 1, g);
      assert Repeated(w, times)[..times - 1] == Repeated(w, times - 1);
    }
  }

  /** The counters do come back: after exactly 2^32 writes of its own first byte, a range in one granule has
      the generation it started with. */
  lemma WrappedCounterSkips()
    ensures var w := Write(0x8000_0000, 1);
            CanSkipDigest(Generation([], 0, 32), Generation([] + Repeated(w, TWO_32), 0, 32)) &&
            Touches(w.address, w.size, 0) && Touches(0, 32, 0)
  {
    var w := Write(0x8000_0000, 1);
    assert InMainMemory(0x8000_0000) && Canonical(0x8000_0000) == 0;
    assert InMainMemory(0) && Canonical(0) == 0;
    RepeatedCounts(w, TWO_32, 0);
    assert [] + Repeated(w, TWO_32) == Repeated(w, TWO_32);
    assert Folded(Repeated(w, TWO_32), 0, 1) == Folded(Repeated(w, TWO_32), 0, 0) + Counter(Repeated(w, TWO_32), 0);
    assert Folded([], 0, 1) == Folded([], 0, 0) + Counter([], 0);
  }
}
