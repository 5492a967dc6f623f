/** Deadlines of presentation groups. A group of slots is spread over one display interval from its anchor;
    a group that finished encoding late slides forward by whole intervals, and a cursor keeps two groups
    from sharing an anchor. Times are nanoseconds of one steady clock; 0 means "no deadline". */
module PresentationPacing {
  import opened Arithmetic
  import opened MachineTypes

  const NATIVE_OFFSET := 6_500_000

  datatype Frame = Frame(base: nat, interval: nat, interpolated: nat, active: bool)

  /** A group on the schedule: its slots have deadlines on the display's grid. */
  predicate Scheduled(f: Frame) { f.active && f.interval != 0 && f.base != 0 }

  function SlotOffset(f: Frame, slot: nat): nat { f.interval * slot / (f.interpolated + 1) }

  function SlotDeadline(f: Frame, slot: nat): int {
    if f.base == 0 || f.interval == 0 then 0
    else if !f.active then f.base - f.interval + NATIVE_OFFSET
    else f.base + SlotOffset(f, slot)
  }

  // ---- Division by the interval ----

  lemma QuotientsOrdered(a: nat, b: nat, n: nat)
    requires n > 0 && a <= b
    ensures a / n <= b / n
  {
    DivisionBounds(a, n);
    DivisionBounds(b, n);
    Ordered(b / n + 1, a / n, n);
  }

  lemma QuotientBelow(a: nat, n: nat, m: nat)
    requires n > 0 && a < m * n
    ensures a / n < m
  {
    DivisionBounds(a, n);
    Ordered(m, a / n, n);
  }

  /** Every slot lies within one interval of the group's anchor, in slot order. */
  lemma OffsetsWithinInterval(f: Frame, i: nat, j: nat)
    requires f.interval > 0 && i <= j <= f.interpolated
    ensures SlotOffset(f, i) <= SlotOffset(f, j) < f.interval && SlotOffset(f, 0) == 0
  {
    var n := f.interpolated + 1;
    Ordered(i, j, f.interval);
    QuotientsOrdered(f.interval * i, f.interval * j, n);
    Ordered(j + 1, n, f.interval);
    assert (j + 1) * f.interval == f.interval * j + f.interval;
    QuotientBelow(f.interval * j, n, f.interval);
    QuotientIs(f.interval * 0, n, 0);
  }

  /** The slots are spread evenly: slot k of n stands at k n-ths of the interval, rounded down. */
  lemma SlotsAreEven(f: Frame, slot: nat)
    ensures (f.interpolated + 1) * SlotOffset(f, slot) <= f.interval * slot
    ensures f.interval * slot < (f.interpolated + 1) * (SlotOffset(f, slot) + 1)
  {
    DivisionBounds(f.interval * slot, f.interpolated + 1);
  }

  // ---- The anchor of a group ----

  /** The first grid point after the encode finished, if the group is late. */
  function Caught(base: nat, interval: nat, now: int): int
    requires interval > 0
  {
    if now > base then base + ((now - base) / interval + 1) * interval else base
  }

  /** A catching-up group lands after the present moment, by at most one interval. */
  lemma CaughtIsSoonest(base: nat, interval: nat, now: int)
    requires interval > 0
    ensures Caught(base, interval, now) >= now && Caught(base, interval, now) >= base
    ensures now > base ==> now < Caught(base, interval, now) <= now + interval
  {
    if now > base {
      DivisionBounds(now - base, interval);
    }
  }

  /** The anchor with the cursor of the previous group; 0 means there was none. */
  function Anchor(last: int, base: nat, interval: nat, now: int): int
    requires interval > 0
  {
    var caught := Caught(base, interval, now);
    if last != 0 && caught <= last then last + interval else caught
  }

  /** What the pacing promises of one group, whatever came before: it is never in the past, never early,
      and after the previous group. It leaves that group a whole interval exactly when its own caught-up
      time is not strictly inside the previous group's interval. */
  lemma AnchorAfter(last: int, base: nat, interval: nat, now: int)
    requires interval > 0 && last >= 0
    ensures Anchor(last, base, interval, now) >= now && Anchor(last, base, interval, now) >= base
    ensures last != 0 ==> Anchor(last, base, interval, now) > last
    ensures last != 0 ==>
              (Anchor(last, base, interval, now) >= last + interval <==>
               !(last < Caught(base, interval, now) < last + interval))
  {
    CaughtIsSoonest(base, interval, now);
  }

  /** A slot of the previous group is due before this group's first one exactly unless this group's own
      caught-up time falls after the previous anchor and no later than that slot. */
  lemma SlotsStayInOrderExactly(last: int, base: nat, now: int, f: Frame, slot: nat)
    requires last > 0 && f.interval > 0 && slot <= f.interpolated
    ensures var due := last + SlotOffset(f, slot);
            due < Anchor(last, base, f.interval, now) <==> !(last < Caught(base, f.interval, now) <= due)
  {
    OffsetsWithinInterval(f, slot, slot);
    CaughtIsSoonest(base, f.interval, now);
  }

  /** So two groups overlap exactly when the later one's caught-up time falls among the earlier one's slots. */
  lemma GroupsOverlapExactly(last: int, base: nat, now: int, f: Frame)
    requires last > 0 && f.interval > 0
    ensures (forall slot: nat :: slot <= f.interpolated ==>
               last + SlotOffset(f, slot) < Anchor(last, base, f.interval, now)) <==>
            !(last < Caught(base, f.interval, now) <= last + SlotOffset(f, f.interpolated))
  {
    SlotsStayInOrderExactly(last, base, now, f, f.interpolated);
    forall slot: nat | slot <= f.interpolated
      ensures SlotOffset(f, slot) <= SlotOffset(f, f.interpolated)
    {
      OffsetsWithinInterval(f, slot, f.interpolated);
    }
  }

  /** A time on the grid of another one. */
  ghost predicate OnGrid(t: int, origin: int, interval: nat) { exists k: int :: t == origin + k * interval }

  lemma GridStep(a: int, b: int, origin: int, interval: nat)
    requires interval > 0 && OnGrid(a, origin, interval) && OnGrid(b, origin, interval) && a < b
    ensures a + interval <= b
  {
    var i :| a == origin + i * interval;
    var j :| b == origin + j * interval;
    if j <= i {
      Ordered(j, i, interval);
    } else {
      Ordered(i + 1, j, interval);
    }
  }

  /** On one grid the anchor stays on it, and is at least one interval after the previous one. */
  lemma AnchorOnGrid(last: int, base: nat, interval: nat, now: int, origin: int)
    requires interval > 0 && last >= 0
    requires OnGrid(base, origin, interval) && (last != 0 ==> OnGrid(last, origin, interval))
    ensures OnGrid(Anchor(last, base, interval, now), origin, interval)
    ensures last != 0 ==> Anchor(last, base, interval, now) >= last + interval
  {
    AnchorAfter(last, base, interval, now);
    var caught := Caught(base, interval, now);
    var k :| base == origin + k * interval;
    if now > base {
      var n := (now - base) / interval + 1;
      assert caught == origin + (k + n) * interval;
    }
    assert OnGrid(caught, origin, interval);
    if last != 0 {
      var m :| last == origin + m * interval;
      assert last + interval == origin + (m + 1) * interval;
      if last < caught {
        GridStep(last, caught, origin, interval);
      }
    }
  }

  /** Where a group may be anchored by itself: at its base unless that has passed, or at a later point of
      the base's grid that is still to come. */
  ghost predicate Allowed(base: nat, interval: nat, now: int, t: int) {
    (t == base && now <= base) || (exists k: nat :: ComesAfter(base, interval, k, now, t))
  }

  /** The k-th point of the grid after its origin, still to come. */
  predicate ComesAfter(base: nat, interval: nat, k: nat, now: int, t: int) {
    k > 0 && t == base + k * interval && t > now
  }

  lemma AllowedIsOnGrid(base: nat, interval: nat, now: int, t: int)
    requires Allowed(base, interval, now, t)
    ensures OnGrid(t, base, interval) && t >= base
  {
    if t == base {
      assert t == base + 0 * interval;
    } else {
      var k: nat :| ComesAfter(base, interval, k, now, t);
    }
  }

  lemma CaughtIsAllowed(base: nat, interval: nat, now: int)
    requires interval > 0
    ensures Allowed(base, interval, now, Caught(base, interval, now))
  {
    CaughtIsSoonest(base, interval, now);
    if now > base {
      var behind: nat := now - base;
      var k := behind / interval + 1;
      assert Caught(base, interval, now) == base + k * interval;
      assert ComesAfter(base, interval, k, now, Caught(base, interval, now));
    }
  }

  lemma CaughtIsLeast(base: nat, interval: nat, now: int, t: int)
    requires interval > 0 && Allowed(base, interval, now, t)
    ensures Caught(base, interval, now) <= t
  {
    AllowedIsOnGrid(base, interval, now, t);
    if now > base {
      var behind := (now - base) / interval;
      var k: nat :| ComesAfter(base, interval, k, now, t);
      DivisionBounds(now - base, interval);
      if k <= behind {
        Ordered(k, behind, interval);
      } else {
        Ordered(behind + 1, k, interval);
      }
    }
  }

  /** The anchor is the soonest allowed one, or one interval after a previous group that it would not
      follow otherwise. On one grid it is the soonest allowed one after the previous anchor. */
  lemma AnchorIsSoonest(last: int, base: nat, interval: nat, now: int, t: int)
    requires interval > 0 && last >= 0 && Allowed(base, interval, now, t)
    ensures Anchor(last, base, interval, now) <= t ||
            (last != 0 && Anchor(last, base, interval, now) == last + interval)
    ensures (last != 0 ==> last < t && OnGrid(last, base, interval)) ==> Anchor(last, base, interval, now) <= t
    ensures (last != 0 ==> OnGrid(last, base, interval)) ==>
              Allowed(base, interval, now, Anchor(last, base, interval, now))
  {
    CaughtIsAllowed(base, interval, now);
    CaughtIsLeast(base, interval, now, t);
    if last != 0 && OnGrid(last, base, interval) {
      AllowedIsOnGrid(base, interval, now, t);
      if last < t {
        GridStep(last, t, base, interval);
      }
      if Caught(base, interval, now) <= last {
        var k :| last == base + k * interval;
        assert last + interval == base + (k + 1) * interval;
        if k < 0 {
          Ordered(k, 0, interval);
        }
        CaughtIsSoonest(base, interval, now);
        assert ComesAfter(base, interval, k + 1, now, last + interval);
      }
    }
  }

  // ---- One group ----

  class Pacer {
    var lastGroupAnchor: int

    constructor ()
      ensures lastGroupAnchor == 0
    {
      lastGroupAnchor := 0;
    }

    /** Stamps the slots of one group and slides them when the encode finished at `now`. */
    method Pace(f: Frame, now: int) returns (presentAt: array<int>, slidPeriods: array<int>)
      requires lastGroupAnchor >= 0
      modifies this
      ensures fresh(presentAt) && fresh(slidPeriods)
      ensures presentAt.Length == slidPeriods.Length == f.interpolated + 1
      ensures !Scheduled(f) ==> lastGroupAnchor == 0
      ensures !Scheduled(f) ==> forall k :: 0 <= k <= f.interpolated ==> presentAt[k] == SlotDeadline(f, k)
      ensures f.active && !Scheduled(f) ==> forall k :: 0 <= k <= f.interpolated ==> presentAt[k] == 0
      ensures !f.active && f.base != 0 && f.interval != 0 ==>
                forall k :: 0 <= k <= f.interpolated ==> presentAt[k] == f.base - f.interval + 6_500_000
      ensures !Scheduled(f) ==> forall k :: 0 <= k <= f.interpolated ==> slidPeriods[k] == 0
      ensures Scheduled(f) ==> lastGroupAnchor == Anchor(old(lastGroupAnchor), f.base, f.interval, now) > 0
      ensures Scheduled(f) ==>
                forall k :: 0 <= k <= f.interpolated ==> presentAt[k] == lastGroupAnchor + SlotOffset(f, k)
      ensures Scheduled(f) ==>
                forall k :: 0 <= k <= f.interpolated ==>
                  slidPeriods[k] == Periods(lastGroupAnchor - f.base, f.interval) % TWO_32
    {
      presentAt := new int[f.interpolated + 1](k requires k >= 0 => SlotDeadline(f, k));
      slidPeriods := new int[f.interpolated + 1](_ => 0);
      assert SlotOffset(f, 0) == 0;
      if f.active && f.interval != 0 && presentAt[0] != 0 {
        var interval := f.interval;
        AnchorAfter(lastGroupAnchor, f.base, interval, now);
        var anchor := presentAt[0];
        if now > anchor {
          var behind := now - anchor;
          var periods := behind / interval + 1;
          anchor := anchor + periods * interval;
        }
        if lastGroupAnchor != 0 && anchor <= lastGroupAnchor {
          anchor := lastGroupAnchor + interval;
        }
        var shift := anchor - presentAt[0];
        if shift > 0 {
          var slid := (shift + interval - 1) / interval % TWO_32;
          for k := 0 to presentAt.Length
            invariant forall i :: 0 <= i < k ==> presentAt[i] == SlotDeadline(f, i) + shift && slidPeriods[i] == slid
            invariant forall i :: k <= i < presentAt.Length ==> presentAt[i] == SlotDeadline(f, i)
            modifies presentAt, slidPeriods
          {
            presentAt[k] := presentAt[k] + shift;
            slidPeriods[k] := slid;
          }
        }
        lastGroupAnchor := anchor;
      } else {
        lastGroupAnchor := 0;
      }
    }
  }

  /** Whole or started intervals in a shift. */
  function Periods(shift: int, interval: nat): nat
    requires interval > 0
  {
    if shift <= 0 then 0 else (shift + interval - 1) / interval
  }

  /** On the grid, the reported periods are exactly the intervals the group moved. */
  lemma ShiftIsWholePeriods(shift: int, interval: nat, count: nat)
    requires interval > 0 && shift == count * interval
    ensures Periods(shift, interval) == count
    ensures count < TWO_32 ==> Periods(shift, interval) % TWO_32 * interval == shift
  {
    if count > 0 {
      Ordered(1, count, interval);
      QuotientIs(shift + interval - 1, interval, count);
    }
  }

  // ---- Whole runs ----

  /** One scheduled group of a run: where its schedule puts it and when its encode finished. */
  datatype Group = Group(base: nat, finished: int)

  /** The anchors of a run of scheduled groups with one interval, after a cursor value. */
  function Anchors(groups: seq<Group>, interval: nat, last: int): (anchors: seq<int>)
    requires interval > 0
    ensures |anchors| == |groups|
  {
    if groups == [] then []
    else
      var anchor := Anchor(last, groups[0].base, interval, groups[0].finished);
      [anchor] + Anchors(groups[1..], interval, anchor)
  }

  ghost predicate OneGrid(groups: seq<Group>, interval: nat, origin: int) {
    forall n :: 0 <= n < |groups| ==> groups[n].base > 0 && OnGrid(groups[n].base, origin, interval)
  }

  /** One group of a run: everything the next one may rely on. */
  lemma NextAnchor(last: int, group: Group, interval: nat, origin: int)
    requires interval > 0 && last >= 0 && group.base > 0 && OnGrid(group.base, origin, interval)
    requires last != 0 ==> OnGrid(last, origin, interval)
    ensures var anchor := Anchor(last, group.base, interval, group.finished);
            && anchor > 0 && anchor >= group.finished && anchor >= group.base
            && OnGrid(anchor, origin, interval)
            && (last != 0 ==> anchor >= last + interval)
  {
    AnchorAfter(last, group.base, interval, group.finished);
    AnchorOnGrid(last, group.base, interval, group.finished, origin);
  }

  lemma {:induction false} AnchorsAfter(groups: seq<Group>, interval: nat, last: int, origin: int, n: nat)
    requires interval > 0 && last >= 0 && OneGrid(groups, interval, origin) && n < |groups|
    requires last != 0 ==> OnGrid(last, origin, interval)
    ensures var anchors := Anchors(groups, interval, last);
            && anchors[n] >= groups[n].finished && anchors[n] >= groups[n].base
            && OnGrid(anchors[n], origin, interval)
    ensures last != 0 ==> Anchors(groups, interval, last)[n] >= last + (n + 1) * interval
    decreases n
  {
    var anchor := Anchor(last, groups[0].base, interval, groups[0].finished);
    NextAnchor(last, groups[0], interval, origin);
    if n == 0 {
    } else {
      AnchorsAfter(groups[1..], interval, anchor, origin, n - 1);
      OneMore(n, interval);
    }
  }

  lemma OneMore(n: nat, interval: nat)
    ensures (n + 1) * interval == n * interval + interval
  {
  }

  /** Over a whole run: anchors are never before the encode's end, and later groups are at least one
      interval per group apart. */
  lemma {:induction false} AnchorsGrow(groups: seq<Group>, interval: nat, last: int, origin: int, i: nat, j: nat)
    requires interval > 0 && last >= 0 && OneGrid(groups, interval, origin) && i < j < |groups|
    requires last != 0 ==> OnGrid(last, origin, interval)
    ensures var anchors := Anchors(groups, interval, last);
            anchors[j] >= anchors[i] + (j - i) * interval
    decreases i
  {
    var anchor := Anchor(last, groups[0].base, interval, groups[0].finished);
    NextAnchor(last, groups[0], interval, origin);
    if i == 0 {
      AnchorsAfter(groups[1..], interval, anchor, origin, j - 1);
    } else {
      AnchorsGrow(groups[1..], interval, anchor, origin, i - 1, j - 1);
    }
  }

  /** Every slot of a group precedes the first slot of every later group. */
  lemma SlotsPrecedeLaterGroups(groups: seq<Group>, interval: nat, last: int, origin: int, i: nat, j: nat,
                                f: Frame, slot: nat)
    requires interval > 0 && last >= 0 && OneGrid(groups, interval, origin) && i < j < |groups|
    requires last != 0 ==> OnGrid(last, origin, interval)
    requires f.interval == interval && slot <= f.interpolated
    ensures var anchors := Anchors(groups, interval, last);
            anchors[i] + SlotOffset(f, slot) < anchors[j]
  {
    AnchorsGrow(groups, interval, last, origin, i, j);
    OffsetsWithinInterval(f, slot, slot);
    Ordered(1, j - i, interval);
  }

  /** On one grid each group of a run gets the soonest anchor that is allowed for it and after the
      previous group's. */
  lemma {:induction false} AnchorsAreSoonest(groups: seq<Group>, interval: nat, last: int, origin: int, n: nat, t: int)
    requires interval > 0 && last >= 0 && OneGrid(groups, interval, origin) && n < |groups|
    requires last != 0 ==> OnGrid(last, origin, interval)
    requires Allowed(groups[n].base, interval, groups[n].finished, t)
    requires n > 0 ==> t > Anchors(groups, interval, last)[n - 1]
    requires n == 0 && last != 0 ==> t > last
    ensures Anchors(groups, interval, last)[n] <= t
    decreases n
  {
    NextAnchor(last, groups[0], interval, origin);
    if n == 0 {
      if last != 0 {
        SameGrid(last, groups[0].base, origin, interval);
      }
      AnchorIsSoonest(last, groups[0].base, interval, groups[0].finished, t);
    } else {
      var anchor := Anchor(last, groups[0].base, interval, groups[0].finished);
      AnchorsAreSoonest(groups[1..], interval, anchor, origin, n - 1, t);
    }
  }

  lemma SameGrid(a: int, b: int, origin: int, interval: nat)
    requires OnGrid(a, origin, interval) && OnGrid(b, origin, interval)
    ensures OnGrid(a, b, interval)
  {
    var i :| a == origin + i * interval;
    var j :| b == origin + j * interval;
    assert a == b + (i - j) * interval;
  }

  lemma FactorsApart(a: int, b: int, c: nat)
    requires c > 0 && b * c <= a * c
    ensures b <= a && a * c - b * c == (a - b) * c
  {
    Ordered(a + 1, b, c);
    assert (a + 1) * c == a * c + c;
  }

  /** Every shift of a run is a whole number of intervals. The number reported for it is 32 bits wide: it is
      that number up to 2^32, and not beyond. */
  lemma ShiftsAreWhole(groups: seq<Group>, interval: nat, last: int, origin: int, n: nat) returns (periods: nat)
    requires interval > 0 && last >= 0 && OneGrid(groups, interval, origin) && n < |groups|
    requires last != 0 ==> OnGrid(last, origin, interval)
    ensures Anchors(groups, interval, last)[n] == groups[n].base + periods * interval
    ensures Periods(Anchors(groups, interval, last)[n] - groups[n].base, interval) == periods
    ensures Periods(Anchors(groups, interval, last)[n] - groups[n].base, interval) % TWO_32 == periods <==>
              periods < TWO_32
  {
    AnchorsAfter(groups, interval, last, origin, n);
    var anchor, base := Anchors(groups, interval, last)[n], groups[n].base;
    var a :| anchor == origin + a * interval;
    var b :| base == origin + b * interval;
    FactorsApart(a, b, interval);
    periods := a - b;
    ShiftIsWholePeriods(anchor - base, interval, periods);
  }

  /** Off the grid two groups can be closer than an interval, and their slots then overlap: with an interval
      of 10, bases 100 and 105, and two slots each, the first group's second slot is due together with
      the second group's first. */
  lemma OffGridGroupsOverlap()
    ensures Anchors([Group(100, 0), Group(105, 0)], 10, 0) == [100, 105]
    ensures 100 + SlotOffset(Frame(100, 10, 1, true), 1) == 105
  {
    var groups := [Group(100, 0), Group(105, 0)];
    assert groups[1..] == [Group(105, 0)] && groups[1..][1..] == [];
  }
}
