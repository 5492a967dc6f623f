/**
  The executable-write guard: the registered ranges, the pages they meet and the three-level filter
  over those pages (recomp_mod_loader.h, recomp_mod_loader.cpp).
 */
module WriteGuard {
  import opened GuestLayout
  import opened MachineTypes
  import opened MainMemory

  // ---------- the registered ranges ----------

  datatype ExecutableRange = ExecutableRange(start: Address, end: Address, name: string)

  predicate Intersects(address: nat, length: nat, r: ExecutableRange) {
    address < r.end && address + length > r.start
  }

  /** AddExecutableRangeLocked: empty ranges and repetitions are not recorded. */
  function Added(ranges: seq<ExecutableRange>, r: ExecutableRange): seq<ExecutableRange> {
    if r.end <= r.start || r in ranges then ranges else ranges + [r]
  }

  function AddedAll(ranges: seq<ExecutableRange>, more: seq<ExecutableRange>): seq<ExecutableRange>
    decreases |more|
  {
    if more == [] then ranges else AddedAll(Added(ranges, more[0]), more[1..])
  }

  /** The cached and the uncached view of a range that starts at an offset of one of the memories. */
  function ViewsOf(cached: nat, uncached: nat, size: nat, offset: nat, length: nat, name: string)
    : seq<ExecutableRange>
    requires cached + size < ADDRESSES && uncached + size < ADDRESSES
  {
    if offset + length > size then []
    else [ExecutableRange(cached + offset, cached + offset + length, name + " [cached]"),
          ExecutableRange(uncached + offset, uncached + offset + length, name + " [uncached]")]
  }

  function Mem1Views(offset: nat, r: ExecutableRange): seq<ExecutableRange>
    requires r.start <= r.end
  {
    ViewsOf(MEM1_CACHED, MEM1_UNCACHED, MEM1_SIZE, offset, r.end - r.start, r.name)
  }

  function Mem1Aliases(r: ExecutableRange): seq<ExecutableRange> {
    if r.end <= r.start then []
    else if r.start < MEM1_SIZE && r.end <= MEM1_SIZE then Mem1Views(r.start, r)
    else if r.start >= MEM1_CACHED && r.end <= MEM1_CACHED + MEM1_SIZE then Mem1Views(r.start - MEM1_CACHED, r)
    else if r.start >= MEM1_UNCACHED && r.end <= MEM1_UNCACHED + MEM1_SIZE then Mem1Views(r.start - MEM1_UNCACHED, r)
    else []
  }

  function Mem2Views(offset: nat, r: ExecutableRange): seq<ExecutableRange>
    requires r.start <= r.end
  {
    ViewsOf(MEM2_CACHED, MEM2_UNCACHED, MEM2_SIZE, offset, r.end - r.start, r.name)
  }

  function Mem2Aliases(r: ExecutableRange): seq<ExecutableRange> {
    if r.end <= r.start then []
    else if r.start >= MEM2_PHYSICAL && r.end <= MEM2_PHYSICAL + MEM2_SIZE then Mem2Views(r.start - MEM2_PHYSICAL, r)
    else if r.start >= MEM2_CACHED && r.end <= MEM2_CACHED + MEM2_SIZE then Mem2Views(r.start - MEM2_CACHED, r)
    else if r.start >= MEM2_UNCACHED && r.end <= MEM2_UNCACHED + MEM2_SIZE then Mem2Views(r.start - MEM2_UNCACHED, r)
    else []
  }

  /** What RegisterExecutableRange records for one range: the range as given, and its cached and uncached views. */
  function Recorded(r: ExecutableRange): seq<ExecutableRange> {
    [r] + Mem1Aliases(r) + Mem2Aliases(r)
  }

  function Registered(ranges: seq<ExecutableRange>, r: ExecutableRange): seq<ExecutableRange> {
    if r.end <= r.start then ranges else AddedAll(ranges, Recorded(r))
  }

  /** After a list of registrations, from none. */
  function RegisteredAll(requests: seq<ExecutableRange>): seq<ExecutableRange> {
    if requests == [] then []
    else Registered(RegisteredAll(requests[..|requests| - 1]), requests[|requests| - 1])
  }

  lemma {:induction false} AddedAllMembers(ranges: seq<ExecutableRange>, more: seq<ExecutableRange>, x: ExecutableRange)
    ensures x in AddedAll(ranges, more) <==> x in ranges || (x in more && x.start < x.end)
    decreases |more|
  {
    if more == [] {
    } else {
      AddedAllMembers(Added(ranges, more[0]), more[1..], x);
      assert more == [more[0]] + more[1..];
    }
  }

  lemma AddedTwo(ranges: seq<ExecutableRange>, a: ExecutableRange, b: ExecutableRange)
    ensures AddedAll(ranges, [a, b]) == Added(Added(ranges, a), b)
  {
    assert [a, b][1..] == [b] && [b][1..] == [];
    assert AddedAll(Added(ranges, a), [b]) == AddedAll(Added(Added(ranges, a), b), []);
  }

  lemma {:induction false} AddedInTurn(ranges: seq<ExecutableRange>, first: seq<ExecutableRange>,
                                       second: seq<ExecutableRange>)
    ensures AddedAll(AddedAll(ranges, first), second) == AddedAll(ranges, first + second)
    decreases |first|
  {
    if first == [] {
      assert first + second == second;
    } else {
      AddedInTurn(Added(ranges, first[0]), first[1..], second);
      assert (first + second)[1..] == first[1..] + second;
    }
  }

  /** What a registration of r puts on the list. */
  predicate Records(r: ExecutableRange, x: ExecutableRange) {
    r.start < r.end && x in Recorded(r) && x.start < x.end
  }

  lemma RegisteredOneMore(ranges: seq<ExecutableRange>, r: ExecutableRange, x: ExecutableRange)
    ensures x in Registered(ranges, r) <==> x in ranges || Records(r, x)
  {
    AddedAllMembers(ranges, Recorded(r), x);
  }

  ghost predicate RecordedFor(requests: seq<ExecutableRange>, x: ExecutableRange) {
    exists r :: r in requests && Records(r, x)
  }

  lemma RecordedOneMore(requests: seq<ExecutableRange>, r: ExecutableRange, x: ExecutableRange)
    ensures RecordedFor(requests + [r], x) <==> RecordedFor(requests, x) || Records(r, x)
  {
    if RecordedFor(requests + [r], x) {
      var q :| q in requests + [r] && Records(q, x);
      assert q in requests || q == r;
    }
    if RecordedFor(requests, x) {
      var q :| q in requests && Records(q, x);
      assert q in requests + [r];
    }
    if Records(r, x) {
      assert r in requests + [r];
    }
  }

  lemma {:induction false} RegisteredMembers(requests: seq<ExecutableRange>, x: ExecutableRange)
    ensures x in RegisteredAll(requests) <==> RecordedFor(requests, x)
  {
    if requests == [] {
    } else {
      var front, last := requests[..|requests| - 1], requests[|requests| - 1];
      assert requests == front + [last];
      RegisteredMembers(front, x);
      RegisteredOneMore(RegisteredAll(front), last, x);
      RecordedOneMore(front, last, x);
    }
  }

  ghost predicate AnyIntersects(ranges: seq<ExecutableRange>, address: nat, length: nat) {
    exists r :: r in ranges && Intersects(address, length, r)
  }

  lemma IntersectsOneMore(ranges: seq<ExecutableRange>, r: ExecutableRange, address: nat, length: nat)
    ensures AnyIntersects(ranges + [r], address, length) <==>
            AnyIntersects(ranges, address, length) || Intersects(address, length, r)
  {
    assert forall x :: x in ranges + [r] <==> x in ranges || x == r;
  }

  ghost predicate MeetsPage(ranges: seq<ExecutableRange>, page: nat) {
    AnyIntersects(ranges, page * SUBPAGE, SUBPAGE)
  }

  /** The marked pages are exactly those some registered range meets. */
  ghost predicate MarksOf(marks: seq<bool>, ranges: seq<ExecutableRange>) {
    && |marks| == GUARD_PAGES
    && forall page | 0 <= page < GUARD_PAGES :: marks[page] <==> MeetsPage(ranges, page)
  }

  /** A 1 MiB page that a range meets holds a marked 4 KiB page. */
  lemma MarkInside(marks: seq<bool>, ranges: seq<ExecutableRange>, coarse: nat)
    requires MarksOf(marks, ranges) && (forall r | r in ranges :: r.start < r.end)
    requires coarse < PAGES && AnyIntersects(ranges, coarse * PAGE, PAGE)
    ensures exists p :: coarse * SUBPAGES <= p < (coarse + 1) * SUBPAGES && marks[p]
  {
    var r :| r in ranges && Intersects(coarse * PAGE, PAGE, r);
    var p := if r.start < coarse * PAGE then coarse * SUBPAGES else r.start / SUBPAGE;
    assert Intersects(p * SUBPAGE, SUBPAGE, r);
    assert marks[p];
  }

  // ---------- the three levels ----------

  /** Some guard page that meets [address, address + length) is marked executable. */
  ghost predicate Guarded(marks: seq<bool>, address: nat, length: nat)
    requires |marks| == GUARD_PAGES
  {
    exists p :: 0 <= p < GUARD_PAGES && marks[p] && RangesOverlap(p * SUBPAGE, SUBPAGE, address, length)
  }

  /** A scalar inside one page entry that meets no marked page. */
  ghost predicate ScalarAccepted(table: seq<PageEntry>, marks: seq<bool>, address: Address, n: nat)
    requires |table| == PAGES && |marks| == GUARD_PAGES
  {
    InEntry(table, address, n) && !Guarded(marks, address, n)
  }

  /** The last byte of a range; the end is a 64-bit sum. */
  function LastByte(address: Address, length: Uint64): Uint64 {
    ((address + length) % TWO_64 - 1) % TWO_64
  }

  /** The last page of a range on each level, clamped to the address space. */
  function LastPage(address: Address, length: Uint64): nat {
    if LastByte(address, length) / SUBPAGE >= GUARD_PAGES then GUARD_PAGES - 1 else LastByte(address, length) / SUBPAGE
  }

  function LastMidPage(address: Address, length: Uint64): nat {
    if LastByte(address, length) / MID_PAGE >= MID_PAGES then MID_PAGES - 1 else LastByte(address, length) / MID_PAGE
  }

  function LastCoarsePage(address: Address, length: Uint64): nat {
    if LastByte(address, length) / PAGE >= PAGES then PAGES - 1 else LastByte(address, length) / PAGE
  }

  /** As long as the sum does not wrap, first..last are exactly the pages the range meets below 2^32. */
  lemma LastPageExact(address: Address, length: Uint64, p: nat)
    requires 0 < length && address + length <= TWO_64 && p < GUARD_PAGES
    ensures address / SUBPAGE <= p <= LastPage(address, length) <==>
            RangesOverlap(p * SUBPAGE, SUBPAGE, address, length)
  {
  }

  /** When the sum wraps, the last byte lies before the first: at most the first page is left. */
  lemma LastPageWrapped(address: Address, length: Uint64)
    requires address + length > TWO_64
    ensures LastPage(address, length) == (address + length - TWO_64 - 1) / SUBPAGE <= address / SUBPAGE
  {
    assert LastByte(address, length) == address + length - TWO_64 - 1;
  }

  /** So the pages asked decide whether the range is guarded, and a wrapped sum leaves only the first page. */
  lemma PagesDecide(marks: seq<bool>, address: Address, length: Uint64)
    requires |marks| == GUARD_PAGES && 0 < length
    ensures LastPage(address, length) < GUARD_PAGES
    ensures (exists p :: address / SUBPAGE <= p <= LastPage(address, length) && marks[p]) <==>
            if address + length <= TWO_64 then Guarded(marks, address, length)
            else marks[address / SUBPAGE] && (address + length - TWO_64 - 1) / SUBPAGE == address / SUBPAGE
  {
    if address + length <= TWO_64 {
      forall p | 0 <= p < GUARD_PAGES
        ensures address / SUBPAGE <= p <= LastPage(address, length) <==>
                RangesOverlap(p * SUBPAGE, SUBPAGE, address, length)
      {
        LastPageExact(address, length, p);
      }
    } else {
      LastPageWrapped(address, length);
    }
  }

  /** A page in range lies in a coarser page that is in range. */
  lemma PagesNest(address: Address, length: Uint64)
    requires 0 < length
    ensures LastPage(address, length) < GUARD_PAGES
    ensures LastMidPage(address, length) < MID_PAGES
    ensures LastCoarsePage(address, length) < PAGES
    ensures forall p | address / SUBPAGE <= p <= LastPage(address, length) ::
      && address / MID_PAGE <= p / 16 <= LastMidPage(address, length)
      && address / PAGE <= p / 256 <= LastCoarsePage(address, length)
  {
  }

  /** An access of up to eight bytes meets the guard page of its first byte and that of its last. */
  lemma ScalarPages(marks: seq<bool>, address: nat, length: nat)
    requires |marks| == GUARD_PAGES && 0 < length <= MAX_SCALAR && address + length <= ADDRESSES
    ensures Guarded(marks, address, length) <==> marks[address / SUBPAGE] || marks[(address + length - 1) / SUBPAGE]
  {
    var first, last := address / SUBPAGE, (address + length - 1) / SUBPAGE;
    assert RangesOverlap(first * SUBPAGE, SUBPAGE, address, length);
    assert RangesOverlap(last * SUBPAGE, SUBPAGE, address, length);
    assert forall p: nat | RangesOverlap(p * SUBPAGE, SUBPAGE, address, length) :: p == first || p == last;
  }

  /** A byte of the range is on a marked 4 KiB page. */
  ghost predicate ByteMarked(marks: seq<bool>, address: nat, length: nat)
    requires |marks| == GUARD_PAGES && address + length <= ADDRESSES
  {
    exists b :: address <= b < address + length && marks[b / 0x1000]
  }

  /** Meeting a marked page is having a byte on one. */
  lemma GuardedExactly(marks: seq<bool>, address: nat, length: nat)
    requires |marks| == GUARD_PAGES && 0 < length && address + length <= ADDRESSES
    ensures Guarded(marks, address, length) <==> ByteMarked(marks, address, length)
  {
    if Guarded(marks, address, length) {
      var p :| 0 <= p < GUARD_PAGES && marks[p] && RangesOverlap(p * SUBPAGE, SUBPAGE, address, length);
      var b := if address < p * 0x1000 then p * 0x1000 else address;
      assert marks[b / 0x1000] && b < address + length;
    }
    if b :| address <= b < address + length && marks[b / 0x1000] {
      assert RangesOverlap(b / 0x1000 * SUBPAGE, SUBPAGE, address, length);
    }
  }

  /** In terms of guest bytes: a scalar is accepted when all its bytes lie on one page, are mapped, and none is on a
      marked page. */
  lemma ScalarAcceptedExactly(regions: seq<Region>, table: seq<PageEntry>, marks: seq<bool>, address: Address, n: nat)
    requires LayoutOk(regions) && Aligned(regions) && TableOf(regions, table) && |marks| == GUARD_PAGES && 0 < n
    ensures ScalarAccepted(table, marks, address, n) <==>
              && address % 0x10_0000 + n <= 0x10_0000
              && (forall b | address <= b < address + n :: Mapped(regions, b))
              && !ByteMarked(marks, address, n)
  {
    InEntryExactly(regions, table, address, n);
    if address % 0x10_0000 + n <= 0x10_0000 {
      GuardedExactly(marks, address, n);
    }
  }

  /** FindExecutableRange, as far as whether there is one. */
  method FindExecutableRange(ranges: seq<ExecutableRange>, address: Address, length: Uint64) returns (found: bool)
    ensures found <==> AnyIntersects(ranges, address, length)
  {
    for i := 0 to |ranges|
      invariant forall k | 0 <= k < i :: !Intersects(address, length, ranges[k])
    {
      if Intersects(address, length, ranges[i]) { return true; }
    }
    return false;
  }

  /** The filter passes nothing by: a write that meets a registered range meets a marked page. */
  lemma FilterIsSound(marks: seq<bool>, ranges: seq<ExecutableRange>, address: Address, length: nat)
    requires MarksOf(marks, ranges) && (forall r | r in ranges :: r.start < r.end)
    requires 0 < length && AnyIntersects(ranges, address, length)
    ensures Guarded(marks, address, length)
  {
    var r :| r in ranges && Intersects(address, length, r);
    IntersectingIsGuarded(marks, ranges, r, address, length);
  }

  lemma IntersectingIsGuarded(marks: seq<bool>, ranges: seq<ExecutableRange>, r: ExecutableRange,
                              address: Address, length: nat)
    requires MarksOf(marks, ranges) && r in ranges && r.start < r.end
    requires 0 < length && Intersects(address, length, r)
    ensures Guarded(marks, address, length)
  {
    var common := if address < r.start then r.start else address;
    var page := common / SUBPAGE;
    assert Intersects(page * SUBPAGE, SUBPAGE, r);
    assert RangesOverlap(page * SUBPAGE, SUBPAGE, address, length);
  }

  method MarkPages(marks: array<bool>, first: nat, last: nat)
    requires first <= last < marks.Length
    modifies marks
    ensures forall p | 0 <= p < marks.Length :: marks[p] <==> old(marks[p]) || first <= p <= last
  {
    for page := first to last + 1
      invariant forall p | 0 <= p < marks.Length :: marks[p] <==> old(marks[p]) || first <= p < page
    {
      marks[page] := true;
    }
  }

  method AnyMark(marks: array<bool>, first: nat, last: nat) returns (hit: bool)
    requires last < marks.Length
    ensures hit <==> exists p :: first <= p <= last && marks[p]
  {
    var page := first;
    while page <= last
      invariant first <= page
      invariant forall p | first <= p < page && p <= last :: !marks[p]
    {
      if marks[page] { return true; }
      page := page + 1;
    }
    return false;
  }
}
