/**
  The executable-write guard against the three views of main memory (memory.cpp, recomp_mod_loader.cpp).
  Marks belong to guest addresses, bytes to host storage: a guarded byte is safe only if every view
  of it is marked.
 */
module ExecutableViews {
  import opened ByteOrder
  import opened GuestLayout
  import opened GuestMemory
  import opened MachineTypes
  import opened MainMemory
  import opened WriteGuard

  // ---------- exposure, on any layout ----------

  /** An accepted scalar write of the value at the address changes the byte behind b. */
  ghost predicate WriteChanges(host: map<nat, Byte>, regions: seq<Region>, table: seq<PageEntry>, marks: seq<bool>,
                               address: Address, n: nat, value: nat, b: Address)
    requires TableOf(regions, table) && |marks| == GUARD_PAGES
    requires Mapped(regions, b) && HostOf(regions, b) in host
  {
    && n in {1, 2, 4, 8} && value < Span(n) && ScalarAccepted(table, marks, address, n) && Mapped(regions, address)
    && Stored(host, HostOf(regions, address), BigEndianBytes(n, value))[HostOf(regions, b)] != host[HostOf(regions, b)]
  }

  /** The byte behind b can also be reached at a, through the page table, on an unmarked page. */
  ghost predicate OpenAlias(regions: seq<Region>, table: seq<PageEntry>, marks: seq<bool>, b: Address, a: Address)
    requires TableOf(regions, table) && |marks| == GUARD_PAGES && Mapped(regions, b)
  {
    && InEntry(table, a, 1) && Mapped(regions, a) && HostOf(regions, a) == HostOf(regions, b)
    && !marks[a / SUBPAGE]
  }

  lemma ChangeNeedsOpenAlias(host: map<nat, Byte>, regions: seq<Region>, table: seq<PageEntry>, marks: seq<bool>,
                             address: Address, n: nat, value: nat, b: Address) returns (a: Address)
    requires LayoutOk(regions) && TableOf(regions, table) && |marks| == GUARD_PAGES
    requires Mapped(regions, b) && HostOf(regions, b) in host
    requires WriteChanges(host, regions, table, marks, address, n, value, b)
    ensures OpenAlias(regions, table, marks, b, a)
  {
    EntryAccessBacks(regions, table, address, n);
    InEntryFits(regions, table, address, n);
    WriteFrame(host, regions, address, HostOf(regions, address), BigEndianBytes(n, value), b);
    a :| address <= a < address + n && Mapped(regions, a) && HostOf(regions, a) == HostOf(regions, b);
    ReachedAndOpen(table, marks, address, n, a);
  }

  /** Every byte of an accepted scalar is reached, on an unmarked page. */
  lemma ReachedAndOpen(table: seq<PageEntry>, marks: seq<bool>, address: Address, n: nat, a: Address)
    requires |table| == PAGES && |marks| == GUARD_PAGES && ScalarAccepted(table, marks, address, n)
    requires address <= a < address + n && address / PAGE == a / PAGE
    ensures InEntry(table, a, 1) && !marks[a / SUBPAGE]
  {
    assert RangesOverlap(a / SUBPAGE * SUBPAGE, SUBPAGE, address, n);
  }

  lemma OpenAliasChanges(host: map<nat, Byte>, regions: seq<Region>, table: seq<PageEntry>, marks: seq<bool>,
                         b: Address, a: Address) returns (value: nat)
    requires LayoutOk(regions) && TableOf(regions, table) && |marks| == GUARD_PAGES
    requires Mapped(regions, b) && HostOf(regions, b) in host && OpenAlias(regions, table, marks, b, a)
    ensures WriteChanges(host, regions, table, marks, a, 1, value, b)
  {
    value := AliasChanges(host, regions, table, b, a);
    assert !Guarded(marks, a, 1);
  }

  /**
    Exactly which bytes can be written: some accepted scalar write changes the byte behind b if and
    only if some alias of b, b itself included, is reached on an unmarked page.
   */
  lemma ExposedExactly(host: map<nat, Byte>, regions: seq<Region>, table: seq<PageEntry>, marks: seq<bool>, b: Address)
    requires LayoutOk(regions) && TableOf(regions, table) && |marks| == GUARD_PAGES
    requires Mapped(regions, b) && HostOf(regions, b) in host
    ensures (exists address: Address, n: nat, value: nat ::
               WriteChanges(host, regions, table, marks, address, n, value, b))
            <==> exists a: Address :: OpenAlias(regions, table, marks, b, a)
  {
    if address: Address, n: nat, value: nat :| WriteChanges(host, regions, table, marks, address, n, value, b) {
      var a := ChangeNeedsOpenAlias(host, regions, table, marks, address, n, value, b);
    }
    if a: Address :| OpenAlias(regions, table, marks, b, a) {
      var value := OpenAliasChanges(host, regions, table, marks, b, a);
    }
  }

  // ---------- stack stores ----------

  /** An accepted stack store of the value at the address changes the byte behind b. */
  ghost predicate StackChanges(host: map<nat, Byte>, regions: seq<Region>, table: seq<PageEntry>,
                               address: Address, n: nat, value: nat, b: Address)
    requires TableOf(regions, table) && Mapped(regions, b) && HostOf(regions, b) in host
  {
    && n in {1, 2, 4, 8} && value < Span(n) && PointerFound(table, address, n) && Mapped(regions, address)
    && Stored(host, HostOf(regions, address), BigEndianBytes(n, value))[HostOf(regions, b)] != host[HostOf(regions, b)]
  }

  /** The byte behind b can also be reached at a, through the page table. */
  ghost predicate ReachedAlias(regions: seq<Region>, table: seq<PageEntry>, b: Address, a: Address)
    requires TableOf(regions, table) && Mapped(regions, b)
  {
    InEntry(table, a, 1) && Mapped(regions, a) && HostOf(regions, a) == HostOf(regions, b)
  }

  lemma FoundBacks(regions: seq<Region>, table: seq<PageEntry>, address: Address, n: nat)
    requires LayoutOk(regions) && TableOf(regions, table) && 0 < n && PointerFound(table, address, n)
    ensures Mapped(regions, address) && Backs(regions, address, n, HostOf(regions, address))
    ensures forall page | 0 <= page < PAGES :: table[page].limit <= PAGE
  {
    if InEntry(table, address, n) {
      EntryAccessBacks(regions, table, address, n);
    } else {
      BiasBacks(regions, table, address, n);
    }
    assert Mapped(regions, address);
    forall page | 0 <= page < PAGES
      ensures table[page].limit <= PAGE
    {
      if table[page].base != 0 {
        EntryBacks(regions, page);
      } else {
        NullEntry(regions, page);
      }
    }
  }

  lemma StackChangeNeedsAlias(host: map<nat, Byte>, regions: seq<Region>, table: seq<PageEntry>,
                              address: Address, n: nat, value: nat, b: Address) returns (a: Address)
    requires LayoutOk(regions) && TableOf(regions, table)
    requires Mapped(regions, b) && HostOf(regions, b) in host
    requires StackChanges(host, regions, table, address, n, value, b)
    ensures ReachedAlias(regions, table, b, a)
  {
    FoundBacks(regions, table, address, n);
    WriteFrame(host, regions, address, HostOf(regions, address), BigEndianBytes(n, value), b);
    a :| address <= a < address + n && Mapped(regions, a) && HostOf(regions, a) == HostOf(regions, b);
    FoundBytesReached(table, address, n, a);
  }

  lemma AliasChanges(host: map<nat, Byte>, regions: seq<Region>, table: seq<PageEntry>, b: Address, a: Address)
    returns (value: nat)
    requires LayoutOk(regions) && TableOf(regions, table)
    requires Mapped(regions, b) && HostOf(regions, b) in host && ReachedAlias(regions, table, b, a)
    ensures value < Span(1)
    ensures Stored(host, HostOf(regions, a), BigEndianBytes(1, value))[HostOf(regions, b)] != host[HostOf(regions, b)]
    ensures StackChanges(host, regions, table, a, 1, value, b)
  {
    var p := HostOf(regions, b);
    value := if host[p] == 0 then 1 else 0;
    assert Span(1) == 256 by { assert Span(0) == 1; }
    assert BigEndianBytes(1, value) == [value] by { assert BigEndianBytes(0, 0) == []; }
  }

  /** Some accepted stack store changes the byte behind b if and only if some alias of b is reached, marked or not. */
  lemma StackExposedExactly(host: map<nat, Byte>, regions: seq<Region>, table: seq<PageEntry>, b: Address)
    requires LayoutOk(regions) && TableOf(regions, table)
    requires Mapped(regions, b) && HostOf(regions, b) in host
    ensures (exists address: Address, n: nat, value: nat :: StackChanges(host, regions, table, address, n, value, b))
            <==> exists a: Address :: ReachedAlias(regions, table, b, a)
  {
    if address: Address, n: nat, value: nat :| StackChanges(host, regions, table, address, n, value, b) {
      var a := StackChangeNeedsAlias(host, regions, table, address, n, value, b);
    }
    if a: Address :| ReachedAlias(regions, table, b, a) {
      var value := AliasChanges(host, regions, table, b, a);
    }
  }

  // ---------- the console's layout ----------

  const OVERLAY := 0x8180_0000
  const OVERLAY_SIZE := 0x20_0000
  const LOCKED_CACHE := 0xE000_0000
  const LOCKED_CACHE_SIZE := PAGE + 4096

  /** Where the flat reservation put the four backing stores. */
  datatype Backing = Backing(mem1: nat, mem2: nat, overlay: nat, cache: nat)

  predicate BackingOk(s: Backing) {
    && 0 < s.mem1 && 0 < s.mem2 && 0 < s.overlay && 0 < s.cache
    && s.mem1 + MEM1_SIZE <= TWO_64 && s.mem2 + MEM2_SIZE <= TWO_64
    && s.overlay + OVERLAY_SIZE <= TWO_64 && s.cache + LOCKED_CACHE_SIZE <= TWO_64
    && Apart(s.mem1, MEM1_SIZE, s.mem2, MEM2_SIZE) && Apart(s.mem1, MEM1_SIZE, s.overlay, OVERLAY_SIZE)
    && Apart(s.mem1, MEM1_SIZE, s.cache, LOCKED_CACHE_SIZE) && Apart(s.mem2, MEM2_SIZE, s.overlay, OVERLAY_SIZE)
    && Apart(s.mem2, MEM2_SIZE, s.cache, LOCKED_CACHE_SIZE)
    && Apart(s.overlay, OVERLAY_SIZE, s.cache, LOCKED_CACHE_SIZE)
  }

  predicate Apart(a: nat, n: nat, b: nat, m: nat) {
    a + n <= b || b + m <= a
  }

  /** Config::WiiDefaults: three views of each memory on one store, the module overlay and the locked cache. */
  function WiiRegions(s: Backing): (regions: seq<Region>)
    ensures |regions| == 8
  {
    [Region(MEM1_PHYSICAL, s.mem1, MEM1_SIZE), Region(MEM1_CACHED, s.mem1, MEM1_SIZE),
     Region(MEM1_UNCACHED, s.mem1, MEM1_SIZE), Region(MEM2_PHYSICAL, s.mem2, MEM2_SIZE),
     Region(MEM2_CACHED, s.mem2, MEM2_SIZE), Region(MEM2_UNCACHED, s.mem2, MEM2_SIZE),
     Region(OVERLAY, s.overlay, OVERLAY_SIZE), Region(LOCKED_CACHE, s.cache, LOCKED_CACHE_SIZE)]
  }

  predicate InWiiMemory(a: nat) {
    || InMainMemory(a)
    || OVERLAY <= a < OVERLAY + OVERLAY_SIZE
    || LOCKED_CACHE <= a < LOCKED_CACHE + LOCKED_CACHE_SIZE
  }

  /** The region of an address, as its place in the configuration. */
  function WiiRegion(a: nat): (i: nat)
    requires InWiiMemory(a)
    ensures i < 8
  {
    if a < MEM1_SIZE then 0
    else if MEM1_CACHED <= a < MEM1_CACHED + MEM1_SIZE then 1
    else if MEM1_UNCACHED <= a < MEM1_UNCACHED + MEM1_SIZE then 2
    else if MEM2_PHYSICAL <= a < MEM2_PHYSICAL + MEM2_SIZE then 3
    else if MEM2_CACHED <= a < MEM2_CACHED + MEM2_SIZE then 4
    else if MEM2_UNCACHED <= a < MEM2_UNCACHED + MEM2_SIZE then 5
    else if OVERLAY <= a < OVERLAY + OVERLAY_SIZE then 6
    else 7
  }

  lemma WiiLayout(s: Backing)
    requires BackingOk(s)
    ensures LayoutOk(WiiRegions(s))
  {
    var regions := WiiRegions(s);
    forall i, j, a: nat | 0 <= i < j < |regions| && InRegion(regions[i], a)
      ensures !InRegion(regions[j], a)
    {
    }
  }

  /** Host storage of an address of the console's layout. */
  function StorageOf(s: Backing, a: nat): nat
    requires InWiiMemory(a)
  {
    WiiRegions(s)[WiiRegion(a)].storage + (a - WiiRegions(s)[WiiRegion(a)].base)
  }

  lemma WiiMapped(s: Backing, a: nat)
    requires BackingOk(s)
    ensures Mapped(WiiRegions(s), a) <==> InWiiMemory(a)
    ensures InWiiMemory(a) ==> HostOf(WiiRegions(s), a) == StorageOf(s, a)
  {
    var regions := WiiRegions(s);
    if Mapped(regions, a) {
      var i :| 0 <= i < |regions| && InRegion(regions[i], a);
      assert InWiiMemory(a);
    }
    if InWiiMemory(a) {
      WiiLayout(s);
      assert InRegion(regions[WiiRegion(a)], a);
      HostOfRegion(regions, WiiRegion(a), a);
    }
  }

  /** Two addresses share a host byte exactly if they have one physical address. */
  lemma SameHostExactly(s: Backing, x: Address, y: Address)
    requires BackingOk(s) && InWiiMemory(x) && InWiiMemory(y)
    ensures StorageOf(s, x) == StorageOf(s, y) <==> Canonical(x) == Canonical(y)
  {
    StorageIsCanonical(s, x);
    StorageIsCanonical(s, y);
  }

  /** Which store an address lies in, and how far into it. */
  function StoreOf(a: Address): nat
    requires InWiiMemory(a)
  {
    var c := Canonical(a);
    if c < MEM1_SIZE then 1 else if c < MEM2_PHYSICAL + MEM2_SIZE then 2 else if c < LOCKED_CACHE then 3 else 4
  }

  lemma StorageIsCanonical(s: Backing, a: Address)
    requires InWiiMemory(a)
    ensures var c := Canonical(a);
      StorageOf(s, a) == (match StoreOf(a)
                          case 1 => s.mem1 + c
                          case 2 => s.mem2 + (c - MEM2_PHYSICAL)
                          case 3 => s.overlay + (c - OVERLAY)
                          case _ => s.cache + (c - LOCKED_CACHE))
    ensures match StoreOf(a)
            case 1 => Canonical(a) < MEM1_SIZE
            case 2 => MEM2_PHYSICAL <= Canonical(a) < MEM2_PHYSICAL + MEM2_SIZE
            case 3 => OVERLAY <= Canonical(a) < OVERLAY + OVERLAY_SIZE
            case _ => LOCKED_CACHE <= Canonical(a) < LOCKED_CACHE + LOCKED_CACHE_SIZE
  {
  }

  lemma WiiReached(s: Backing, table: seq<PageEntry>, a: Address)
    requires BackingOk(s) && TableOf(WiiRegions(s), table) && InWiiMemory(a)
    ensures InEntry(table, a, 1)
  {
    var i := WiiRegion(a);
    var r := WiiRegions(s)[i];
    WiiLayout(s);
    assert r.base % PAGE == 0 && InRegion(r, a);
    assert CoversPage(r, a / PAGE);
    EntryOfRegion(WiiRegions(s), i, a / PAGE);
  }

  // ---------- where fast accesses may start ----------

  /** The stores are mapped from page boundaries of the host. */
  predicate OnHostPages(s: Backing) {
    s.mem1 % 0x1000 == 0 && s.mem2 % 0x1000 == 0 && s.overlay % 0x1000 == 0 && s.cache % 0x1000 == 0
  }

  /** The 1 MiB page of the address is not the last of its region. */
  predicate BeforeLastPage(s: Backing, a: nat)
    requires InWiiMemory(a)
  {
    var r := WiiRegions(s)[WiiRegion(a)];
    a / 0x10_0000 * 0x10_0000 + 0x10_0000 < r.base + r.size
  }

  /** Only the module overlay follows another region in guest memory, and it may follow it in host memory too. */
  predicate RunsIntoOverlay(s: Backing, a: nat) {
    a / 0x10_0000 == 0x817 && s.overlay == s.mem1 + MEM1_SIZE
  }

  /** On the console's layout fast accesses start in every page but the last of each region. */
  lemma WiiFastExactly(s: Backing, a: Address)
    requires BackingOk(s) && OnHostPages(s)
    ensures FastPage(WiiRegions(s), a / PAGE) <==> InWiiMemory(a) && (BeforeLastPage(s, a) || RunsIntoOverlay(s, a))
  {
    if FastPage(WiiRegions(s), a / PAGE) {
      FastIsBeforeLast(s, a);
    }
    if InWiiMemory(a) && (BeforeLastPage(s, a) || RunsIntoOverlay(s, a)) {
      BeforeLastIsFast(s, a);
    }
  }

  /** The pages of the console's memory that are not the last of their region. */
  predicate FastNumber(page: nat) {
    || page < 0x17 || 0x100 <= page < 0x17F || 0x800 <= page < 0x817 || 0x900 <= page < 0x97F
    || 0xC00 <= page < 0xC17 || 0xD00 <= page < 0xD7F || page == 0x818 || page == 0xE00
  }

  /** The fast pages by number: two views of 24 and 128 pages thrice, the overlay of two, the locked cache of one. */
  lemma WiiFastPages(s: Backing, page: nat)
    requires BackingOk(s) && OnHostPages(s) && page < 0x1000
    ensures FastPage(WiiRegions(s), page) <==>
              FastNumber(page) || (page == 0x817 && s.overlay == s.mem1 + 0x180_0000)
  {
    assert page * PAGE / PAGE == page;
    WiiFastExactly(s, page * PAGE);
    FastNumbers(s, page);
  }

  lemma FastNumbers(s: Backing, page: nat)
    requires page < 0x1000
    ensures InWiiMemory(page * PAGE) && (BeforeLastPage(s, page * PAGE) || RunsIntoOverlay(s, page * PAGE)) <==>
              FastNumber(page) || (page == 0x817 && s.overlay == s.mem1 + 0x180_0000)
  {
    MappedPages(page);
    if InWiiMemory(page * PAGE) {
      LastPages(s, page);
    }
  }

  lemma MappedPages(page: nat)
    requires page < 0x1000
    ensures InWiiMemory(page * PAGE) <==>
              || page < 0x18 || 0x100 <= page < 0x180 || 0x800 <= page < 0x81A || 0x900 <= page < 0x980
              || 0xC00 <= page < 0xC18 || 0xD00 <= page < 0xD80 || 0xE00 <= page < 0xE02
  {
  }

  lemma LastPages(s: Backing, page: nat)
    requires page < 0x1000 && InWiiMemory(page * PAGE)
    ensures BeforeLastPage(s, page * PAGE) <==> page !in {0x17, 0x17F, 0x817, 0x819, 0x97F, 0xC17, 0xD7F, 0xE01}
  {
  }

  lemma FastIsBeforeLast(s: Backing, a: Address)
    requires BackingOk(s) && FastPage(WiiRegions(s), a / PAGE)
    ensures InWiiMemory(a) && (BeforeLastPage(s, a) || RunsIntoOverlay(s, a))
  {
    var start, regions := a / PAGE * PAGE, WiiRegions(s);
    var last := start + PAGE + 6;
    assert Mapped(regions, a) && Mapped(regions, last);
    assert HostOf(regions, last) == HostOf(regions, start) + PAGE + 6;
    WiiMapped(s, a);
    WiiMapped(s, start);
    WiiMapped(s, last);
    SameRegionOrOverlay(a, last);
  }

  lemma BeforeLastIsFast(s: Backing, a: Address)
    requires BackingOk(s) && OnHostPages(s) && InWiiMemory(a) && (BeforeLastPage(s, a) || RunsIntoOverlay(s, a))
    ensures FastPage(WiiRegions(s), a / PAGE)
  {
    var start, regions := a / PAGE * PAGE, WiiRegions(s);
    StorageFollows(s, a, start);
    StorageFollows(s, a, start + PAGE + 6);
    StorageOnPage(s, start);
    WiiMapped(s, start);
    forall b | start <= b < start + PAGE + 7
      ensures Mapped(regions, b) && HostOf(regions, b) == StorageOf(s, start) + (b - start)
    {
      StorageFollows(s, a, b);
      WiiMapped(s, b);
    }
  }

  lemma StorageFollows(s: Backing, a: Address, b: nat)
    requires BackingOk(s) && InWiiMemory(a) && (BeforeLastPage(s, a) || RunsIntoOverlay(s, a))
    requires a / PAGE * PAGE <= b < a / PAGE * PAGE + PAGE + 7
    ensures InWiiMemory(a / PAGE * PAGE) && InWiiMemory(b)
    ensures StorageOf(s, b) == StorageOf(s, a / PAGE * PAGE) + (b - a / PAGE * PAGE) < TWO_64
  {
    var r := WiiRegions(s)[WiiRegion(a)];
    if BeforeLastPage(s, a) {
      assert r.base <= a / PAGE * PAGE && b < r.base + r.size;
      assert WiiRegion(b) == WiiRegion(a) == WiiRegion(a / PAGE * PAGE);
    }
  }

  lemma StorageOnPage(s: Backing, start: nat)
    requires OnHostPages(s) && InWiiMemory(start) && start % 0x1000 == 0
    ensures StorageOf(s, start) % 0x1000 == 0
  {
    var r := WiiRegions(s)[WiiRegion(start)];
    assert r.storage % 0x1000 == 0 && r.base % 0x1000 == 0;
    PagesAdd(r.storage, start, r.base);
  }

  lemma PagesAdd(storage: nat, start: nat, base: nat)
    requires storage % 0x1000 == 0 && start % 0x1000 == 0 && base % 0x1000 == 0
    ensures (storage + (start - base)) % 0x1000 == 0
  {
    assert storage + (start - base) == 0x1000 * (storage / 0x1000 + start / 0x1000 - base / 0x1000);
  }

  lemma SameRegionOrOverlay(a: Address, last: Address)
    requires InWiiMemory(a) && InWiiMemory(last) && last == a / PAGE * PAGE + PAGE + 6
    ensures WiiRegion(a) == WiiRegion(a / PAGE * PAGE)
    ensures WiiRegion(last) == WiiRegion(a) || (a / PAGE == 0x817 && WiiRegion(a) == 1 && WiiRegion(last) == 6)
  {
  }

  /** a is a view of the byte at x, on an unmarked page. */
  ghost predicate OpenView(marks: seq<bool>, x: Address, a: Address)
    requires |marks| == GUARD_PAGES
  {
    InWiiMemory(a) && Canonical(a) == Canonical(x) && !marks[a / SUBPAGE]
  }

  lemma OpenAliasIsOpenView(s: Backing, table: seq<PageEntry>, marks: seq<bool>, b: Address, a: Address)
    requires BackingOk(s) && TableOf(WiiRegions(s), table) && |marks| == GUARD_PAGES && InWiiMemory(b)
    ensures Mapped(WiiRegions(s), b)
    ensures OpenAlias(WiiRegions(s), table, marks, b, a) <==> OpenView(marks, b, a)
  {
    WiiMapped(s, a);
    WiiMapped(s, b);
    if InWiiMemory(a) {
      SameHostExactly(s, a, b);
      WiiReached(s, table, a);
    }
  }

  /** On the console's layout: a byte can be written if and only if the page of some view of it is unmarked. */
  lemma WiiExposedExactly(host: map<nat, Byte>, s: Backing, table: seq<PageEntry>, marks: seq<bool>, b: Address)
    requires BackingOk(s) && TableOf(WiiRegions(s), table) && |marks| == GUARD_PAGES
    requires InWiiMemory(b) && StorageOf(s, b) in host
    ensures Mapped(WiiRegions(s), b) && HostOf(WiiRegions(s), b) in host
    ensures (exists address: Address, n: nat, value: nat ::
               WriteChanges(host, WiiRegions(s), table, marks, address, n, value, b))
            <==> exists a: Address :: OpenView(marks, b, a)
  {
    WiiLayout(s);
    WiiMapped(s, b);
    ExposedExactly(host, WiiRegions(s), table, marks, b);
    forall a: Address
      ensures OpenAlias(WiiRegions(s), table, marks, b, a) <==> OpenView(marks, b, a)
    {
      OpenAliasIsOpenView(s, table, marks, b, a);
    }
  }

  /** The guard does not hold for the stack: whatever is marked, every byte of the console's memory is changed
      by an accepted stack store to its own address. */
  lemma StackStoresPassGuard(host: map<nat, Byte>, s: Backing, table: seq<PageEntry>, b: Address) returns (value: nat)
    requires BackingOk(s) && TableOf(WiiRegions(s), table) && InWiiMemory(b) && StorageOf(s, b) in host
    ensures Mapped(WiiRegions(s), b) && HostOf(WiiRegions(s), b) in host
    ensures StackChanges(host, WiiRegions(s), table, b, 1, value, b)
  {
    WiiLayout(s);
    WiiMapped(s, b);
    WiiReached(s, table, b);
    value := AliasChanges(host, WiiRegions(s), table, b, b);
  }

  // ---------- what one registration leaves open ----------

  /** Inside the physical view of one of the memories: the only form all three views are recorded for. */
  predicate GivenPhysically(r: ExecutableRange) {
    r.end <= MEM1_SIZE || (MEM2_PHYSICAL <= r.start && r.end <= MEM2_PHYSICAL + MEM2_SIZE)
  }

  ghost predicate MeetsMainMemory(r: ExecutableRange) {
    exists x :: r.start <= x < r.end && InMainMemory(x)
  }

  /** So large that it meets every page of every view by itself. */
  predicate CoversEveryView(r: ExecutableRange) {
    r.start < SUBPAGE && r.end > MEM2_UNCACHED + MEM2_SIZE - SUBPAGE
  }

  ghost predicate LeavesViewOpen(r: ExecutableRange) {
    r.start < r.end && MeetsMainMemory(r) && !GivenPhysically(r) && !CoversEveryView(r)
  }

  /** A page of main memory belongs to one view as a whole. */
  lemma WholePage(x: nat, y: nat)
    requires InMainMemory(x) && x / SUBPAGE == y / SUBPAGE
    ensures InMainMemory(y)
  {
  }

  predicate Shifted(t: ExecutableRange, r: ExecutableRange, view: nat) {
    t.start == r.start + view && t.end == r.end + view
  }

  ghost predicate Has(ranges: seq<ExecutableRange>, r: ExecutableRange, view: nat) {
    exists t :: t in ranges && Shifted(t, r, view)
  }

  /** Given by its physical address, a range is recorded in all three views and nowhere else. */
  lemma PhysicalRecords(r: ExecutableRange)
    requires r.start < r.end && GivenPhysically(r)
    ensures Has(Recorded(r), r, 0) && Has(Recorded(r), r, 0x8000_0000) && Has(Recorded(r), r, 0xC000_0000)
    ensures forall t | t in Recorded(r) ::
      Shifted(t, r, 0) || Shifted(t, r, 0x8000_0000) || Shifted(t, r, 0xC000_0000)
  {
    var views := Mem1Aliases(r) + Mem2Aliases(r);
    assert |views| == 2 && Recorded(r) == [r, views[0], views[1]];
    assert r in Recorded(r) && views[0] in Recorded(r) && views[1] in Recorded(r);
    assert Shifted(r, r, 0) && Shifted(views[0], r, 0x8000_0000) && Shifted(views[1], r, 0xC000_0000);
  }

  /** Outside main memory only the range itself is recorded. */
  lemma ForeignRecords(r: ExecutableRange)
    requires r.start < r.end && !MeetsMainMemory(r)
    ensures Recorded(r) == [r]
  {
    assert !InMainMemory(r.start);
    assert Mem1Aliases(r) == [] && Mem2Aliases(r) == [];
  }

  /** A registration that leaves no view open marks the pages of all views of a byte or of none. */
  lemma ClosedUnderViews(r: ExecutableRange, x: Address, a: Address)
    requires r.start < r.end && !LeavesViewOpen(r)
    requires InMainMemory(x) && InMainMemory(a) && Canonical(x) == Canonical(a)
    requires MeetsPage(Recorded(r), x / SUBPAGE)
    ensures MeetsPage(Recorded(r), a / SUBPAGE)
  {
    if CoversEveryView(r) {
      assert r in Recorded(r) && Intersects(a / SUBPAGE * SUBPAGE, SUBPAGE, r);
    } else if GivenPhysically(r) {
      PhysicalRecords(r);
      PhysicalPage(Recorded(r), r, x);
      PagesOfPhysical(Recorded(r), r, a);
    } else {
      ForeignRecords(r);
      var y := if x / SUBPAGE * SUBPAGE < r.start then r.start else x / SUBPAGE * SUBPAGE;
      WholePage(x, y);
    }
  }

  /** Views are whole pages apart, so a range and its view meet the same pages of their views. */
  lemma ShiftedPage(t: ExecutableRange, r: ExecutableRange, view: nat, a: nat)
    requires Shifted(t, r, view) && view in {0, 0x8000_0000, 0xC000_0000}
    ensures Intersects((a + view) / SUBPAGE * SUBPAGE, SUBPAGE, t) <==> Intersects(a / SUBPAGE * SUBPAGE, SUBPAGE, r)
  {
    assert (a + view) / SUBPAGE * SUBPAGE == a / SUBPAGE * SUBPAGE + view;
  }

  /** A page of main memory that meets a view of the range lies in the same view. */
  lemma SameView(t: ExecutableRange, r: ExecutableRange, view: nat, x: Address)
    requires r.start < r.end && GivenPhysically(r) && InMainMemory(x)
    requires Shifted(t, r, view) && view in {0, 0x8000_0000, 0xC000_0000}
    requires Intersects(x / SUBPAGE * SUBPAGE, SUBPAGE, t)
    ensures x == Canonical(x) + view
  {
    var page := x / SUBPAGE * SUBPAGE;
    assert page <= x < page + SUBPAGE;
    assert r.start + view < page + SUBPAGE && page < r.end + view;
  }

  /** Whatever view it was met in, the physical page is met. */
  lemma PhysicalPage(ranges: seq<ExecutableRange>, r: ExecutableRange, x: Address)
    requires r.start < r.end && GivenPhysically(r) && InMainMemory(x) && MeetsPage(ranges, x / SUBPAGE)
    requires forall t | t in ranges :: Shifted(t, r, 0) || Shifted(t, r, 0x8000_0000) || Shifted(t, r, 0xC000_0000)
    ensures Intersects(Canonical(x) / SUBPAGE * SUBPAGE, SUBPAGE, r)
  {
    var t :| t in ranges && Intersects(x / SUBPAGE * SUBPAGE, SUBPAGE, t);
    var view := t.start - r.start;
    SameView(t, r, view, x);
    ShiftedPage(t, r, view, Canonical(x));
  }

  /** And then every view's page is. */
  lemma PagesOfPhysical(ranges: seq<ExecutableRange>, r: ExecutableRange, a: Address)
    requires InMainMemory(a) && Intersects(Canonical(a) / SUBPAGE * SUBPAGE, SUBPAGE, r)
    requires Has(ranges, r, 0) && Has(ranges, r, 0x8000_0000) && Has(ranges, r, 0xC000_0000)
    ensures MeetsPage(ranges, a / SUBPAGE)
  {
    var view := a - Canonical(a);
    assert view == 0 || view == 0x8000_0000 || view == 0xC000_0000;
    var t :| t in ranges && Shifted(t, r, view);
    ShiftedPage(t, r, view, Canonical(a));
  }

  // ---------- what a registration leaves open ----------

  /** The page of one view of a byte is marked and that of another view of it is not. */
  ghost predicate ViewsDiffer(marks: seq<bool>, x: Address, a: Address)
    requires |marks| == GUARD_PAGES
  {
    InWiiMemory(x) && marks[x / SUBPAGE] && OpenView(marks, x, a)
  }

  lemma {:induction false} RecordedAlone(r: ExecutableRange, page: nat)
    requires r.start < r.end
    ensures MeetsPage(Registered([], r), page) <==> MeetsPage(Recorded(r), page)
  {
    forall t
      ensures t in Registered([], r) <==> t in Recorded(r)
    {
      AddedAllMembers([], Recorded(r), t);
      if t in Recorded(r) { RecordedRanges(r, t); }
    }
  }

  /** Views that differ are views of main memory: everything else is mapped once. */
  lemma DifferentViews(marks: seq<bool>, x: Address, a: Address)
    requires |marks| == GUARD_PAGES && ViewsDiffer(marks, x, a)
    ensures InMainMemory(x) && InMainMemory(a)
  {
  }

  /** Inside a cached or an uncached view. */
  predicate GivenByView(r: ExecutableRange) {
    || (MEM1_CACHED <= r.start && r.end <= MEM1_CACHED + MEM1_SIZE)
    || (MEM1_UNCACHED <= r.start && r.end <= MEM1_UNCACHED + MEM1_SIZE)
    || (MEM2_CACHED <= r.start && r.end <= MEM2_CACHED + MEM2_SIZE)
    || (MEM2_UNCACHED <= r.start && r.end <= MEM2_UNCACHED + MEM2_SIZE)
  }

  /** Then no physical page is marked for it. */
  lemma PhysicalStaysOpen(r: ExecutableRange, a: Address)
    requires r.start < r.end && GivenByView(r) && a < MEM2_PHYSICAL + MEM2_SIZE
    ensures !MeetsPage(Recorded(r), a / SUBPAGE)
  {
    var views := Mem1Aliases(r) + Mem2Aliases(r);
    assert |views| == 2 && Recorded(r) == [r, views[0], views[1]];
    assert forall t | t in Recorded(r) :: t.start >= MEM1_CACHED;
  }

  predicate MeetsPageOf(r: ExecutableRange, a: nat) {
    Intersects(a / SUBPAGE * SUBPAGE, SUBPAGE, r)
  }

  /** A range that meets the first and the last view of a byte has all that lies between them. */
  lemma WideRange(r: ExecutableRange, c: nat)
    requires c < MEM2_PHYSICAL + MEM2_SIZE && MeetsPageOf(r, c) && MeetsPageOf(r, c + 0xC000_0000)
    ensures r.start < MEM2_PHYSICAL + MEM2_SIZE && MEM1_UNCACHED < r.end
  {
    assert c / SUBPAGE * SUBPAGE + SUBPAGE <= MEM2_PHYSICAL + MEM2_SIZE;
    assert (c + 0xC000_0000) / SUBPAGE * SUBPAGE == c / SUBPAGE * SUBPAGE + 0xC000_0000;
  }

  lemma WideLeavesViewOpen(r: ExecutableRange) returns (x: Address, a: Address)
    requires r.start < MEM2_PHYSICAL + MEM2_SIZE && MEM1_UNCACHED < r.end && !CoversEveryView(r)
    ensures InMainMemory(x) && InMainMemory(a) && Canonical(x) == Canonical(a)
    ensures MeetsPageOf(r, x) && !MeetsPageOf(r, a)
  {
    if r.start >= SUBPAGE {
      x, a := MEM1_CACHED, MEM1_PHYSICAL;
    } else {
      x, a := MEM2_CACHED + MEM2_SIZE - 1, MEM2_UNCACHED + MEM2_SIZE - 1;
    }
  }

  /** Over the border of a view a range is recorded alone, and some view of some byte it meets is left out. */
  lemma BorderLeavesViewOpen(r: ExecutableRange) returns (x: Address, a: Address)
    requires LeavesViewOpen(r)
    ensures InMainMemory(x) && InMainMemory(a) && Canonical(x) == Canonical(a)
    ensures MeetsPageOf(r, x) && !MeetsPageOf(r, a)
  {
    x :| r.start <= x < r.end && InMainMemory(x);
    assert MeetsPageOf(r, x);
    var c := Canonical(x);
    if !MeetsPageOf(r, c) {
      a := c;
    } else if !MeetsPageOf(r, c + 0xC000_0000) {
      a := c + 0xC000_0000;
    } else {
      WideRange(r, c);
      x, a := WideLeavesViewOpen(r);
    }
  }

  lemma RecordedOverBorder(r: ExecutableRange)
    requires r.start < r.end && !GivenPhysically(r) && !GivenByView(r)
    ensures Recorded(r) == [r]
  {
    assert Mem1Aliases(r) == [] && Mem2Aliases(r) == [];
  }

  lemma OpenRegistration(r: ExecutableRange, marks: seq<bool>) returns (x: Address, a: Address)
    requires LeavesViewOpen(r) && MarksOf(marks, Registered([], r))
    ensures ViewsDiffer(marks, x, a)
  {
    if GivenByView(r) {
      x, a := r.start, Canonical(r.start);
      assert r in Recorded(r) && Intersects(x / SUBPAGE * SUBPAGE, SUBPAGE, r);
      PhysicalStaysOpen(r, a);
    } else {
      x, a := BorderLeavesViewOpen(r);
      RecordedOverBorder(r);
    }
    RecordedAlone(r, x / SUBPAGE);
    RecordedAlone(r, a / SUBPAGE);
  }

  /**
    Exactly which registrations leave a view of executable bytes open: those that meet main memory,
    are not given by their physical address, and do not cover all of main memory.
   */
  lemma RegistrationOpensExactly(r: ExecutableRange, marks: seq<bool>)
    requires r.start < r.end && MarksOf(marks, Registered([], r))
    ensures (exists x: Address, a: Address :: ViewsDiffer(marks, x, a)) <==> LeavesViewOpen(r)
  {
    if LeavesViewOpen(r) {
      var x, a := OpenRegistration(r, marks);
    } else if x: Address, a: Address :| ViewsDiffer(marks, x, a) {
      DifferentViews(marks, x, a);
      RecordedAlone(r, x / SUBPAGE);
      RecordedAlone(r, a / SUBPAGE);
      ClosedUnderViews(r, x, a);
      assert false;
    }
  }

  // ---------- any number of registrations ----------

  lemma RequestOfPage(requests: seq<ExecutableRange>, page: nat) returns (r: ExecutableRange)
    requires MeetsPage(RegisteredAll(requests), page)
    ensures r in requests && r.start < r.end && MeetsPage(Recorded(r), page)
  {
    var t :| t in RegisteredAll(requests) && Intersects(page * SUBPAGE, SUBPAGE, t);
    RegisteredMembers(requests, t);
    r :| r in requests && r.start < r.end && t in Recorded(r) && t.start < t.end;
  }

  lemma RecordedRanges(r: ExecutableRange, t: ExecutableRange)
    requires r.start < r.end && t in Recorded(r)
    ensures t.start < t.end
  {
    var mem1, mem2 := Mem1Aliases(r), Mem2Aliases(r);
    assert forall x | x in mem1 :: x.start < x.end;
    assert forall x | x in mem2 :: x.start < x.end;
  }

  lemma PageOfRequest(requests: seq<ExecutableRange>, r: ExecutableRange, page: nat)
    requires r in requests && r.start < r.end && MeetsPage(Recorded(r), page)
    ensures MeetsPage(RegisteredAll(requests), page)
  {
    var t :| t in Recorded(r) && Intersects(page * SUBPAGE, SUBPAGE, t);
    RecordedRanges(r, t);
    RegisteredMembers(requests, t);
  }

  /** If no registration leaves a view open, neither do all of them together. */
  lemma RegistrationsKeepViewsTogether(requests: seq<ExecutableRange>, marks: seq<bool>, x: Address, a: Address)
    requires MarksOf(marks, RegisteredAll(requests)) && (forall r | r in requests :: !LeavesViewOpen(r))
    ensures !ViewsDiffer(marks, x, a)
  {
    if ViewsDiffer(marks, x, a) {
      DifferentViews(marks, x, a);
      var r := RequestOfPage(requests, x / SUBPAGE);
      ClosedUnderViews(r, x, a);
      PageOfRequest(requests, r, a / SUBPAGE);
      assert false;
    }
  }

  /**
    The guard as it is meant: with such registrations no accepted scalar write changes a byte of an
    executable page, at whatever address it is made.
   */
  lemma GuardedBytesKept(host: map<nat, Byte>, s: Backing, table: seq<PageEntry>, requests: seq<ExecutableRange>,
                         marks: seq<bool>, b: Address, address: Address, n: nat, value: nat)
    requires BackingOk(s) && TableOf(WiiRegions(s), table)
    requires MarksOf(marks, RegisteredAll(requests)) && (forall r | r in requests :: !LeavesViewOpen(r))
    requires InWiiMemory(b) && StorageOf(s, b) in host && marks[b / SUBPAGE]
    ensures Mapped(WiiRegions(s), b) && HostOf(WiiRegions(s), b) in host
    ensures !WriteChanges(host, WiiRegions(s), table, marks, address, n, value, b)
  {
    WiiExposedExactly(host, s, table, marks, b);
    forall a: Address
      ensures !OpenView(marks, b, a)
    {
      RegistrationsKeepViewsTogether(requests, marks, b, a);
    }
  }

  /**
    The base program's sections are registered by their cached addresses. Then every byte of every
    one of them is written by an accepted store to its physical address.
   */
  lemma CachedSectionsStayWritable(host: map<nat, Byte>, s: Backing, table: seq<PageEntry>,
                                   requests: seq<ExecutableRange>, marks: seq<bool>, b: Address) returns (value: nat)
    requires BackingOk(s) && TableOf(WiiRegions(s), table)
    requires MarksOf(marks, RegisteredAll(requests)) && (forall r | r in requests :: GivenByView(r))
    requires InMainMemory(b) && StorageOf(s, b) in host
    ensures Mapped(WiiRegions(s), b) && HostOf(WiiRegions(s), b) in host
    ensures WriteChanges(host, WiiRegions(s), table, marks, Canonical(b), 1, value, b)
  {
    var a := Canonical(b);
    if MeetsPage(RegisteredAll(requests), a / SUBPAGE) {
      var r := RequestOfPage(requests, a / SUBPAGE);
      PhysicalStaysOpen(r, a);
      assert false;
    }
    WiiLayout(s);
    WiiMapped(s, b);
    OpenAliasIsOpenView(s, table, marks, b, a);
    value := OpenAliasChanges(host, WiiRegions(s), table, marks, b, a);
  }

  /** For instance: with [0x80004000, 0x80005000) registered, a store at 0x4000 changes the byte at 0x80004000. */
  lemma StoreBelowReachesProgram(s: Backing, host: map<nat, Byte>)
    returns (table: seq<PageEntry>, marks: seq<bool>, value: nat)
    requires BackingOk(s) && s.mem1 + 0x4000 in host
    ensures TableOf(WiiRegions(s), table)
    ensures MarksOf(marks, Registered([], ExecutableRange(0x8000_4000, 0x8000_5000, "main.dol:.text")))
    ensures marks[0x8_0004] && Mapped(WiiRegions(s), 0x8000_4000)
    ensures HostOf(WiiRegions(s), 0x8000_4000) in host
    ensures WriteChanges(host, WiiRegions(s), table, marks, 0x4000, 1, value, 0x8000_4000)
  {
    var r := ExecutableRange(0x8000_4000, 0x8000_5000, "main.dol:.text");
    table := seq(PAGES, page requires 0 <= page < PAGES => EntryFor(WiiRegions(s), page));
    marks := seq(GUARD_PAGES, page requires 0 <= page < GUARD_PAGES => MeetsPage(RegisteredAll([r]), page));
    assert [r][..0] == [] && RegisteredAll([r]) == Registered([], r);
    RecordedAlone(r, 0x8_0004);
    assert r in Recorded(r) && Intersects(0x8_0004 * SUBPAGE, SUBPAGE, r);
    value := CachedSectionsStayWritable(host, s, table, [r], marks, 0x8000_4000);
  }
}
