/**
  Where guest addresses live in host memory, and what the page and bias tables say about it
  (memory_access.h, memory.cpp). Host pointers are 64-bit words and their arithmetic wraps.
 */
module GuestLayout {

  import opened MachineTypes

  const PAGE: nat := 0x10_0000       // kPageSize, 1 MiB
  const PAGES: nat := 0x1000         // kPageCount
  const SUBPAGE: nat := 0x1000       // kWritableSubPageSize and the guard page, 4 KiB
  const SUBPAGES: nat := 0x100       // kWritableSubPagesPerPage
  const GUARD_PAGES: nat := 0x10_0000
  const MID_PAGE: nat := 0x1_0000    // 64 KiB
  const MID_PAGES: nat := 0x1_0000
  const MAX_SCALAR: nat := 8         // kMaxFastScalarSize

  /** Two half-open ranges share an address. */
  predicate RangesOverlap(firstStart: nat, firstLength: nat, secondStart: nat, secondLength: nat) {
    firstStart < secondStart + secondLength && secondStart < firstStart + firstLength
  }

  /** A mapped region: guest [base, base + size) is host [storage, storage + size). */
  datatype Region = Region(base: nat, storage: nat, size: nat)

  /** A page-table entry; base 0 is the null pointer. */
  datatype PageEntry = PageEntry(base: nat, limit: nat)

  const NO_ENTRY := PageEntry(0, 0)

  predicate RegionOk(r: Region) {
    0 < r.storage && r.base < ADDRESSES && r.base + r.size <= ADDRESSES && r.storage + r.size <= TWO_64
  }

  predicate InRegion(r: Region, a: nat) {
    r.base <= a < r.base + r.size
  }

  ghost predicate RegionsApart(regions: seq<Region>) {
    forall i, j, a: nat | 0 <= i < j < |regions| && InRegion(regions[i], a) :: !InRegion(regions[j], a)
  }

  /** The guest map the tables are built from: regions in range that share no guest address. */
  ghost predicate LayoutOk(regions: seq<Region>) {
    (forall i | 0 <= i < |regions| :: RegionOk(regions[i])) && RegionsApart(regions)
  }

  ghost predicate Mapped(regions: seq<Region>, a: nat) {
    exists i :: 0 <= i < |regions| && InRegion(regions[i], a)
  }

  /** The host byte behind a guest address. */
  ghost function HostOf(regions: seq<Region>, a: nat): nat
    requires Mapped(regions, a)
  {
    var i :| 0 <= i < |regions| && InRegion(regions[i], a);
    regions[i].storage + (a - regions[i].base)
  }

  lemma HostOfRegion(regions: seq<Region>, i: nat, a: nat)
    requires LayoutOk(regions) && i < |regions| && InRegion(regions[i], a)
    ensures Mapped(regions, a)
    ensures HostOf(regions, a) == regions[i].storage + (a - regions[i].base)
  {
  }

  /** [a, a + length) is mapped and lies at consecutive host addresses from p on. */
  ghost predicate Backs(regions: seq<Region>, a: nat, length: nat, p: nat) {
    && a + length <= ADDRESSES && p + length <= TWO_64
    && forall b | a <= b < a + length :: Mapped(regions, b) && HostOf(regions, b) == p + (b - a)
  }

  // ---------- the page table ----------

  predicate CoversPage(r: Region, page: nat) {
    r.base <= page * PAGE < r.base + r.size
  }

  function EntryOf(r: Region, page: nat): PageEntry
    requires CoversPage(r, page)
  {
    var offset := page * PAGE - r.base;
    PageEntry(r.storage + offset, if r.size - offset < PAGE then r.size - offset else PAGE)
  }

  /** The last region that covers the page's start wins. */
  function EntryFor(regions: seq<Region>, page: nat): PageEntry {
    if regions == [] then NO_ENTRY
    else
      var r := regions[|regions| - 1];
      if CoversPage(r, page) then EntryOf(r, page) else EntryFor(regions[..|regions| - 1], page)
  }

  lemma EntryBacks(regions: seq<Region>, page: nat)
    requires LayoutOk(regions) && EntryFor(regions, page).base != 0
    ensures var e := EntryFor(regions, page);
      e.limit <= PAGE && Backs(regions, page * PAGE, e.limit, e.base)
  {
    var e := EntryFor(regions, page);
    var i := EntrySource(regions, page);
    var r := regions[i];
    assert RegionOk(r);
    forall b | page * PAGE <= b < page * PAGE + e.limit
      ensures Mapped(regions, b) && HostOf(regions, b) == e.base + (b - page * PAGE)
    {
      HostOfRegion(regions, i, b);
    }
  }

  lemma {:induction false} EntrySource(regions: seq<Region>, page: nat) returns (i: nat)
    requires EntryFor(regions, page).base != 0
    ensures i < |regions| && CoversPage(regions[i], page) && EntryFor(regions, page) == EntryOf(regions[i], page)
    decreases |regions|
  {
    i := |regions| - 1;
    if !CoversPage(regions[i], page) {
      i := EntrySource(regions[..i], page);
    }
  }

  lemma {:induction false} NullEntry(regions: seq<Region>, page: nat)
    requires (forall i | 0 <= i < |regions| :: RegionOk(regions[i])) && EntryFor(regions, page).base == 0
    ensures EntryFor(regions, page) == NO_ENTRY
    decreases |regions|
  {
    if regions == [] {
    } else {
      var last := |regions| - 1;
      assert RegionOk(regions[last]);
      assert forall j | 0 <= j < last :: regions[..last][j] == regions[j];
      NullEntry(regions[..last], page);
    }
  }

  /** Regions share no address, so it does not matter which of them is asked first. */
  lemma {:induction false} EntryOfRegion(regions: seq<Region>, i: nat, page: nat)
    requires LayoutOk(regions) && i < |regions| && CoversPage(regions[i], page)
    ensures EntryFor(regions, page) == EntryOf(regions[i], page)
    decreases |regions|
  {
    var last := |regions| - 1;
    if i == last {
    } else {
      assert InRegion(regions[i], page * PAGE) && !InRegion(regions[last], page * PAGE);
      assert forall j | 0 <= j < last :: regions[..last][j] == regions[j];
      EntryOfRegion(regions[..last], i, page);
    }
  }

  // ---------- the bias tables ----------

  /** (host page base - guest page base) + 1, in 64-bit arithmetic. */
  function Encode(hostBase: nat, page: nat): nat {
    ((hostBase - page * PAGE) % TWO_64 + 1) % TWO_64
  }

  /** The pointer a nonzero encoded bias gives for an address: (encodedBias - 1) + address. */
  function Biased(encoded: nat, address: nat): nat
    requires encoded != 0
  {
    (encoded - 1 + address) % TWO_64
  }

  predicate FullWithSuccessor(table: seq<PageEntry>, page: nat)
    requires |table| == PAGES && page < PAGES
  {
    && page + 1 < PAGES
    && table[page].base != 0 && table[page].limit == PAGE
    && table[page + 1].base != 0 && table[page + 1].limit >= MAX_SCALAR - 1
    && table[page + 1].base == table[page].base + PAGE
  }

  /** g_fullPageBias: full pages whose successor continues them for at least seven bytes. */
  function FullBias(table: seq<PageEntry>, page: nat): nat
    requires |table| == PAGES && page < PAGES
  {
    if FullWithSuccessor(table, page) then Encode(table[page].base, page) else 0
  }

  ghost predicate TableOf(regions: seq<Region>, table: seq<PageEntry>) {
    |table| == PAGES && forall page | 0 <= page < PAGES :: table[page] == EntryFor(regions, page)
  }

  lemma BiasedPointer(hostBase: nat, page: nat, offset: nat)
    requires hostBase + offset < TWO_64 && Encode(hostBase, page) != 0 && page < PAGES
    ensures Biased(Encode(hostBase, page), page * PAGE + offset) == hostBase + offset
  {
    var bias := (hostBase - page * PAGE) % TWO_64;
    assert bias + 1 < TWO_64 ==> Encode(hostBase, page) == bias + 1;
    assert bias + 1 == TWO_64 ==> Encode(hostBase, page) == 0;
    if hostBase >= page * PAGE {
      assert bias == hostBase - page * PAGE;
    } else {
      assert bias == hostBase - page * PAGE + TWO_64;
    }
  }

  /** Any access of up to eight bytes that starts in a biased page goes to the right host bytes. */
  lemma BiasBacks(regions: seq<Region>, table: seq<PageEntry>, address: nat, length: nat)
    requires LayoutOk(regions) && TableOf(regions, table)
    requires address < ADDRESSES && length <= MAX_SCALAR
    requires FullBias(table, address / PAGE) != 0
    ensures Backs(regions, address, length, Biased(FullBias(table, address / PAGE), address))
  {
    var page, offset := address / PAGE, address % PAGE;
    var e, next := table[page], table[page + 1];
    EntryBacks(regions, page);
    EntryBacks(regions, page + 1);
    BiasedPointer(e.base, page, offset);
    forall b | address <= b < address + length
      ensures Mapped(regions, b) && HostOf(regions, b) == e.base + offset + (b - address)
    {
      assert b < (page + 1) * PAGE || (page + 1) * PAGE <= b < (page + 1) * PAGE + next.limit;
    }
  }

  /** The access starts in a mapped page and stays inside the page's entry. */
  predicate InEntry(table: seq<PageEntry>, address: Address, length: nat)
    requires |table| == PAGES
  {
    table[address / PAGE].base != 0 && address % PAGE + length <= table[address / PAGE].limit
  }

  /** What TryGetPointerFast accepts: a scalar that starts in a biased page, or a range inside a page entry. */
  predicate PointerFound(table: seq<PageEntry>, address: Address, length: nat)
    requires |table| == PAGES
  {
    (length <= MAX_SCALAR && FullBias(table, address / PAGE) != 0) || InEntry(table, address, length)
  }

  /** Every byte it accepts is mapped by the table. */
  lemma FoundBytesReached(table: seq<PageEntry>, address: Address, length: nat, a: Address)
    requires |table| == PAGES && (forall page | 0 <= page < PAGES :: table[page].limit <= PAGE)
    requires PointerFound(table, address, length) && address <= a < address + length
    ensures InEntry(table, a, 1)
  {
    var page := address / PAGE;
    if a / PAGE != page {
      assert length <= MAX_SCALAR && FullWithSuccessor(table, page);
      assert a / PAGE == page + 1 && a % PAGE < MAX_SCALAR - 1;
    }
  }

  /** So it stays in one page. */
  lemma InEntryFits(regions: seq<Region>, table: seq<PageEntry>, address: Address, length: nat)
    requires LayoutOk(regions) && TableOf(regions, table) && 0 < length && InEntry(table, address, length)
    ensures address + length <= ADDRESSES && address / PAGE == (address + length - 1) / PAGE
  {
    EntryBacks(regions, address / PAGE);
  }

  /** A checked access inside a page entry goes to the right host bytes. */
  lemma EntryAccessBacks(regions: seq<Region>, table: seq<PageEntry>, address: nat, length: nat)
    requires LayoutOk(regions) && TableOf(regions, table) && address < ADDRESSES
    requires InEntry(table, address, length)
    ensures Backs(regions, address, length, table[address / PAGE].base + address % PAGE)
  {
    EntryBacks(regions, address / PAGE);
  }

  // ---------- the tables against the regions ----------

  /** Regions start on pages, as all of the console's do. */
  predicate Aligned(regions: seq<Region>) {
    forall i | 0 <= i < |regions| :: regions[i].base % PAGE == 0
  }

  /** A region that holds a byte holds the start of the byte's page. */
  lemma AlignedCoversPage(r: Region, a: nat)
    requires r.base % PAGE == 0 && InRegion(r, a)
    ensures InRegion(r, a / PAGE * PAGE) && CoversPage(r, a / PAGE)
  {
  }

  /** A page's entry reaches exactly the bytes of the page that are mapped. */
  lemma EntryReachesExactly(regions: seq<Region>, page: nat, k: nat)
    requires LayoutOk(regions) && Aligned(regions) && k < PAGE
    ensures EntryFor(regions, page).base != 0 && k < EntryFor(regions, page).limit <==>
            Mapped(regions, page * PAGE + k)
    ensures Mapped(regions, page * PAGE + k) ==>
              Mapped(regions, page * PAGE) && EntryFor(regions, page).base == HostOf(regions, page * PAGE)
  {
    var e, a := EntryFor(regions, page), page * PAGE + k;
    assert a / PAGE == page;
    if e.base != 0 && k < e.limit {
      EntryBacks(regions, page);
    }
    if Mapped(regions, a) {
      var i :| 0 <= i < |regions| && InRegion(regions[i], a);
      AlignedCoversPage(regions[i], a);
      EntryOfRegion(regions, i, page);
      HostOfRegion(regions, i, page * PAGE);
      assert RegionOk(regions[i]);
    }
  }

  /** What InEntry says of guest memory: the access stays in one page and every byte of it is mapped. */
  lemma InEntryExactly(regions: seq<Region>, table: seq<PageEntry>, address: Address, n: nat)
    requires LayoutOk(regions) && Aligned(regions) && TableOf(regions, table) && 0 < n
    ensures InEntry(table, address, n) <==>
              address % PAGE + n <= PAGE && forall b | address <= b < address + n :: Mapped(regions, b)
  {
    var page, offset := address / PAGE, address % PAGE;
    if InEntry(table, address, n) {
      EntryBacks(regions, page);
      forall b | address <= b < address + n
        ensures Mapped(regions, b)
      {
        EntryReachesExactly(regions, page, b - page * PAGE);
      }
    }
    if offset + n <= PAGE && forall b | address <= b < address + n :: Mapped(regions, b) {
      assert Mapped(regions, address + n - 1);
      EntryReachesExactly(regions, page, offset + n - 1);
    }
  }

  /** The page and the seven bytes after it lie at consecutive host bytes. */
  ghost predicate Continued(regions: seq<Region>, page: nat) {
    Mapped(regions, page * PAGE) && Backs(regions, page * PAGE, PAGE + 7, HostOf(regions, page * PAGE))
  }

  /**
    The pages fast accesses may start in. The one continued page left out is a page whose host address
    is its own guest address less one: its encoded bias would be zero.
   */
  ghost predicate FastPage(regions: seq<Region>, page: nat) {
    Continued(regions, page) && HostOf(regions, page * PAGE) + 1 != page * PAGE
  }

  /** What a full bias says of guest memory. */
  lemma FullBiasExactly(regions: seq<Region>, table: seq<PageEntry>, page: nat)
    requires LayoutOk(regions) && Aligned(regions) && TableOf(regions, table) && page < PAGES
    ensures FullBias(table, page) != 0 <==> FastPage(regions, page)
  {
    if FullWithSuccessor(table, page) {
      SuccessorContinues(regions, table, page);
      EncodeIsZeroExactly(table[page].base, page);
    }
    if Continued(regions, page) {
      ContinuedIsFull(regions, table, page);
      EncodeIsZeroExactly(table[page].base, page);
    }
  }

  lemma EncodeIsZeroExactly(hostBase: nat, page: nat)
    requires hostBase + PAGE <= TWO_64 && page < PAGES
    ensures Encode(hostBase, page) == 0 <==> hostBase + 1 == page * PAGE
  {
    var bias := (hostBase - page * PAGE) % TWO_64;
    assert bias + 1 < TWO_64 ==> Encode(hostBase, page) == bias + 1;
    assert bias + 1 == TWO_64 ==> Encode(hostBase, page) == 0;
    if hostBase >= page * PAGE {
      assert bias == hostBase - page * PAGE;
    } else {
      assert bias == hostBase - page * PAGE + TWO_64;
    }
  }

  lemma SuccessorContinues(regions: seq<Region>, table: seq<PageEntry>, page: nat)
    requires LayoutOk(regions) && Aligned(regions) && TableOf(regions, table) && page < PAGES
    requires FullWithSuccessor(table, page)
    ensures Continued(regions, page) && table[page].base == HostOf(regions, page * PAGE) < TWO_64
  {
    EntryBacks(regions, page);
    EntryBacks(regions, page + 1);
    EntryReachesExactly(regions, page, 0);
    forall b | page * PAGE <= b < page * PAGE + PAGE + 7
      ensures Mapped(regions, b) && HostOf(regions, b) == table[page].base + (b - page * PAGE)
    {
      if b >= (page + 1) * PAGE {
        assert HostOf(regions, b) == table[page + 1].base + (b - (page + 1) * PAGE);
      }
    }
  }

  lemma ContinuedIsFull(regions: seq<Region>, table: seq<PageEntry>, page: nat)
    requires LayoutOk(regions) && Aligned(regions) && TableOf(regions, table) && page < PAGES
    requires Continued(regions, page)
    ensures FullWithSuccessor(table, page) && table[page].base == HostOf(regions, page * PAGE) < TWO_64
  {
    EntryReachesExactly(regions, page, PAGE - 1);
    EntryReachesExactly(regions, page + 1, 0);
    EntryReachesExactly(regions, page + 1, 6);
    EntryBacks(regions, page);
    assert Mapped(regions, page * PAGE + PAGE - 1);
    var next := (page + 1) * PAGE;
    assert Mapped(regions, next) && HostOf(regions, next) == HostOf(regions, page * PAGE) + PAGE;
    assert Mapped(regions, (page + 1) * PAGE + 6);
  }

  /** A scalar that starts in a fast page, or mapped bytes of one page. */
  ghost predicate Reached(regions: seq<Region>, address: Address, n: nat) {
    || (n <= 8 && FastPage(regions, address / PAGE))
    || (address % PAGE + n <= PAGE && forall b | address <= b < address + n :: Mapped(regions, b))
  }

  /** What the pointer path finds. */
  lemma PointerFoundExactly(regions: seq<Region>, table: seq<PageEntry>, address: Address, n: nat)
    requires LayoutOk(regions) && Aligned(regions) && TableOf(regions, table) && 0 < n
    ensures PointerFound(table, address, n) <==> Reached(regions, address, n)
  {
    FullBiasExactly(regions, table, address / PAGE);
    InEntryExactly(regions, table, address, n);
  }
}
