/**
  The fast guest-memory paths (memory_access.h), the tables they read and the code that builds and
  maintains those tables (memory.cpp, recomp_mod_loader.cpp).
 */
module FastMemory {
  import opened ByteOrder
  import opened FlatRange
  import opened GuestLayout
  import opened GuestMemory
  import opened MachineTypes
  import opened MainMemory
  import opened WriteGuard

  /** A mixed page's own table of 256 encoded biases, or none. */
  datatype SparseTable = NoTable | Table(encodedBias: seq<Uint64>)

  datatype DeferredRead = DeferredRead(token: nat, start: nat, length: nat)

  ghost predicate DeferredOn(ds: seq<DeferredRead>, page: nat) {
    exists i :: 0 <= i < |ds| && RangesOverlap(page * PAGE, PAGE, ds[i].start, ds[i].length)
  }

  ghost predicate ReadsOk(ds: seq<DeferredRead>) {
    forall i | 0 <= i < |ds| :: 0 < ds[i].length && ds[i].start + ds[i].length <= ADDRESSES
  }

  lemma DeferredOnPrefix(ds: seq<DeferredRead>, i: nat, page: nat)
    requires i < |ds|
    ensures DeferredOn(ds[..i + 1], page) <==>
            DeferredOn(ds[..i], page) || RangesOverlap(page * PAGE, PAGE, ds[i].start, ds[i].length)
  {
    assert ds[..i + 1][i] == ds[i];
    if DeferredOn(ds[..i], page) {
      var k :| 0 <= k < i && RangesOverlap(page * PAGE, PAGE, ds[..i][k].start, ds[..i][k].length);
      assert ds[..i + 1][k] == ds[..i][k];
    }
    if DeferredOn(ds[..i + 1], page) {
      var k :| 0 <= k < i + 1 && RangesOverlap(page * PAGE, PAGE, ds[..i + 1][k].start, ds[..i + 1][k].length);
      if k < i {
        assert ds[..i + 1][k] == ds[..i][k];
      }
    }
  }

  /** The pages firstPage..lastPage of a range are exactly those it overlaps. */
  lemma PagesOfRange(start: nat, length: nat, page: nat)
    requires 0 < length
    ensures start / PAGE <= page <= (start + length - 1) / PAGE <==>
            RangesOverlap(page * PAGE, PAGE, start, length)
  {
  }

  /** A mixed page's sparse table: the page's bias on data sub-pages, nothing on executable ones. */
  function SparseFor(marks: seq<bool>, coarse: bool, bias: Uint64, page: nat): SparseTable
    requires |marks| == GUARD_PAGES && page < PAGES
  {
    var own := marks[page * SUBPAGES..(page + 1) * SUBPAGES];
    if coarse && bias != 0 && true in own && false in own
    then Table(seq(SUBPAGES, sub requires 0 <= sub < SUBPAGES => if own[sub] then 0 else bias))
    else NoTable
  }

  lemma SubpageOf(address: Address)
    ensures address / SUBPAGE / 256 == address / PAGE
    ensures address / PAGE * SUBPAGES + address % PAGE / SUBPAGE == address / SUBPAGE
  {
  }

  /**
    What the write tables say about the page of an address once they are up to date: a bias is to be
    had exactly where the page of the byte is unmarked, if the page has one at all.
   */
  lemma WritablePage(marks: seq<bool>, coarse: bool, full: Uint64, address: Address)
    requires |marks| == GUARD_PAGES && (marks[address / SUBPAGE] ==> coarse)
    requires var page := address / PAGE;
      coarse ==> exists p :: page * SUBPAGES <= p < (page + 1) * SUBPAGES && marks[p]
    ensures var table := SparseFor(marks, coarse, full, address / PAGE);
      && (coarse && table.Table? ==>
            full != 0 && (table.encodedBias[address % PAGE / SUBPAGE] != 0 <==> !marks[address / SUBPAGE]))
      && (coarse && table.NoTable? && full != 0 ==> marks[address / SUBPAGE])
      && (!coarse ==> table.NoTable? && !marks[address / SUBPAGE])
  {
    var page, sub := address / PAGE, address % PAGE / SUBPAGE;
    var own := marks[page * SUBPAGES..(page + 1) * SUBPAGES];
    assert own[sub] == marks[address / SUBPAGE];
    if coarse {
      var p :| page * SUBPAGES <= p < (page + 1) * SUBPAGES && marks[p];
      assert own[p - page * SUBPAGES];
    }
  }

  /** The reads a range meets, in order, and the reads it does not. */
  function Inside(ds: seq<DeferredRead>, address: nat, length: nat): seq<DeferredRead> {
    if ds == [] then []
    else
      var d := ds[|ds| - 1];
      Inside(ds[..|ds| - 1], address, length) + if RangesOverlap(address, length, d.start, d.length) then [d] else []
  }

  function Outside(ds: seq<DeferredRead>, address: nat, length: nat): seq<DeferredRead> {
    if ds == [] then []
    else
      var d := ds[|ds| - 1];
      Outside(ds[..|ds| - 1], address, length) + if RangesOverlap(address, length, d.start, d.length) then [] else [d]
  }

  lemma {:induction false} SplitKeepsReads(ds: seq<DeferredRead>, address: nat, length: nat)
    requires ReadsOk(ds)
    ensures ReadsOk(Inside(ds, address, length)) && ReadsOk(Outside(ds, address, length))
    ensures forall page :: DeferredOn(ds, page) <==>
      DeferredOn(Inside(ds, address, length), page) || DeferredOn(Outside(ds, address, length), page)
    ensures forall d | d in Outside(ds, address, length) :: !RangesOverlap(address, length, d.start, d.length)
  {
    if ds == [] {
    } else {
      var n := |ds| - 1;
      SplitKeepsReads(ds[..n], address, length);
      var inside, outside := Inside(ds, address, length), Outside(ds, address, length);
      var i, o := Inside(ds[..n], address, length), Outside(ds[..n], address, length);
      forall page
        ensures DeferredOn(ds, page) <==> DeferredOn(inside, page) || DeferredOn(outside, page)
      {
        DeferredOnPrefix(ds, n, page);
        assert ds[..n + 1] == ds;
        if RangesOverlap(address, length, ds[n].start, ds[n].length) {
          DeferredOnPrefix(inside, |i|, page);
          assert inside[..|i|] == i && inside[..|i| + 1] == inside && outside == o;
        } else {
          DeferredOnPrefix(outside, |o|, page);
          assert outside[..|o|] == o && outside[..|o| + 1] == outside && inside == i;
        }
      }
    }
  }

  ghost predicate TouchesDeferred(ds: seq<DeferredRead>, address: nat, length: nat) {
    exists i :: 0 <= i < |ds| && RangesOverlap(address, length, ds[i].start, ds[i].length)
  }

  /**
    The readable table is asked only for the page of the first byte. So an accepted read meets
    pending deferred content exactly when it runs over into the next page and meets it there.
   */
  lemma DeferredMissedExactly(ds: seq<DeferredRead>, address: Address, n: nat)
    requires ReadsOk(ds) && 0 < n <= MAX_SCALAR && !DeferredOn(ds, address / PAGE)
    ensures var next := (address / PAGE + 1) * PAGE;
      TouchesDeferred(ds, address, n) <==> next < address + n && TouchesDeferred(ds, next, address + n - next)
  {
    var next := (address / PAGE + 1) * PAGE;
    if TouchesDeferred(ds, address, n) {
      var i :| 0 <= i < |ds| && RangesOverlap(address, n, ds[i].start, ds[i].length);
      assert !RangesOverlap(address / PAGE * PAGE, PAGE, ds[i].start, ds[i].length);
      assert RangesOverlap(next, address + n - next, ds[i].start, ds[i].length);
    }
    if next < address + n && TouchesDeferred(ds, next, address + n - next) {
      var i :| 0 <= i < |ds| && RangesOverlap(next, address + n - next, ds[i].start, ds[i].length);
      assert RangesOverlap(address, n, ds[i].start, ds[i].length);
    }
  }

  // Two pages of guest memory at a host address, and one deferred byte at the start of the second.
  const TWO_PAGES := [Region(0, PAGE, 2 * PAGE)]
  const ONE_BYTE := DeferredRead(1, PAGE, 1)

  lemma TwoPagesFit()
    ensures LayoutOk(TWO_PAGES)
    ensures forall table :: TableOf(TWO_PAGES, table) ==> FullBias(table, 0) == PAGE + 1
  {
    forall table | TableOf(TWO_PAGES, table)
      ensures FullBias(table, 0) == PAGE + 1
    {
      assert table[0] == EntryFor(TWO_PAGES, 0) == PageEntry(PAGE, PAGE);
      assert table[1] == EntryFor(TWO_PAGES, 1) == PageEntry(2 * PAGE, PAGE);
    }
  }

  lemma DeferredByte()
    ensures ReadsOk([ONE_BYTE]) && !DeferredOn([ONE_BYTE], (PAGE - 4) / PAGE)
    ensures TouchesDeferred([ONE_BYTE], PAGE - 4, 8)
  {
    assert RangesOverlap(PAGE - 4, 8, [ONE_BYTE][0].start, [ONE_BYTE][0].length);
  }

  /** Such a read is accepted: eight bytes from four before a page whose first byte is deferred. */
  lemma DeferredMissedAcrossPages() returns (table: seq<PageEntry>)
    ensures LayoutOk(TWO_PAGES) && TableOf(TWO_PAGES, table) && ReadsOk([ONE_BYTE])
    // what TryReadGuestScalar asks
    ensures FullBias(table, (PAGE - 4) / PAGE) != 0 && !DeferredOn([ONE_BYTE], (PAGE - 4) / PAGE)
    ensures TouchesDeferred([ONE_BYTE], PAGE - 4, 8)
  {
    TwoPagesFit();
    DeferredByte();
    table := seq(PAGES, page requires 0 <= page < PAGES => EntryFor(TWO_PAGES, page));
  }

  class FastMemory {
    // The write guard: three levels of marks over the guest address space.
    var guardEnabled: bool
    const guardPages: array<bool>        // 4 KiB
    const guardMidPages: array<bool>     // 64 KiB
    const guardCoarsePages: array<bool>  // 1 MiB
    var executableRanges: seq<ExecutableRange>

    // The page tables.
    var regions: seq<Region>
    const pageTable: array<PageEntry>
    const fullBias: array<Uint64>
    const readableBias: array<Uint64>
    const writableBias: array<Uint64>
    const sparse: array<SparseTable>
    const deferredCovered: array<bool>

    var deferredReads: seq<DeferredRead>
    var nextToken: Uint64

    /** Host memory, by host address. */
    var host: map<nat, Byte>

    ghost predicate Shape() {
      && guardPages.Length == GUARD_PAGES && guardMidPages.Length == MID_PAGES && guardCoarsePages.Length == PAGES
      && pageTable.Length == PAGES && fullBias.Length == PAGES && readableBias.Length == PAGES
      && writableBias.Length == PAGES && sparse.Length == PAGES && deferredCovered.Length == PAGES
      && guardPages != guardMidPages && guardPages != guardCoarsePages && guardPages != deferredCovered
      && guardMidPages != guardCoarsePages && guardMidPages != deferredCovered
      && guardCoarsePages != deferredCovered
      && fullBias != readableBias && fullBias != writableBias && readableBias != writableBias
    }

    /** Every mark shows on the levels above it. */
    ghost predicate Hierarchical()
      requires Shape()
      reads guardPages, guardMidPages, guardCoarsePages
    {
      forall p | 0 <= p < GUARD_PAGES && guardPages[p] :: guardMidPages[p / 16] && guardCoarsePages[p / 256]
    }

    /** The marked pages are those the registered ranges meet, and the guard is on as soon as there is one. */
    ghost predicate RangesShown()
      requires Shape()
      reads `executableRanges, `guardEnabled, guardPages, guardCoarsePages
    {
      && MarksOf(guardPages[..], executableRanges)
      && (forall c | 0 <= c < PAGES && guardCoarsePages[c] :: AnyIntersects(executableRanges, c * PAGE, PAGE))
      && (forall r | r in executableRanges :: r.start < r.end)
      && (guardEnabled <==> executableRanges != [])
    }

    ghost predicate Built()
      requires Shape()
      reads `regions, pageTable, fullBias
    {
      && LayoutOk(regions) && TableOf(regions, pageTable[..])
      && forall page | 0 <= page < PAGES :: fullBias[page] == FullBias(pageTable[..], page)
    }

    ghost predicate ReadableAgrees()
      requires Shape()
      reads `deferredReads, fullBias, readableBias, deferredCovered
    {
      && ReadsOk(deferredReads)
      && forall page | 0 <= page < PAGES ::
           && deferredCovered[page] == DeferredOn(deferredReads, page)
           && readableBias[page] == if DeferredOn(deferredReads, page) then 0 else fullBias[page]
    }

    ghost predicate WritableAgrees()
      requires Shape()
      reads fullBias, writableBias, guardCoarsePages, sparse
    {
      && (forall page | 0 <= page < PAGES ::
            writableBias[page] == if guardCoarsePages[page] then 0 else fullBias[page])
      && (forall page | 0 <= page < PAGES && sparse[page].Table? ::
            && |sparse[page].encodedBias| == SUBPAGES
            && forall sub | 0 <= sub < SUBPAGES ::
                 sparse[page].encodedBias[sub] == 0 || sparse[page].encodedBias[sub] == fullBias[page])
    }

    /** Every mapped host byte is there to be read. */
    ghost predicate Backed()
      reads `regions, `host
    {
      forall i, a: nat | 0 <= i < |regions| && regions[i].storage <= a < regions[i].storage + regions[i].size ::
        a in host
    }

    ghost predicate TablesAgree()
      reads this, guardPages, guardMidPages, guardCoarsePages, pageTable, fullBias, readableBias, writableBias,
            sparse, deferredCovered
    {
      Shape() && Hierarchical() && Built() && ReadableAgrees() && WritableAgrees() && Backed()
    }

    ghost predicate Valid()
      reads this, guardPages, guardMidPages, guardCoarsePages, pageTable, fullBias, readableBias, writableBias,
            sparse, deferredCovered
    {
      TablesAgree() && RangesShown()
    }

    /** The sparse tables are up to date: true except while a registration is under way. */
    ghost predicate Settled()
      requires Shape()
      reads guardPages, guardCoarsePages, fullBias, sparse
    {
      forall page | 0 <= page < PAGES ::
        sparse[page] == SparseFor(guardPages[..], guardCoarsePages[page], fullBias[page], page)
    }

    constructor ()
      ensures Shape() && fresh(guardPages) && fresh(guardMidPages) && fresh(guardCoarsePages)
      ensures fresh(pageTable) && fresh(fullBias) && fresh(readableBias) && fresh(writableBias)
      ensures fresh(sparse) && fresh(deferredCovered)
      ensures Valid() && Settled() && regions == [] && deferredReads == [] && executableRanges == []
    {
      guardEnabled := false;
      executableRanges := [];
      guardPages := new bool[GUARD_PAGES](_ => false);
      guardMidPages := new bool[MID_PAGES](_ => false);
      guardCoarsePages := new bool[PAGES](_ => false);
      regions := [];
      pageTable := new PageEntry[PAGES](_ => NO_ENTRY);
      fullBias := new Uint64[PAGES](_ => 0);
      readableBias := new Uint64[PAGES](_ => 0);
      writableBias := new Uint64[PAGES](_ => 0);
      sparse := new SparseTable[PAGES](_ => NoTable);
      deferredCovered := new bool[PAGES](_ => false);
      deferredReads := [];
      nextToken := 1;
      host := map[];
      new;
      EmptyIsValid();
    }

    /** Without regions, marks and deferred reads, tables that say so agree with them. */
    lemma EmptyIsValid()
      requires Shape() && regions == [] && deferredReads == [] && executableRanges == [] && !guardEnabled
      requires forall p | 0 <= p < GUARD_PAGES :: !guardPages[p]
      requires forall page | 0 <= page < PAGES :: !guardCoarsePages[page]
      requires forall page | 0 <= page < PAGES :: pageTable[page] == NO_ENTRY && fullBias[page] == 0
      requires forall page | 0 <= page < PAGES :: readableBias[page] == 0 && writableBias[page] == 0
      requires forall page | 0 <= page < PAGES :: sparse[page] == NoTable && !deferredCovered[page]
      ensures Valid() && Settled()
    {
      assert forall page | 0 <= page < PAGES :: pageTable[..][page] == NO_ENTRY;
      assert Built();
    }

    // ---------- building the tables ----------

    method ClearPageTable()
      requires Shape()
      modifies pageTable, fullBias, readableBias, writableBias, sparse, deferredCovered
      ensures forall page | 0 <= page < PAGES ::
        && pageTable[page] == NO_ENTRY && fullBias[page] == 0 && readableBias[page] == 0
        && writableBias[page] == 0 && !deferredCovered[page] && sparse[page] == NoTable
    {
      for i := 0 to PAGES
        invariant forall page | 0 <= page < i ::
          && pageTable[page] == NO_ENTRY && fullBias[page] == 0 && readableBias[page] == 0
          && writableBias[page] == 0 && !deferredCovered[page] && sparse[page] == NoTable
      {
        pageTable[i] := NO_ENTRY;
        fullBias[i] := 0;
        readableBias[i] := 0;
        writableBias[i] := 0;
        deferredCovered[i] := false;
        sparse[i] := NoTable;
      }
    }

    method BuildPageTable()
      requires Shape() && LayoutOk(regions)
      requires forall page | 0 <= page < PAGES :: pageTable[page] == NO_ENTRY && fullBias[page] == 0
      modifies pageTable, fullBias
      ensures Built()
    {
      for i := 0 to |regions|
        invariant forall page | 0 <= page < PAGES :: fullBias[page] == 0
        invariant forall page | 0 <= page < PAGES :: pageTable[page] == EntryFor(regions[..i], page)
      {
        var r := regions[i];
        assert RegionOk(r);
        assert regions[..i + 1][..i] == regions[..i];
        if r.size != 0 {
          var startPage, endPage := r.base / PAGE, (r.base + r.size - 1) / PAGE;
          for page := startPage to endPage + 1
            invariant forall p | 0 <= p < PAGES :: fullBias[p] == 0
            invariant forall p | 0 <= p < PAGES ::
              pageTable[p] == if p < page then EntryFor(regions[..i + 1], p) else EntryFor(regions[..i], p)
          {
            // pageBase - base wraps below the region's start and then exceeds its size
            if CoversPage(r, page) {
              pageTable[page] := EntryOf(r, page);
            }
          }
        }
      }
      assert regions[..|regions|] == regions;
      ghost var table := pageTable[..];
      for page := 0 to PAGES - 1
        invariant pageTable[..] == table
        invariant forall p | 0 <= p < page :: fullBias[p] == FullBias(pageTable[..], p)
        invariant forall p | page <= p < PAGES :: fullBias[p] == 0
      {
        var current, next := pageTable[page], pageTable[page + 1];
        if !(current.base == 0 || current.limit != PAGE || next.base == 0 || next.limit < MAX_SCALAR - 1
             || next.base != current.base + PAGE)
        {
          fullBias[page] := Encode(current.base, page);
        }
      }
    }

    method RefreshFastPathTables()
      requires Shape() && Built() && ReadsOk(deferredReads)
      modifies readableBias, writableBias, sparse, deferredCovered
      ensures ReadableAgrees() && WritableAgrees() && Settled()
    {
      for page := 0 to PAGES
        invariant forall p | 0 <= p < page ::
          && readableBias[p] == fullBias[p] && !deferredCovered[p]
          && writableBias[p] == (if guardCoarsePages[p] then 0 else fullBias[p])
          && sparse[p] == SparseFor(guardPages[..], guardCoarsePages[p], fullBias[p], p)
      {
        var bias := fullBias[page];
        readableBias[page] := bias;
        deferredCovered[page] := false;
        sparse[page] := NoTable;
        var coarseExecutable := guardCoarsePages[page];
        writableBias[page] := if coarseExecutable then 0 else bias;
        if coarseExecutable && bias != 0 {
          sparse[page] := BuildSparseTable(page, bias);
        }
      }
      label Refreshed:
      for i := 0 to |deferredReads|
        invariant forall p | 0 <= p < PAGES ::
          && deferredCovered[p] == DeferredOn(deferredReads[..i], p)
          && readableBias[p] == if DeferredOn(deferredReads[..i], p) then 0 else fullBias[p]
        invariant writableBias[..] == old@Refreshed(writableBias[..]) && sparse[..] == old@Refreshed(sparse[..])
      {
        CoverPages(deferredReads[i]);
        forall p | 0 <= p < PAGES
          ensures DeferredOn(deferredReads[..i + 1], p) <==>
                  DeferredOn(deferredReads[..i], p)
                  || RangesOverlap(p * PAGE, PAGE, deferredReads[i].start, deferredReads[i].length)
        {
          DeferredOnPrefix(deferredReads, i, p);
        }
      }
      assert deferredReads[..|deferredReads|] == deferredReads;
      assert forall p | 0 <= p < PAGES :: sparse[p] == sparse[..][p] && writableBias[p] == writableBias[..][p];
    }

    method BuildSparseTable(page: nat, bias: Uint64) returns (table: SparseTable)
      requires Shape() && page < PAGES && bias != 0
      ensures table == SparseFor(guardPages[..], true, bias, page)
    {
      ghost var own := guardPages[page * SUBPAGES..(page + 1) * SUBPAGES];
      var encoded: seq<Uint64> := [];
      var hasExecutableSubPage, hasWritableSubPage := false, false;
      for subPage := 0 to SUBPAGES
        invariant |encoded| == subPage
        invariant forall s | 0 <= s < subPage :: encoded[s] == if own[s] then 0 else bias
        invariant hasExecutableSubPage <==> true in own[..subPage]
        invariant hasWritableSubPage <==> false in own[..subPage]
      {
        var executable := guardPages[page * SUBPAGES + subPage];
        assert own[..subPage + 1] == own[..subPage] + [executable];
        hasExecutableSubPage := hasExecutableSubPage || executable;
        hasWritableSubPage := hasWritableSubPage || !executable;
        encoded := encoded + [if executable then 0 else bias];
      }
      assert own[..SUBPAGES] == own && guardPages[..][page * SUBPAGES..(page + 1) * SUBPAGES] == own;
      table := if hasExecutableSubPage && hasWritableSubPage then Table(encoded) else NoTable;
    }

    /** Takes the pages of one deferred read out of the readable table. */
    method CoverPages(d: DeferredRead)
      requires Shape() && 0 < d.length && d.start + d.length <= ADDRESSES
      modifies readableBias, deferredCovered
      ensures forall p | 0 <= p < PAGES ::
        if RangesOverlap(p * PAGE, PAGE, d.start, d.length)
        then readableBias[p] == 0 && deferredCovered[p]
        else readableBias[p] == old(readableBias[p]) && deferredCovered[p] == old(deferredCovered[p])
    {
      var firstPage, lastPage := d.start / PAGE, (d.start + d.length - 1) / PAGE;
      for page := firstPage to lastPage + 1
        invariant forall p | 0 <= p < PAGES ::
          if firstPage <= p < page
          then readableBias[p] == 0 && deferredCovered[p]
          else readableBias[p] == old(readableBias[p]) && deferredCovered[p] == old(deferredCovered[p])
      {
        readableBias[page] := 0;
        deferredCovered[page] := true;
      }
      forall p | 0 <= p < PAGES
        ensures firstPage <= p <= lastPage <==> RangesOverlap(p * PAGE, PAGE, d.start, d.length)
      {
        PagesOfRange(d.start, d.length, p);
      }
    }

    /** Memory::Init, given the host storage the flat reservation found for each region. */
    method Init(configured: seq<Region>)
      requires Shape() && Hierarchical() && RangesShown() && ReadsOk(deferredReads) && LayoutOk(configured)
      requires forall i, a: nat | 0 <= i < |configured|
                 && configured[i].storage <= a < configured[i].storage + configured[i].size :: a in host
      modifies this`regions, pageTable, fullBias, readableBias, writableBias, sparse, deferredCovered
      ensures Valid() && Settled() && regions == configured
    {
      ClearPageTable();
      regions := configured;
      BuildPageTable();
      RefreshFastPathTables();
    }

    // ---------- executable ranges ----------

    method MarkCoarsePages(first: nat, last: nat)
      requires Shape() && first <= last < PAGES
      modifies guardCoarsePages, writableBias
      ensures forall p | 0 <= p < PAGES ::
        && (guardCoarsePages[p] <==> old(guardCoarsePages[p]) || first <= p <= last)
        && writableBias[p] == if first <= p <= last then 0 else old(writableBias[p])
    {
      for page := first to last + 1
        invariant forall p | 0 <= p < PAGES ::
          && (guardCoarsePages[p] <==> old(guardCoarsePages[p]) || first <= p < page)
          && writableBias[p] == if first <= p < page then 0 else old(writableBias[p])
      {
        guardCoarsePages[page] := true;
        writableBias[page] := 0;
      }
    }

    method MarkExecutableGuardPages(start: Address, end: Address)
      requires TablesAgree()
      modifies guardPages, guardMidPages, guardCoarsePages, writableBias
      ensures TablesAgree()
      ensures forall p | 0 <= p < GUARD_PAGES ::
        guardPages[p] <==>
          old(guardPages[p]) || (start < end && RangesOverlap(p * SUBPAGE, SUBPAGE, start, end - start))
      ensures forall c | 0 <= c < PAGES ::
        guardCoarsePages[c] <==>
          old(guardCoarsePages[c]) || (start < end && RangesOverlap(c * PAGE, PAGE, start, end - start))
    {
      if end <= start { return; }
      MarkPages(guardPages, start / SUBPAGE, (end - 1) / SUBPAGE);
      MarkCoarsePages(start / PAGE, (end - 1) / PAGE);
      MarkPages(guardMidPages, start / MID_PAGE, (end - 1) / MID_PAGE);
    }

    /** AddExecutableRangeLocked. */
    method AddExecutableRange(r: ExecutableRange)
      requires Valid()
      modifies this`guardEnabled, this`executableRanges, guardPages, guardMidPages, guardCoarsePages, writableBias
      ensures Valid() && executableRanges == Added(old(executableRanges), r)
    {
      if r.end <= r.start || r in executableRanges { return; }
      ghost var before := executableRanges;
      executableRanges := executableRanges + [r];
      MarkExecutableGuardPages(r.start, r.end);
      guardEnabled := true;
      forall a: nat, n: nat
        ensures AnyIntersects(executableRanges, a, n) <==> AnyIntersects(before, a, n) || Intersects(a, n, r)
      {
        IntersectsOneMore(before, r, a, n);
      }
    }

    method AddViews(cached: nat, uncached: nat, size: nat, offset: nat, length: nat, name: string)
      requires Valid() && cached + size < ADDRESSES && uncached + size < ADDRESSES
      modifies this`guardEnabled, this`executableRanges, guardPages, guardMidPages, guardCoarsePages, writableBias
      ensures Valid()
      ensures executableRanges == AddedAll(old(executableRanges), ViewsOf(cached, uncached, size, offset, length, name))
    {
      if offset + length > size { return; }
      ghost var views := ViewsOf(cached, uncached, size, offset, length, name);
      AddedTwo(executableRanges, views[0], views[1]);
      AddExecutableRange(ExecutableRange(cached + offset, cached + offset + length, name + " [cached]"));
      AddExecutableRange(ExecutableRange(uncached + offset, uncached + offset + length, name + " [uncached]"));
    }

    method AddMem1Views(offset: nat, r: ExecutableRange)
      requires Valid() && r.start <= r.end
      modifies this`guardEnabled, this`executableRanges, guardPages, guardMidPages, guardCoarsePages, writableBias
      ensures Valid() && executableRanges == AddedAll(old(executableRanges), Mem1Views(offset, r))
    {
      AddViews(MEM1_CACHED, MEM1_UNCACHED, MEM1_SIZE, offset, r.end - r.start, r.name);
    }

    method AddMem1Aliases(r: ExecutableRange)
      requires Valid()
      modifies this`guardEnabled, this`executableRanges, guardPages, guardMidPages, guardCoarsePages, writableBias
      ensures Valid() && executableRanges == AddedAll(old(executableRanges), Mem1Aliases(r))
    {
      if r.end <= r.start { return; }
      if r.start < MEM1_SIZE && r.end <= MEM1_SIZE {
        AddMem1Views(r.start, r);
      } else if r.start >= MEM1_CACHED && r.end <= MEM1_CACHED + MEM1_SIZE {
        AddMem1Views(r.start - MEM1_CACHED, r);
      } else if r.start >= MEM1_UNCACHED && r.end <= MEM1_UNCACHED + MEM1_SIZE {
        AddMem1Views(r.start - MEM1_UNCACHED, r);
      }
    }

    method AddMem2Views(offset: nat, r: ExecutableRange)
      requires Valid() && r.start <= r.end
      modifies this`guardEnabled, this`executableRanges, guardPages, guardMidPages, guardCoarsePages, writableBias
      ensures Valid() && executableRanges == AddedAll(old(executableRanges), Mem2Views(offset, r))
    {
      AddViews(MEM2_CACHED, MEM2_UNCACHED, MEM2_SIZE, offset, r.end - r.start, r.name);
    }

    method AddMem2Aliases(r: ExecutableRange)
      requires Valid()
      modifies this`guardEnabled, this`executableRanges, guardPages, guardMidPages, guardCoarsePages, writableBias
      ensures Valid() && executableRanges == AddedAll(old(executableRanges), Mem2Aliases(r))
    {
      if r.end <= r.start { return; }
      if r.start >= MEM2_PHYSICAL && r.end <= MEM2_PHYSICAL + MEM2_SIZE {
        AddMem2Views(r.start - MEM2_PHYSICAL, r);
      } else if r.start >= MEM2_CACHED && r.end <= MEM2_CACHED + MEM2_SIZE {
        AddMem2Views(r.start - MEM2_CACHED, r);
      } else if r.start >= MEM2_UNCACHED && r.end <= MEM2_UNCACHED + MEM2_SIZE {
        AddMem2Views(r.start - MEM2_UNCACHED, r);
      }
    }

    /** The range as given and its cached and uncached views; the physical view only if that is what was given. */
    method RegisterExecutableRange(r: ExecutableRange)
      requires Valid() && Settled()
      modifies this`guardEnabled, this`executableRanges, guardPages, guardMidPages, guardCoarsePages, readableBias,
               writableBias, sparse, deferredCovered
      ensures Valid() && Settled()
      ensures executableRanges == Registered(old(executableRanges), r)
    {
      if r.end <= r.start { return; }
      ghost var before := executableRanges;
      AddExecutableRange(r);
      AddMem1Aliases(r);
      AddMem2Aliases(r);
      AddedInTurn(before, [r], Mem1Aliases(r));
      AddedInTurn(before, [r] + Mem1Aliases(r), Mem2Aliases(r));
      RefreshFastPathTables();
    }

    // ---------- deferred reads ----------

    method RegisterDeferredRead(start: nat, length: nat) returns (token: nat)
      requires Valid() && start < ADDRESSES
      modifies this`deferredReads, this`nextToken, readableBias, deferredCovered
      ensures Valid()
      ensures token == 0 <==> length == 0 || start + length > ADDRESSES
      ensures deferredReads == if token == 0 then old(deferredReads)
                               else old(deferredReads) + [DeferredRead(token, start, length)]
    {
      if length == 0 || start + length > ADDRESSES { return 0; }
      token := nextToken;
      nextToken := (nextToken + 1) % TWO_64;
      if token == 0 {
        token := nextToken;
        nextToken := (nextToken + 1) % TWO_64;
      }
      ghost var before := deferredReads;
      var d := DeferredRead(token, start, length);
      deferredReads := deferredReads + [d];
      CoverPages(d);
      forall p | 0 <= p < PAGES
        ensures DeferredOn(deferredReads, p) <==>
                DeferredOn(before, p) || RangesOverlap(p * PAGE, PAGE, start, length)
      {
        DeferredOnPrefix(deferredReads, |before|, p);
        assert deferredReads[..|before|] == before && deferredReads[..|before| + 1] == deferredReads;
      }
    }

    method RefreshDeferredReadPage(page: nat)
      requires Shape() && page < PAGES
      modifies readableBias, deferredCovered
      ensures deferredCovered[page] == DeferredOn(deferredReads, page)
      ensures readableBias[page] == if DeferredOn(deferredReads, page) then 0 else fullBias[page]
      ensures forall p | 0 <= p < PAGES && p != page ::
        readableBias[p] == old(readableBias[p]) && deferredCovered[p] == old(deferredCovered[p])
    {
      var covered := false;
      for i := 0 to |deferredReads|
        modifies {}
        invariant covered <==> DeferredOn(deferredReads[..i], page)
      {
        covered := covered || RangesOverlap(page * PAGE, PAGE, deferredReads[i].start, deferredReads[i].length);
        DeferredOnPrefix(deferredReads, i, page);
      }
      assert deferredReads[..|deferredReads|] == deferredReads;
      readableBias[page] := if covered then 0 else fullBias[page];
      deferredCovered[page] := covered;
    }

    /** Takes the reads that overlap a range off the list and gives their pages back. */
    method ResolveDeferredReads(address: nat, length: nat) returns (matches: seq<DeferredRead>)
      requires Valid()
      modifies this`deferredReads, readableBias, deferredCovered
      ensures Valid()
      ensures deferredReads == Outside(old(deferredReads), address, length)
      ensures matches == Inside(old(deferredReads), address, length)
    {
      var all := deferredReads;
      var rest: seq<DeferredRead> := [];
      matches := [];
      for i := 0 to |all|
        invariant rest == Outside(all[..i], address, length) && matches == Inside(all[..i], address, length)
      {
        assert all[..i + 1][..i] == all[..i];
        if RangesOverlap(address, length, all[i].start, all[i].length) {
          matches := matches + [all[i]];
        } else {
          rest := rest + [all[i]];
        }
      }
      assert all[..|all|] == all;
      SplitKeepsReads(all, address, length);
      deferredReads := rest;
      for i := 0 to |matches|
        invariant deferredReads == rest
        invariant forall p | 0 <= p < PAGES && !DeferredOn(matches[i..], p) ::
          && deferredCovered[p] == DeferredOn(rest, p)
          && readableBias[p] == if DeferredOn(rest, p) then 0 else fullBias[p]
      {
        RefreshPagesOf(matches, i);
      }
    }

    method RefreshPagesOf(matches: seq<DeferredRead>, i: nat)
      requires Shape() && i < |matches| && ReadsOk(matches)
      requires forall p | 0 <= p < PAGES && !DeferredOn(matches[i..], p) ::
        && deferredCovered[p] == DeferredOn(deferredReads, p)
        && readableBias[p] == if DeferredOn(deferredReads, p) then 0 else fullBias[p]
      modifies readableBias, deferredCovered
      ensures forall p | 0 <= p < PAGES && !DeferredOn(matches[i + 1..], p) ::
        && deferredCovered[p] == DeferredOn(deferredReads, p)
        && readableBias[p] == if DeferredOn(deferredReads, p) then 0 else fullBias[p]
    {
      var d := matches[i];
      var firstPage, lastPage := d.start / PAGE, (d.start + d.length - 1) / PAGE;
      for page := firstPage to lastPage + 1
        invariant forall p | 0 <= p < PAGES && (!DeferredOn(matches[i..], p) || firstPage <= p < page) ::
          && deferredCovered[p] == DeferredOn(deferredReads, p)
          && readableBias[p] == if DeferredOn(deferredReads, p) then 0 else fullBias[p]
      {
        RefreshDeferredReadPage(page);
      }
      forall p | 0 <= p < PAGES && DeferredOn(matches[i..], p) && !DeferredOn(matches[i + 1..], p)
        ensures firstPage <= p <= lastPage
      {
        assert forall k | 0 < k < |matches[i..]| :: matches[i..][k] == matches[i + 1..][k - 1];
        var k :| 0 <= k < |matches[i..]|
                 && RangesOverlap(p * PAGE, PAGE, matches[i..][k].start, matches[i..][k].length);
        PagesOfRange(d.start, d.length, p);
      }
    }

    // ---------- the write guard ----------

    /** Whether a write may touch executable memory, asked level by level from the coarsest. */
    method ExecutableWriteGuardMayHit(address: Address, length: Uint64) returns (hit: bool)
      requires Valid()
      ensures length == 0 ==> !hit
      ensures 0 < length && address + length <= TWO_64 ==>
        (hit <==> guardEnabled && Guarded(guardPages[..], address, length))
      // A sum beyond 64 bits wraps: then only a mark on the first page is seen, and only if the sum ends in it.
      ensures address + length > TWO_64 ==>
        (hit <==> guardEnabled && guardPages[address / SUBPAGE]
                  && (address + length - TWO_64 - 1) / SUBPAGE == address / SUBPAGE)
    {
      if length == 0 || !guardEnabled { return false; }
      PagesNest(address, length);
      PagesDecide(guardPages[..], address, length);
      var coarseHit := AnyMark(guardCoarsePages, address / PAGE, LastCoarsePage(address, length));
      if !coarseHit { return false; }
      var midHit := AnyMark(guardMidPages, address / MID_PAGE, LastMidPage(address, length));
      if !midHit { return false; }
      hit := AnyMark(guardPages, address / SUBPAGE, LastPage(address, length));
    }

    /** CheckExecutableWrite: whether a checked write is reported, the page filter asked first. */
    method CheckExecutableWrite(address: Address, length: Uint64) returns (forbidden: bool)
      requires Valid()
      ensures address + length <= TWO_64 ==>
        (forbidden <==> 0 < length && AnyIntersects(executableRanges, address, length))
    {
      if address + length <= TWO_64 && 0 < length && AnyIntersects(executableRanges, address, length) {
        FilterIsSound(guardPages[..], executableRanges, address, length);
      }
      var mayHit := ExecutableWriteGuardMayHit(address, length);
      if !mayHit { return false; }
      forbidden := FindExecutableRange(executableRanges, address, length);
    }

    // ---------- reading ----------

    lemma LoadedIsGuest(address: nat, n: nat, p: nat)
      requires Backed() && LayoutOk(regions) && Backs(regions, address, n, p)
      ensures forall a | p <= a < p + n :: a in host
      ensures GuestReadable(host, regions, address, n)
      ensures Loaded(host, p, n) == GuestBytes(host, regions, address, n)
    {
      forall b | address <= b < address + n
        ensures HostOf(regions, b) in host
      {
      }
      forall a | p <= a < p + n
        ensures a in host
      {
        assert HostOf(regions, address + (a - p)) == a;
      }
    }

    method TryGetPointerFast(address: Address, length: nat) returns (ok: bool, p: nat)
      requires Valid()
      ensures ok <==> PointerFound(pageTable[..], address, length)
      ensures ok ==> Backs(regions, address, length, p)
    {
      var page := address / PAGE;
      if length <= 8 {
        var encodedBias := fullBias[page];
        if encodedBias != 0 {
          BiasBacks(regions, pageTable[..], address, length);
          return true, Biased(encodedBias, address);
        }
      }
      var offset, entry := address % PAGE, pageTable[page];
      if entry.base == 0 || offset + length > entry.limit { return false, 0; }
      EntryAccessBacks(regions, pageTable[..], address, length);
      return true, entry.base + offset;
    }

    /** A native load of n bytes at p, swapped into guest order. */
    method LoadSwapped(p: nat, n: nat) returns (value: nat)
      requires forall a | p <= a < p + n :: a in host
      ensures value == BigEndian(Loaded(host, p, n)) && value < Span(n)
    {
      var bytes := Loaded(host, p, n);
      SwappedLoad(bytes);
      BigEndianRoundTrip(bytes);
      value := ByteSwap(n, LittleEndian(bytes));
    }

    method TryReadMappedScalar(address: Address, n: nat) returns (ok: bool, value: nat)
      requires Valid() && n in {1, 2, 4, 8}
      ensures ok <==> PointerFound(pageTable[..], address, n)
      ensures ok ==> GuestReadable(host, regions, address, n)
      ensures ok ==> value == BigEndian(GuestBytes(host, regions, address, n)) && value < Span(n)
    {
      var p;
      ok, p := TryGetPointerFast(address, n);
      value := 0;
      if ok {
        LoadedIsGuest(address, n, p);
        value := LoadSwapped(p, n);
      }
    }

    method TryReadGuestScalar(address: Address, n: nat) returns (ok: bool, value: nat)
      requires Valid() && n in {1, 2, 4, 8}
      ensures ok <==> fullBias[address / PAGE] != 0 && !DeferredOn(deferredReads, address / PAGE)
      ensures Aligned(regions) ==>
        (ok <==> FastPage(regions, address / PAGE) && !DeferredOn(deferredReads, address / PAGE))
      ensures ok ==> GuestReadable(host, regions, address, n)
      ensures ok ==> value == BigEndian(GuestBytes(host, regions, address, n)) && value < Span(n)
    {
      if Aligned(regions) { FullBiasExactly(regions, pageTable[..], address / PAGE); }
      var encodedBias := readableBias[address / PAGE];
      if encodedBias == 0 { return false, 0; }
      BiasBacks(regions, pageTable[..], address, n);
      var p := Biased(encodedBias, address);
      LoadedIsGuest(address, n, p);
      value := LoadSwapped(p, n);
      return true, value;
    }

    // ---------- writing ----------

    /** A short range, mapped from its first byte on, that meets no marked page. */
    ghost predicate PointerAccepted(address: Address, length: nat)
      requires Shape()
      reads guardPages, pageTable, fullBias
    {
      && 0 < length <= MAX_SCALAR && address + length <= ADDRESSES
      && (InEntry(pageTable[..], address, length) || fullBias[address / PAGE] != 0)
      && !Guarded(guardPages[..], address, length)
    }

    /** A biased page is mapped as a whole. */
    lemma BiasedIsFull(address: Address, length: nat)
      requires Shape() && Built() && fullBias[address / PAGE] != 0 && address % PAGE + length <= PAGE
      ensures InEntry(pageTable[..], address, length)
    {
    }

    /** The page tells whether an access that starts in it is guarded, and where it goes. */
    lemma WritableBias(address: Address, length: nat)
      requires Shape() && Hierarchical() && Built() && WritableAgrees()
      requires 0 < length <= MAX_SCALAR && address + length <= ADDRESSES && writableBias[address / PAGE] != 0
      ensures fullBias[address / PAGE] != 0
      ensures Guarded(guardPages[..], address, length) <==>
        (address + length - 1) / PAGE != address / PAGE && guardPages[(address + length - 1) / SUBPAGE]
      ensures Backs(regions, address, length, Biased(writableBias[address / PAGE], address))
    {
      var first, last := address / SUBPAGE, (address + length - 1) / SUBPAGE;
      assert first / 256 == address / PAGE && last / 256 == (address + length - 1) / PAGE;
      ScalarPages(guardPages[..], address, length);
      BiasBacks(regions, pageTable[..], address, length);
    }

    /** What up-to-date tables say about a page without a writable bias. */
    lemma UnbiasedPage(address: Address)
      requires Shape() && Hierarchical() && RangesShown() && WritableAgrees() && Settled()
      requires writableBias[address / PAGE] == 0
      ensures var page := address / PAGE;
        && (sparse[page].Table? ==>
              fullBias[page] != 0
              && (sparse[page].encodedBias[address % PAGE / SUBPAGE] != 0 <==> !guardPages[address / SUBPAGE]))
        && (sparse[page].NoTable? && fullBias[page] != 0 ==> guardPages[address / SUBPAGE])
    {
      var page := address / PAGE;
      SubpageOf(address);
      assert guardPages[address / SUBPAGE] ==> guardCoarsePages[page];
      if guardCoarsePages[page] {
        MarkInside(guardPages[..], executableRanges, page);
      }
      WritablePage(guardPages[..], guardCoarsePages[page], fullBias[page], address);
    }

    /** The branch of TryGetWritablePointerFast for pages without a writable bias. */
    method WritableWithoutBias(address: Address, length: nat) returns (ok: bool, p: nat)
      requires Valid() && writableBias[address / PAGE] == 0
      requires 0 < length <= MAX_SCALAR && address + length <= ADDRESSES
      ensures ok ==> Backs(regions, address, length, p) && PointerAccepted(address, length)
      ensures Settled() && PointerAccepted(address, length) ==> ok
    {
      p := 0;
      var coarsePage := address / PAGE;
      var encodedBias := 0;
      ScalarPages(guardPages[..], address, length);
      if Settled() { UnbiasedPage(address); }
      var subTable := sparse[coarsePage];
      if subTable.Table? {
        encodedBias := subTable.encodedBias[address % PAGE / SUBPAGE];
        if encodedBias == 0 { return false, 0; }
      } else {
        var offset, entry := address % PAGE, pageTable[coarsePage];
        if entry.base == 0 || offset + length > entry.limit { return false, 0; }
        EntryAccessBacks(regions, pageTable[..], address, length);
        p := entry.base + offset;
      }
      var firstExactPage, lastExactPage := address / SUBPAGE, (address + (length - 1)) / SUBPAGE;
      if guardPages[firstExactPage] || (lastExactPage != firstExactPage && guardPages[lastExactPage]) {
        return false, 0;
      }
      if p != 0 { return true, p; }
      BiasBacks(regions, pageTable[..], address, length);
      return true, Biased(encodedBias, address);
    }

    method TryGetWritablePointerFast(address: Address, length: nat) returns (ok: bool, p: nat)
      requires Valid()
      ensures ok ==> Backs(regions, address, length, p) && PointerAccepted(address, length)
      // While a registration is under way a pointer may be refused that need not be.
      ensures Settled() && PointerAccepted(address, length) ==> ok
      ensures Settled() && Aligned(regions) && 0 < length <= 8 && address + length <= ADDRESSES ==>
        (ok <==> Reached(regions, address, length) && !ByteMarked(guardPages[..], address, length))
      ensures length == 0 || 8 < length || ADDRESSES < address + length ==> !ok
    {
      if Aligned(regions) && 0 < length <= 8 && address + length <= ADDRESSES {
        PointerFoundExactly(regions, pageTable[..], address, length);
        GuardedExactly(guardPages[..], address, length);
      }
      if length == 0 || length > 8 || address > ADDRESSES - 1 - (length - 1) { return false, 0; }
      var coarsePage := address / PAGE;
      var encodedBias := writableBias[coarsePage];
      if encodedBias == 0 {
        ok, p := WritableWithoutBias(address, length);
        return;
      }
      WritableBias(address, length);
      var endAddress := address + (length - 1);
      if endAddress / PAGE != coarsePage && guardPages[endAddress / SUBPAGE] { return false, 0; }
      return true, Biased(encodedBias, address);
    }

    /** The swap and the native store of n bytes at p. */
    method StoreSwapped(p: nat, n: nat, value: nat)
      modifies this`host
      ensures host == Stored(old(host), p, BigEndianBytes(n, value))
    {
      SwappedStore(n, value);
      host := Stored(host, p, LittleEndianBytes(n, ByteSwap(n, value)));
    }

    /** Where TryWriteGuestScalar will store, or nowhere. */
    method LocateWritableScalar(address: Address, n: nat) returns (ok: bool, p: nat)
      requires Valid() && n in {1, 2, 4, 8}
      ensures ok ==> Backs(regions, address, n, p) && ScalarAccepted(pageTable[..], guardPages[..], address, n)
      ensures Settled() && ScalarAccepted(pageTable[..], guardPages[..], address, n) ==> ok
    {
      if InEntry(pageTable[..], address, n) { InEntryFits(regions, pageTable[..], address, n); }
      if address > ADDRESSES - 1 - (n - 1) { return false, 0; }
      var coarsePage, endAddress := address / PAGE, address + (n - 1);
      if endAddress / PAGE != coarsePage { return false, 0; }
      if fullBias[coarsePage] != 0 { BiasedIsFull(address, n); }
      var encodedBias := writableBias[coarsePage];
      if encodedBias == 0 {
        ok, p := TryGetWritablePointerFast(address, n);
        return;
      }
      WritableBias(address, n);
      return true, Biased(encodedBias, address);
    }

    method TryWriteGuestScalar(address: Address, n: nat, value: nat) returns (ok: bool)
      requires Valid() && n in {1, 2, 4, 8} && value < Span(n)
      modifies this`host
      ensures Valid()
      // While a registration is under way a write may be refused that need not be.
      ensures ok ==> ScalarAccepted(pageTable[..], guardPages[..], address, n)
      ensures Settled() && ScalarAccepted(pageTable[..], guardPages[..], address, n) ==> ok
      ensures ok ==> Mapped(regions, address) && Backs(regions, address, n, HostOf(regions, address))
      ensures host == if ok then Stored(old(host), HostOf(regions, address), BigEndianBytes(n, value)) else old(host)
    {
      var p;
      ok, p := LocateWritableScalar(address, n);
      if !ok { return false; }
      assert Mapped(regions, address) && HostOf(regions, address) == p;
      StoreSwapped(p, n, value);
    }

    /** A stack store goes by the page table alone: neither the guard nor the writable tables are asked. */
    method WriteStackScalarFast(address: Address, n: nat, value: nat) returns (ok: bool)
      requires Valid() && n in {1, 2, 4, 8} && value < Span(n)
      modifies this`host
      ensures Valid()
      ensures ok <==> PointerFound(pageTable[..], address, n)
      ensures ok ==> Mapped(regions, address) && Backs(regions, address, n, HostOf(regions, address))
      ensures host == if ok then Stored(old(host), HostOf(regions, address), BigEndianBytes(n, value)) else old(host)
    {
      var p;
      ok, p := TryGetPointerFast(address, n);
      if !ok { return false; }
      assert Mapped(regions, address) && HostOf(regions, address) == p;
      StoreSwapped(p, n, value);
    }

    // ---------- resolved ranges ----------

    lemma EveryByteBacked()
      requires Backed() && LayoutOk(regions)
      ensures AllBacked(host, regions)
    {
    }

    /** ReadResolvedScalar: a load from the flat view, at an offset into a resolved range. */
    method ReadResolvedScalar(hostRange: HostRange, rangeOffset: nat, n: nat) returns (read: Access<nat>)
      requires LayoutOk(regions) && Backed()
      ensures read.Refused? <==> hostRange.NoRange?
      ensures hostRange.At? ==> (read.Done? <==> MappedRange(regions, hostRange.guestStart + rangeOffset, n))
      ensures read.Done? ==> GuestScalar(host, regions, hostRange.guestStart + rangeOffset, n, read.value)
    {
      if hostRange.NoRange? { return Refused; }
      EveryByteBacked();
      var value := LoadFlatScalar(host, regions, hostRange.guestStart + rangeOffset, n);
      return if value.Some? then Done(value.value) else Faults;
    }

    /** ReadResolvedPair16 and 32: one packed load, taken apart into its lanes by shift and mask. */
    method ReadResolvedPair(hostRange: HostRange, rangeOffset: nat, lane: nat) returns (read: Access<(nat, nat)>)
      requires LayoutOk(regions) && Backed() && lane in {2, 4}
      ensures read.Refused? <==> hostRange.NoRange?
      ensures hostRange.At? ==>
        (read.Done? <==> MappedRange(regions, hostRange.guestStart + rangeOffset, lane + lane))
      ensures read.Done? ==> GuestScalar(host, regions, hostRange.guestStart + rangeOffset, lane, read.value.0)
      ensures read.Done? ==> GuestScalar(host, regions, hostRange.guestStart + rangeOffset + lane, lane, read.value.1)
    {
      if hostRange.NoRange? { return Refused; }
      EveryByteBacked();
      var loaded, first, second := LoadFlatPair(host, regions, hostRange.guestStart + rangeOffset, lane);
      return if loaded then Done((first, second)) else Faults;
    }

    /** WriteResolvedPair16 and 32, and the scalar form: one packed store of n bytes to the flat view. */
    method WriteResolved(hostRange: HostRange, rangeOffset: nat, n: nat, value: nat) returns (write: Access<()>)
      requires Valid()
      modifies this`host
      ensures Valid()
      ensures write.Refused? <==> hostRange.NoRange?
      ensures hostRange.At? ==> (write.Done? <==> MappedRange(regions, hostRange.guestStart + rangeOffset, n))
      ensures !write.Done? ==> host == old(host)
      ensures write.Done? ==>
        host == StoredThrough(old(host), regions, hostRange.guestStart + rangeOffset, BigEndianBytes(n, value))
    {
      if hostRange.NoRange? { return Refused; }
      var after := StoreFlatScalar(host, regions, hostRange.guestStart + rangeOffset, n, value);
      if after.None? { return Faults; }
      host := after.value;
      return Done(());
    }
  }
}
