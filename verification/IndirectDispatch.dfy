/** Finding the translated function at a guest address: the generated two-level table with its binary search,
    and the per-thread memos and per-target verdicts in front of it, which may be filled only once the
    registry is published. */
module IndirectDispatch {
  import opened MachineTypes
  import opened Wrappers

  datatype Record = Record(address: Address, entry: nat)

  datatype Page = Page(firstEntry: nat, entryCount: nat)

  datatype Segment = NoPages | Pages(firstPage: nat, pages: seq<Page>)

  datatype Table = Table(segments: seq<Segment>, entries: seq<Record>)

  function SegmentOf(a: Address): nat { a / 0x100_0000 }

  function PageOf(a: Address): nat { a / 0x1000 % 0x1000 }

  /** The entries the table's page for an address lists, as a half-open range. */
  function PageRange(t: Table, a: Address): Option<(nat, nat)>
    requires |t.segments| == 256
  {
    match t.segments[SegmentOf(a)]
    case NoPages => None
    case Pages(firstPage, pages) =>
      if PageOf(a) < firstPage || PageOf(a) - firstPage >= |pages| then None
      else
        var page := pages[PageOf(a) - firstPage];
        if page.firstEntry > |t.entries| || page.entryCount > |t.entries| - page.firstEntry then None
        else Some((page.firstEntry, page.firstEntry + page.entryCount))
  }

  /** What the emitter guarantees: the entries of a page are in address order, and every entry is listed by
      the page of its own address. */
  predicate WellFormed(t: Table) {
    && |t.segments| == 256
    && (forall n :: 0 <= n < |t.entries| ==> Listed(t, n))
    && (forall a: Address :: PageRange(t, a).Some? ==>
          Sorted(t.entries, PageRange(t, a).value.0, PageRange(t, a).value.1))
  }

  predicate Listed(t: Table, n: nat)
    requires |t.segments| == 256 && n < |t.entries|
  {
    var listed := PageRange(t, t.entries[n].address);
    listed.Some? && listed.value.0 <= n < listed.value.1
  }

  predicate Sorted(entries: seq<Record>, first: nat, end: nat)
  {
    first <= end <= |entries| &&
    forall m, n :: first <= m < n < end ==> entries[m].address <= entries[n].address
  }

  /** The first place in a range whose address is not below the one looked for, by halving. */
  function LowerBound(entries: seq<Record>, lower: nat, upper: nat, a: Address): (r: nat)
    requires lower <= upper <= |entries|
    ensures lower <= r <= upper
    decreases upper - lower
  {
    if lower == upper then lower
    else
      var middle := lower + (upper - lower) / 2;
      if entries[middle].address < a then LowerBound(entries, middle + 1, upper, a)
      else LowerBound(entries, lower, middle, a)
  }

  /** The index of the record for an address, as the table finds it. */
  function Located(t: Table, a: Address): (r: Option<nat>)
    requires |t.segments| == 256
    ensures r.Some? ==> r.value < |t.entries| && t.entries[r.value].address == a
  {
    if t.entries == [] then None
    else
      var listed := PageRange(t, a);
      if listed.None? then None
      else
        var n := LowerBound(t.entries, listed.value.0, listed.value.1, a);
        if n < listed.value.1 && t.entries[n].address == a then Some(n) else None
  }

  /** The entries listed for an address, after every bound of the table has been checked. */
  method FindPage(t: Table, a: Address) returns (listed: Option<(nat, nat)>)
    requires |t.segments| == 256
    ensures listed == PageRange(t, a)
  {
    var segment, pageNumber := t.segments[SegmentOf(a)], PageOf(a);
    if segment.NoPages? || pageNumber < segment.firstPage {
      return None;
    }
    var relativePage := pageNumber - segment.firstPage;
    if relativePage >= |segment.pages| {
      return None;
    }
    var page := segment.pages[relativePage];
    var first, count := page.firstEntry, page.entryCount;
    if first > |t.entries| || count > |t.entries| - first {
      return None;
    }
    return Some((first, first + count));
  }

  method SearchPage(entries: seq<Record>, first: nat, end: nat, a: Address) returns (lower: nat)
    requires first <= end <= |entries|
    ensures lower == LowerBound(entries, first, end, a)
  {
    var upper := end;
    lower := first;
    ghost var result := LowerBound(entries, first, end, a);
    while lower < upper
      invariant first <= lower <= upper <= end
      invariant result == LowerBound(entries, lower, upper, a)
    {
      var middle := lower + (upper - lower) / 2;
      if entries[middle].address < a {
        lower := middle + 1;
      } else {
        upper := middle;
      }
    }
  }

  method FindStaticIndirectDispatchEntry(t: Table, a: Address) returns (r: Option<nat>)
    requires |t.segments| == 256
    ensures r == Located(t, a)
  {
    if |t.entries| == 0 {
      return None;
    }
    var listed := FindPage(t, a);
    if listed.None? {
      return None;
    }
    var lower := SearchPage(t.entries, listed.value.0, listed.value.1, a);
    return if lower < listed.value.1 && t.entries[lower].address == a then Some(lower) else None;
  }

  /** One probe rules out one side of the range. */
  lemma ProbeDecides(entries: seq<Record>, lower: nat, middle: nat, upper: nat, a: Address)
    requires lower <= middle < upper <= |entries| && Sorted(entries, lower, upper)
    ensures entries[middle].address < a ==> forall n :: lower <= n <= middle ==> entries[n].address < a
    ensures a <= entries[middle].address ==> forall n :: middle <= n < upper ==> a <= entries[n].address
    ensures Sorted(entries, middle + 1, upper) && Sorted(entries, lower, middle)
  {
  }

  lemma {:induction false} LowerBoundSplits(entries: seq<Record>, lower: nat, upper: nat, a: Address)
    requires lower <= upper <= |entries| && Sorted(entries, lower, upper)
    ensures var r := LowerBound(entries, lower, upper, a);
            && (forall n :: lower <= n < r ==> entries[n].address < a)
            && (forall n :: r <= n < upper ==> a <= entries[n].address)
    decreases upper - lower
  {
    if lower == upper {
    } else {
      var middle := lower + (upper - lower) / 2;
      ProbeDecides(entries, lower, middle, upper, a);
      if entries[middle].address < a {
        LowerBoundSplits(entries, middle + 1, upper, a);
      } else {
        LowerBoundSplits(entries, lower, middle, a);
      }
    }
  }

  /** In a well-formed table the indexed search finds a record for an address exactly when a search through
      all entries would, and then the first one. */
  lemma IndexedEqualsLinear(t: Table, a: Address)
    requires WellFormed(t)
    ensures Located(t, a).Some? <==> exists n :: 0 <= n < |t.entries| && t.entries[n].address == a
    ensures Located(t, a).Some? ==> forall n :: 0 <= n < Located(t, a).value ==> t.entries[n].address != a
  {
    var listed := PageRange(t, a);
    if listed.Some? {
      LowerBoundSplits(t.entries, listed.value.0, listed.value.1, a);
    }
    forall n | 0 <= n < |t.entries| && t.entries[n].address == a
      ensures listed.Some? && listed.value.0 <= n < listed.value.1 && Located(t, a).Some? && Located(t, a).value <= n
    {
      assert Listed(t, n);
    }
  }

  // ---- The emitter ----

  /** The address lies on the 4 KiB page, counted from the start of the 16 MiB segment. */
  predicate OnPage(a: nat, segment: nat, page: nat) {
    segment * 0x100_0000 + page * 0x1000 <= a < segment * 0x100_0000 + (page + 1) * 0x1000
  }

  predicate Ascending(entries: seq<Record>) {
    forall m, n :: 0 <= m < n < |entries| ==> entries[m].address < entries[n].address
  }

  /** The page lists the entries on it and no others. */
  predicate PageListed(entries: seq<Record>, segment: nat, number: nat, page: Page) {
    && page.firstEntry + page.entryCount <= |entries|
    && forall n :: 0 <= n < |entries| ==>
         (page.firstEntry <= n < page.firstEntry + page.entryCount <==> OnPage(entries[n].address, segment, number))
  }

  /** The pages are numbered from the first one on and hold every entry of the 16 MiB. */
  predicate SegmentListed(entries: seq<Record>, number: nat, segment: Segment) {
    match segment
    case NoPages =>
      forall n :: 0 <= n < |entries| ==>
        !(number * 0x100_0000 <= entries[n].address < (number + 1) * 0x100_0000)
    case Pages(firstPage, pages) =>
      && firstPage + |pages| <= 4096
      && (forall k :: 0 <= k < |pages| ==> PageListed(entries, number, firstPage + k, pages[k]))
      && forall n :: 0 <= n < |entries| && number * 0x100_0000 <= entries[n].address < (number + 1) * 0x100_0000 ==>
           var start := number * 0x100_0000 + firstPage * 0x1000;
           start <= entries[n].address < start + |pages| * 0x1000
  }

  /** What the emitter promises of the table, in address intervals. */
  predicate Emitted(t: Table) {
    && |t.segments| == 256 && Ascending(t.entries)
    && forall s :: 0 <= s < 256 ==> SegmentListed(t.entries, s, t.segments[s])
  }

  /** The lowest and highest page of a segment with an entry on it, if there is one. */
  method PageSpan(entries: seq<Record>, segment: nat) returns (found: bool, firstPage: nat, lastPage: nat)
    ensures !found ==> forall n :: 0 <= n < |entries| ==> SegmentOf(entries[n].address) != segment
    ensures found ==> firstPage <= lastPage < 4096
    ensures found ==> forall n :: 0 <= n < |entries| && SegmentOf(entries[n].address) == segment ==>
                        firstPage <= PageOf(entries[n].address) <= lastPage
  {
    found, firstPage, lastPage := false, 0, 0;
    for i := 0 to |entries|
      invariant !found ==> forall n :: 0 <= n < i ==> SegmentOf(entries[n].address) != segment
      invariant found ==> firstPage <= lastPage < 4096
      invariant found ==> forall n :: 0 <= n < i && SegmentOf(entries[n].address) == segment ==>
                            firstPage <= PageOf(entries[n].address) <= lastPage
    {
      if SegmentOf(entries[i].address) == segment {
        var page := PageOf(entries[i].address);
        firstPage := if found && firstPage < page then firstPage else page;
        lastPage := if found && lastPage > page then lastPage else page;
        found := true;
      }
    }
  }

  lemma OnPageExactly(a: Address, segment: nat, page: nat)
    requires page < 4096
    ensures OnPage(a, segment, page) <==> SegmentOf(a) == segment && PageOf(a) == page
  {
  }

  /** The index of the first entry on the page and the number of entries there. */
  method WritePage(entries: seq<Record>, segment: nat, number: nat) returns (page: Page)
    requires Ascending(entries) && number < 4096
    ensures PageListed(entries, segment, number, page)
  {
    var first, count := 0, 0;
    for i := 0 to |entries|
      invariant first + count <= i
      invariant forall n :: 0 <= n < i ==>
                  (first <= n < first + count <==> OnPage(entries[n].address, segment, number))
      invariant 0 < count && first + count < i ==>
                  segment * 0x100_0000 + (number + 1) * 0x1000 <= entries[first + count].address
    {
      OnPageExactly(entries[i].address, segment, number);
      assert 0 < count && first + count < i ==> entries[first + count].address < entries[i].address;
      if SegmentOf(entries[i].address) == segment && PageOf(entries[i].address) == number {
        first := if count == 0 then i else first;
        count := count + 1;
      } else if 0 < count {
        assert OnPage(entries[first].address, segment, number) && entries[first].address < entries[i].address;
      }
    }
    return Page(first, count);
  }

  /** In terms of addresses: a segment is the 16 MiB of its number, its pages from one to another a part of it. */
  lemma SpanExactly(a: Address, segment: nat, firstPage: nat, lastPage: nat)
    requires firstPage <= lastPage < 4096
    ensures SegmentOf(a) == segment <==> segment * 0x100_0000 <= a < (segment + 1) * 0x100_0000
    ensures SegmentOf(a) == segment && firstPage <= PageOf(a) <= lastPage ==>
              segment * 0x100_0000 + firstPage * 0x1000 <= a < segment * 0x100_0000 + (lastPage + 1) * 0x1000
  {
  }

  method WriteSegment(entries: seq<Record>, number: nat) returns (segment: Segment)
    requires Ascending(entries)
    ensures SegmentListed(entries, number, segment)
  {
    var found, firstPage, lastPage := PageSpan(entries, number);
    forall n | 0 <= n < |entries|
      ensures SegmentOf(entries[n].address) == number <==>
              number * 0x100_0000 <= entries[n].address < (number + 1) * 0x100_0000
      ensures found && SegmentOf(entries[n].address) == number ==>
                number * 0x100_0000 + firstPage * 0x1000 <= entries[n].address
                  < number * 0x100_0000 + (lastPage + 1) * 0x1000
    {
      SpanExactly(entries[n].address, number, if found then firstPage else 0, if found then lastPage else 0);
    }
    if !found {
      return NoPages;
    }
    var pages := WritePages(entries, number, firstPage, lastPage);
    return Pages(firstPage, pages);
  }

  method WritePages(entries: seq<Record>, number: nat, firstPage: nat, lastPage: nat) returns (pages: seq<Page>)
    requires Ascending(entries) && firstPage <= lastPage < 4096
    ensures |pages| == lastPage + 1 - firstPage
    ensures forall k :: 0 <= k < |pages| ==> PageListed(entries, number, firstPage + k, pages[k])
  {
    pages := [];
    for page := firstPage to lastPage + 1
      invariant |pages| == page - firstPage
      invariant forall k :: 0 <= k < |pages| ==> PageListed(entries, number, firstPage + k, pages[k])
    {
      var written := WritePage(entries, number, page);
      pages := pages + [written];
    }
  }

  /** Lays out the functions, given in address order; there must be one. */
  method WriteIndirectDispatchTable(entries: seq<Record>) returns (t: Option<Table>)
    requires Ascending(entries)
    ensures t.None? <==> entries == []
    ensures t.Some? ==> t.value.entries == entries && Emitted(t.value)
  {
    if entries == [] {
      return None;
    }
    var segments := [];
    for s := 0 to 256
      invariant |segments| == s && forall k :: 0 <= k < s ==> SegmentListed(entries, k, segments[k])
    {
      var segment := WriteSegment(entries, s);
      segments := segments + [segment];
    }
    return Some(Table(segments, entries));
  }

  /** The page an emitted table gives for an address lists exactly the entries on the address's page. */
  lemma EmittedPage(t: Table, a: Address, n: nat)
    requires Emitted(t) && n < |t.entries|
    ensures PageRange(t, a).Some? ==>
              PageRange(t, a).value.0 <= PageRange(t, a).value.1 <= |t.entries|
    ensures t.entries[n].address == a ==>
              PageRange(t, a).Some? && PageRange(t, a).value.0 <= n < PageRange(t, a).value.1
  {
    var s := SegmentOf(a);
    assert SegmentListed(t.entries, s, t.segments[s]);
    if t.entries[n].address == a {
      assert OnPage(a, s, PageOf(a));
      var segment := t.segments[s];
      assert segment.Pages? && segment.firstPage <= PageOf(a) < segment.firstPage + |segment.pages|;
      assert PageListed(t.entries, s, PageOf(a), segment.pages[PageOf(a) - segment.firstPage]);
    }
  }

  lemma EmittedIsWellFormed(t: Table)
    requires Emitted(t)
    ensures WellFormed(t)
  {
    forall n | 0 <= n < |t.entries|
      ensures Listed(t, n)
    {
      EmittedPage(t, t.entries[n].address, n);
    }
    forall a: Address | PageRange(t, a).Some?
      ensures Sorted(t.entries, PageRange(t, a).value.0, PageRange(t, a).value.1)
    {
    }
  }

  /** In an emitted table the indexed search gives an entry exactly for the address of that entry. */
  lemma EmittedFindsExactly(t: Table, a: Address, n: nat)
    requires Emitted(t) && n < |t.entries|
    ensures Located(t, a) == Some(n) <==> t.entries[n].address == a
    ensures Located(t, a).None? <==> forall m :: 0 <= m < |t.entries| ==> t.entries[m].address != a
  {
    EmittedIsWellFormed(t);
    IndexedEqualsLinear(t, a);
  }

  // ---- The registry ----

  datatype Info = Info(address: Address, baseTranslated: bool)

  /** Everything a lookup depends on; immutable once published. */
  datatype Tables = Tables(functions: map<Address, Info>, generated: Option<Table>, dynamic: map<Address, Record>)

  predicate TablesValid(t: Tables) { t.generated.Some? ==> |t.generated.value.segments| == 256 }

  function FindSlow(t: Tables, a: Address): Option<Info> {
    if a in t.functions then Some(t.functions[a]) else None
  }

  /** The uncached raw lookup: the generated table first, dynamic registrations second. */
  function FindRaw(t: Tables, a: Address): Option<Record>
    requires TablesValid(t)
  {
    var n := if t.generated.Some? then Located(t.generated.value, a) else None;
    if n.Some? then Some(t.generated.value.entries[n.value])
    else if a in t.dynamic then Some(t.dynamic[a])
    else None
  }

  /** What other threads may do to the registry between two of our loads. */
  datatype Others = Nothing | Register(tables: Tables) | Publish(tables: Tables)

  class Registry {
    var published: bool
    var tables: Tables

    constructor ()
      ensures !published && TablesValid(tables)
    {
      published, tables := false, Tables(map[], None, map[]);
    }

    /** Registrations are only made before publication; publication happens once. */
    method Interfere(others: Others)
      requires TablesValid(tables) && (others != Nothing ==> TablesValid(others.tables))
      modifies this
      ensures TablesValid(tables)
      ensures old(published) ==> published && tables == old(tables)
    {
      if !published && others != Nothing {
        tables := others.tables;
        published := others.Publish?;
      }
    }
  }

  predicate Harmless(others: Others) { others != Nothing ==> TablesValid(others.tables) }

  // ---- Thread-local memos ----

  const MEMO_SIZE := 512

  function MemoIndex(a: Address): (n: nat)
    ensures n < MEMO_SIZE
  {
    a / 4 * 2654435761 % TWO_32 % MEMO_SIZE
  }

  datatype Memo<T> = Empty | Held(address: Address, found: Option<T>)

  class Dispatcher {
    const registry: Registry
    const resolved: array<Memo<Info>>
    const raw: array<Memo<Record>>

    /** Nothing is memoised before publication, and what is memoised is what the published tables say. */
    ghost predicate Valid()
      reads this, registry, resolved, raw
    {
      && resolved.Length == raw.Length == MEMO_SIZE
      && TablesValid(registry.tables)
      && (forall n :: 0 <= n < MEMO_SIZE && resolved[n].Held? ==>
            registry.published && resolved[n].found == FindSlow(registry.tables, resolved[n].address))
      && (forall n :: 0 <= n < MEMO_SIZE && raw[n].Held? ==>
            registry.published && raw[n].found == FindRaw(registry.tables, raw[n].address))
    }

    constructor (shared: Registry)
      requires TablesValid(shared.tables)
      ensures Valid() && registry == shared && fresh(resolved) && fresh(raw)
    {
      registry := shared;
      resolved := new Memo<Info>[MEMO_SIZE](_ => Empty);
      raw := new Memo<Record>[MEMO_SIZE](_ => Empty);
    }

    method FindByAddressPtr(a: Address, others: Others) returns (found: Option<Info>)
      requires Valid() && Harmless(others)
      modifies registry, resolved
      ensures Valid()
      ensures old(registry.published) ==> registry.published && registry.tables == old(registry.tables)
      ensures found == FindSlow(registry.tables, a)
      ensures !old(registry.published) ==> forall n :: 0 <= n < MEMO_SIZE ==> resolved[n] == old(resolved[n])
    {
      var ready := registry.published;
      registry.Interfere(others);
      if !ready {
        return FindSlow(registry.tables, a);
      }
      var n := MemoIndex(a);
      if resolved[n].Held? && resolved[n].address == a {
        return resolved[n].found;
      }
      found := FindSlow(registry.tables, a);
      resolved[n] := Held(a, found);
    }

    method FindRawByAddressPtr(a: Address, others: Others) returns (found: Option<Record>)
      requires Valid() && Harmless(others)
      modifies registry, raw
      ensures Valid()
      ensures old(registry.published) ==>
                registry.published && registry.tables == old(registry.tables) && found == FindRaw(registry.tables, a)
      ensures !old(registry.published) ==>
                found == None && forall n :: 0 <= n < MEMO_SIZE ==> raw[n] == old(raw[n])
    {
      var ready := registry.published;
      registry.Interfere(others);
      if !ready {
        return None;
      }
      var n := MemoIndex(a);
      if raw[n].Held? && raw[n].address == a {
        return raw[n].found;
      }
      found := FindRawMiss(a);
      raw[n] := Held(a, found);
    }

    method FindRawMiss(a: Address) returns (found: Option<Record>)
      requires TablesValid(registry.tables)
      ensures found == FindRaw(registry.tables, a)
    {
      found := None;
      if registry.tables.generated.Some? {
        var table := registry.tables.generated.value;
        var n := FindStaticIndirectDispatchEntry(table, a);
        if n.Some? {
          found := Some(table.entries[n.value]);
        }
      }
      if found == None && a in registry.tables.dynamic {
        found := Some(registry.tables.dynamic[a]);
      }
    }
  }

  // ---- Per-target latches ----

  datatype Latch<T> = Unset | Set(value: T)

  /** The process-wide cached results of one call target. */
  class Target {
    const address: Address
    const registry: Registry
    var info: Latch<Option<Info>>
    var verdict: Latch<bool>

    ghost predicate Valid()
      reads this, registry
    {
      && TablesValid(registry.tables)
      && (info.Set? ==> registry.published && info.value == FindSlow(registry.tables, address))
      && (verdict.Set? ==> registry.published && verdict.value == IsBase(FindSlow(registry.tables, address)))
    }

    constructor (target: Address, shared: Registry)
      requires TablesValid(shared.tables)
      ensures Valid() && address == target && registry == shared
    {
      address, registry, info, verdict := target, shared, Unset, Unset;
    }

    /** The lookup a target falls back to, through the calling thread's memo. */
    method Resolve(thread: Dispatcher, others: Others) returns (found: Option<Info>)
      requires thread.registry == registry && thread.Valid() && Valid() && Harmless(others)
      modifies registry, thread.resolved
      ensures thread.Valid() && Valid()
      ensures old(registry.published) ==> registry.published && registry.tables == old(registry.tables)
      ensures found == FindSlow(registry.tables, address)
    {
      found := thread.FindByAddressPtr(address, others);
    }

    /** The latched lookup: a result computed before publication is returned but never kept. */
    method ResolveCached(thread: Dispatcher, before: Others, between: Others) returns (found: Option<Info>)
      requires thread.registry == registry && thread.Valid() && Valid() && Harmless(before) && Harmless(between)
      modifies this`info, registry, thread.resolved
      ensures thread.Valid() && Valid()
      ensures old(registry.published) ==> registry.published && registry.tables == old(registry.tables)
      ensures found == FindSlow(registry.tables, address)
      ensures info.Set? && old(info).Unset? ==> registry.published
    {
      if info.Set? {
        return info.value;
      }
      registry.Interfere(before);
      if !registry.published {
        found := Resolve(thread, between);
        return;
      }
      found := Resolve(thread, between);
      info := Set(found);
    }

    method IsBaseTranslatedActive(thread: Dispatcher, before: Others, between: Others) returns (active: bool)
      requires thread.registry == registry && thread.Valid() && Valid() && Harmless(before) && Harmless(between)
      modifies this`verdict, registry, thread.resolved
      ensures thread.Valid() && Valid()
      ensures old(registry.published) ==> registry.published && registry.tables == old(registry.tables)
      ensures active <==> IsBase(FindSlow(registry.tables, address))
    {
      if verdict.Set? {
        return verdict.value;
      }
      registry.Interfere(before);
      var publishable := registry.published;
      var found := Resolve(thread, between);
      active := found.Some? && found.value.baseTranslated;
      if publishable {
        verdict := Set(active);
      }
    }
  }

  predicate IsBase(found: Option<Info>) { found.Some? && found.value.baseTranslated }
}
