/**
  Guest memory as a plain byte memory over the host bytes behind it: what the fast paths stand for
  (memory_access.h).
 */
module GuestMemory {
  import opened ByteOrder
  import opened GuestLayout
  import opened MachineTypes
  import opened Wrappers

  /** Host memory after a native store of the given bytes at p. */
  function Stored(host: map<nat, Byte>, p: nat, bytes: seq<Byte>): (h: map<nat, Byte>)
    ensures forall a :: a in h <==> a in host || p <= a < p + |bytes|
    ensures forall a | a in h :: h[a] == if p <= a < p + |bytes| then bytes[a - p] else host[a]
    decreases |bytes|
  {
    if bytes == [] then host else Stored(host[p := bytes[0]], p + 1, bytes[1..])
  }

  function Loaded(host: map<nat, Byte>, p: nat, n: nat): (bytes: seq<Byte>)
    requires forall a | p <= a < p + n :: a in host
    ensures |bytes| == n && forall k | 0 <= k < n :: bytes[k] == host[p + k]
  {
    seq(n, k requires 0 <= k < n => host[p + k])
  }

  ghost predicate GuestReadable(host: map<nat, Byte>, regions: seq<Region>, address: nat, n: nat) {
    forall b | address <= b < address + n :: Mapped(regions, b) && HostOf(regions, b) in host
  }

  /** The guest's own view of n bytes: this is the plain byte memory the fast paths stand for. */
  ghost function GuestBytes(host: map<nat, Byte>, regions: seq<Region>, address: nat, n: nat): (bytes: seq<Byte>)
    requires GuestReadable(host, regions, address, n)
    ensures |bytes| == n
    ensures forall b | address <= b < address + n :: bytes[b - address] == host[HostOf(regions, b)]
  {
    seq(n, k requires 0 <= k < n => host[HostOf(regions, address + k)])
  }

  lemma GuestBytesSplit(host: map<nat, Byte>, regions: seq<Region>, address: nat, m: nat, n: nat)
    requires GuestReadable(host, regions, address, m + n)
    ensures GuestBytes(host, regions, address, m + n)
         == GuestBytes(host, regions, address, m) + GuestBytes(host, regions, address + m, n)
  {
  }

  /** What was written is what is read back at the same guest address. */
  lemma WriteThenRead(host: map<nat, Byte>, regions: seq<Region>, address: nat, n: nat, p: nat, value: nat)
    requires Backs(regions, address, n, p) && value < Span(n)
    ensures var after := Stored(host, p, BigEndianBytes(n, value));
      && GuestReadable(after, regions, address, n)
      && GuestBytes(after, regions, address, n) == BigEndianBytes(n, value)
      && BigEndian(GuestBytes(after, regions, address, n)) == value
  {
    var after := Stored(host, p, BigEndianBytes(n, value));
    forall b | address <= b < address + n
      ensures HostOf(regions, b) in after && after[HostOf(regions, b)] == BigEndianBytes(n, value)[b - address]
    {
      assert HostOf(regions, b) == p + (b - address);
    }
    var bytes := GuestBytes(after, regions, address, n);
    forall k | 0 <= k < n
      ensures bytes[k] == BigEndianBytes(n, value)[k]
    {
      assert bytes[(address + k) - address] == after[HostOf(regions, address + k)];
    }
    assert bytes == BigEndianBytes(n, value);
    BigEndianValue(n, value);
  }

  /** A guest byte changes only if it shares its host byte with a written address. */
  lemma WriteFrame(host: map<nat, Byte>, regions: seq<Region>, address: nat, p: nat, bytes: seq<Byte>, b: nat)
    requires Backs(regions, address, |bytes|, p) && Mapped(regions, b) && HostOf(regions, b) in host
    ensures HostOf(regions, b) in Stored(host, p, bytes)
    ensures Stored(host, p, bytes)[HostOf(regions, b)] == host[HostOf(regions, b)]
         || exists a :: address <= a < address + |bytes| && Mapped(regions, a)
                        && HostOf(regions, a) == HostOf(regions, b)
  {
    if p <= HostOf(regions, b) < p + |bytes| {
      var a := address + (HostOf(regions, b) - p);
      assert Mapped(regions, a) && HostOf(regions, a) == HostOf(regions, b);
    }
  }

  // ---------- the flat view ----------

  ghost predicate MappedRange(regions: seq<Region>, address: nat, n: nat) {
    forall b | address <= b < address + n :: Mapped(regions, b)
  }

  /** Each byte stored by itself at the host byte its guest address is mapped to. */
  ghost function StoredThrough(host: map<nat, Byte>, regions: seq<Region>, address: nat, bytes: seq<Byte>)
    : (after: map<nat, Byte>)
    requires MappedRange(regions, address, |bytes|)
    decreases |bytes|
  {
    if bytes == [] then host
    else StoredThrough(host[HostOf(regions, address) := bytes[0]], regions, address + 1, bytes[1..])
  }

  lemma {:induction false} ThroughKeepsBytes(host: map<nat, Byte>, regions: seq<Region>, address: nat, bytes: seq<Byte>)
    requires MappedRange(regions, address, |bytes|)
    ensures forall h | h in host :: h in StoredThrough(host, regions, address, bytes)
    decreases |bytes|
  {
    if bytes == [] {
    } else {
      ThroughKeepsBytes(host[HostOf(regions, address) := bytes[0]], regions, address + 1, bytes[1..]);
    }
  }

  /** No two of n guest bytes share a host byte. */
  ghost predicate Separate(regions: seq<Region>, address: nat, n: nat) {
    && (forall b | address <= b < address + n :: Mapped(regions, b))
    && forall b, c | address <= b < c < address + n :: HostOf(regions, b) != HostOf(regions, c)
  }

  /** A host byte that none of the addresses is mapped to is spared. */
  lemma {:induction false} ThroughSpares(host: map<nat, Byte>, regions: seq<Region>, address: nat, bytes: seq<Byte>,
                                         h: nat)
    requires forall b | address <= b < address + |bytes| :: Mapped(regions, b) && HostOf(regions, b) != h
    ensures var after := StoredThrough(host, regions, address, bytes);
      (h in after <==> h in host) && (h in host ==> after[h] == host[h])
    decreases |bytes|
  {
    if bytes == [] {
    } else {
      ThroughSpares(host[HostOf(regions, address) := bytes[0]], regions, address + 1, bytes[1..], h);
    }
  }

  /** What a store through the flat view leaves at the byte of one of its addresses. */
  lemma {:induction false} ThroughStores(host: map<nat, Byte>, regions: seq<Region>, address: nat, bytes: seq<Byte>,
                                         b: nat)
    requires Separate(regions, address, |bytes|) && address <= b < address + |bytes|
    ensures var after := StoredThrough(host, regions, address, bytes);
      HostOf(regions, b) in after && after[HostOf(regions, b)] == bytes[b - address]
    decreases |bytes|
  {
    var first := host[HostOf(regions, address) := bytes[0]];
    if b == address {
      ThroughSpares(first, regions, address + 1, bytes[1..], HostOf(regions, b));
    } else {
      ThroughStores(first, regions, address + 1, bytes[1..], b);
    }
  }

  /** So what was stored is what the guest reads. */
  lemma ThroughThenRead(host: map<nat, Byte>, regions: seq<Region>, address: nat, bytes: seq<Byte>)
    requires Separate(regions, address, |bytes|)
    ensures var after := StoredThrough(host, regions, address, bytes);
      GuestReadable(after, regions, address, |bytes|) && GuestBytes(after, regions, address, |bytes|) == bytes
  {
    var after := StoredThrough(host, regions, address, bytes);
    forall b | address <= b < address + |bytes|
      ensures HostOf(regions, b) in after && after[HostOf(regions, b)] == bytes[b - address]
    {
      ThroughStores(host, regions, address, bytes, b);
    }
    var read := GuestBytes(after, regions, address, |bytes|);
    forall k | 0 <= k < |bytes|
      ensures read[k] == bytes[k]
    {
      assert read[(address + k) - address] == after[HostOf(regions, address + k)];
    }
  }

  /** An access to the flat view: not made, stopped by a page that shows nothing, or made. */
  datatype Access<T> = Refused | Faults | Done(value: T)

  /** Every mapped guest address has its byte. */
  ghost predicate AllBacked(host: map<nat, Byte>, regions: seq<Region>) {
    forall b: nat | Mapped(regions, b) :: HostOf(regions, b) in host
  }

  /** GuestFlat::HostPointer: the host byte a guest address is mapped to, if it is mapped. */
  method HostPointer(regions: seq<Region>, a: nat) returns (h: Option<nat>)
    requires LayoutOk(regions)
    ensures h.Some? <==> Mapped(regions, a)
    ensures h.Some? ==> h.value == HostOf(regions, a)
  {
    for i := 0 to |regions|
      invariant forall k | 0 <= k < i :: !InRegion(regions[k], a)
    {
      if InRegion(regions[i], a) {
        HostOfRegion(regions, i, a);
        return Some(regions[i].storage + (a - regions[i].base));
      }
    }
    return None;
  }

  /** A native load from the flat view: every mapped guest page shows the storage of its region. */
  method LoadFlat(host: map<nat, Byte>, regions: seq<Region>, address: nat, n: nat) returns (bytes: Option<seq<Byte>>)
    requires LayoutOk(regions) && AllBacked(host, regions)
    ensures bytes.Some? <==> MappedRange(regions, address, n)
    ensures bytes.Some? ==> bytes.value == GuestBytes(host, regions, address, n)
  {
    var loaded := [];
    for k := 0 to n
      invariant MappedRange(regions, address, k)
      invariant |loaded| == k && forall j | 0 <= j < k :: loaded[j] == host[HostOf(regions, address + j)]
    {
      var h := HostPointer(regions, address + k);
      if h.None? { return None; }
      loaded := loaded + [host[h.value]];
    }
    ghost var guest := GuestBytes(host, regions, address, n);
    forall j | 0 <= j < n
      ensures loaded[j] == guest[j]
    {
      assert guest[(address + j) - address] == host[HostOf(regions, address + j)];
    }
    return Some(loaded);
  }

  lemma {:induction false} ThroughLast(host: map<nat, Byte>, regions: seq<Region>, address: nat, bytes: seq<Byte>,
                                       last: Byte)
    requires MappedRange(regions, address, |bytes| + 1)
    ensures StoredThrough(host, regions, address, bytes + [last])
         == StoredThrough(host, regions, address, bytes)[HostOf(regions, address + |bytes|) := last]
    decreases |bytes|
  {
    if bytes == [] {
      assert (bytes + [last])[1..] == [];
    } else {
      ThroughLast(host[HostOf(regions, address) := bytes[0]], regions, address + 1, bytes[1..], last);
      assert (bytes + [last])[1..] == bytes[1..] + [last];
    }
  }

  /** A native store to the flat view; one that faults stores nothing. */
  method StoreFlat(host: map<nat, Byte>, regions: seq<Region>, address: nat, bytes: seq<Byte>)
    returns (after: Option<map<nat, Byte>>)
    requires LayoutOk(regions)
    ensures after.Some? <==> MappedRange(regions, address, |bytes|)
    ensures after.Some? ==> after.value == StoredThrough(host, regions, address, bytes)
  {
    var stored := host;
    for k := 0 to |bytes|
      invariant MappedRange(regions, address, k)
      invariant stored == StoredThrough(host, regions, address, bytes[..k])
    {
      var h := HostPointer(regions, address + k);
      if h.None? { return None; }
      ThroughLast(host, regions, address, bytes[..k], bytes[k]);
      assert bytes[..k + 1] == bytes[..k] + [bytes[k]];
      stored := stored[h.value := bytes[k]];
    }
    assert bytes[..|bytes|] == bytes;
    return Some(stored);
  }

  /** The value is the big-endian one of the guest bytes. */
  ghost predicate GuestScalar(host: map<nat, Byte>, regions: seq<Region>, address: nat, n: nat, value: nat) {
    GuestReadable(host, regions, address, n) && value == BigEndian(GuestBytes(host, regions, address, n))
  }

  /** The native load, swapped. */
  method LoadFlatScalar(host: map<nat, Byte>, regions: seq<Region>, address: nat, n: nat) returns (value: Option<nat>)
    requires LayoutOk(regions) && AllBacked(host, regions)
    ensures value.Some? <==> MappedRange(regions, address, n)
    ensures value.Some? ==> GuestScalar(host, regions, address, n, value.value)
  {
    var bytes := LoadFlat(host, regions, address, n);
    if bytes.None? { return None; }
    SwappedLoad(bytes.value);
    return Some(ByteSwap(n, LittleEndian(bytes.value)));
  }

  method UnpackPair(packed: nat, lane: nat, ghost bytes: seq<Byte>, ghost high: seq<Byte>, ghost low: seq<Byte>)
    returns (first: nat, second: nat)
    requires packed == BigEndian(bytes) && bytes == high + low && |low| == lane
    ensures first == BigEndian(high) && second == BigEndian(low)
  {
    PackedPair(high, low);
    first, second := packed / Span(lane), packed % Span(lane);
  }

  /** Both lanes of a packed value, by shift and mask. */
  method SplitLanes(packed: nat, lane: nat, ghost host: map<nat, Byte>, ghost regions: seq<Region>, ghost address: nat)
    returns (first: nat, second: nat)
    requires GuestScalar(host, regions, address, lane + lane, packed)
    ensures GuestScalar(host, regions, address, lane, first)
    ensures GuestScalar(host, regions, address + lane, lane, second)
  {
    ghost var bytes := GuestBytes(host, regions, address, lane + lane);
    ghost var high, low := GuestBytes(host, regions, address, lane), GuestBytes(host, regions, address + lane, lane);
    assert bytes == high + low by {
      GuestBytesSplit(host, regions, address, lane, lane);
    }
    first, second := UnpackPair(packed, lane, bytes, high, low);
  }

  /** One load of both lanes. */
  method LoadFlatPair(host: map<nat, Byte>, regions: seq<Region>, address: nat, lane: nat)
    returns (loaded: bool, first: nat, second: nat)
    requires LayoutOk(regions) && AllBacked(host, regions)
    ensures loaded <==> MappedRange(regions, address, lane + lane)
    ensures loaded ==> GuestScalar(host, regions, address, lane, first)
    ensures loaded ==> GuestScalar(host, regions, address + lane, lane, second)
  {
    var packed := LoadFlatScalar(host, regions, address, lane + lane);
    if packed.None? { return false, 0, 0; }
    first, second := SplitLanes(packed.value, lane, host, regions, address);
    return true, first, second;
  }

  /** The swapped value, stored natively. */
  method StoreFlatScalar(host: map<nat, Byte>, regions: seq<Region>, address: nat, n: nat, value: nat)
    returns (after: Option<map<nat, Byte>>)
    requires LayoutOk(regions)
    ensures after.Some? <==> MappedRange(regions, address, n)
    ensures after.Some? ==> after.value == StoredThrough(host, regions, address, BigEndianBytes(n, value))
    ensures after.Some? ==> forall h | h in host :: h in after.value
  {
    SwappedStore(n, value);
    after := StoreFlat(host, regions, address, LittleEndianBytes(n, ByteSwap(n, value)));
    if after.Some? {
      ThroughKeepsBytes(host, regions, address, BigEndianBytes(n, value));
    }
  }
}
