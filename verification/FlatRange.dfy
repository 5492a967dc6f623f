/**
  Resolved ranges of the flat guest view (memory_access.h): two endpoint tests stand for a test of
  every byte. Addresses are 32-bit words and wrap.
 */
module FlatRange {

  import opened GuestLayout
  import opened MachineTypes

  predicate IsMmioAddress(address: int) {
    0xCC00_0000 <= address < 0xCE00_0000
  }

  /** address & 0xFE000000 == 0xCC000000: clearing the low 25 bits leaves the window's base. */
  predicate FlatWriteNeedsPolicy(address: Address) {
    address - address % 0x200_0000 == 0xCC00_0000
  }

  /** The same test in machine bits. */
  lemma MaskIsWindow(address: bv32)
    ensures (address & 0xFE00_0000) == 0xCC00_0000 <==> 0xCC00_0000 <= address && address < 0xCE00_0000
  {
  }

  lemma PolicyIsMmio(address: Address)
    ensures FlatWriteNeedsPolicy(address) <==> IsMmioAddress(address)
  {
  }

  datatype HostRange = NoRange | At(guestStart: Address)

  /** The offset is added in 32-bit arithmetic, so a negative one may wrap below zero. */
  function ResolveRangeHost(base: Address, minOffset: int, length: Address, needsWrite: bool,
                            requiresCheckedAccess: bool): HostRange
  {
    var guestStart := (base + minOffset) % ADDRESSES;
    if length == 0 || length > PAGE || guestStart > ADDRESSES - 1 - (length - 1) then NoRange
    else if requiresCheckedAccess then NoRange
    else if needsWrite
            && (FlatWriteNeedsPolicy(guestStart) || FlatWriteNeedsPolicy(guestStart + (length - 1))) then NoRange
    else At(guestStart)
  }

  /**
    The endpoint tests decide for the whole range, in both directions: a range resolves exactly when
    the host's pages allow unchecked access, it has a legal length, stays inside the address space
    and, for a write, no byte of it is MMIO.
   */
  lemma EndpointsDecide(base: Address, minOffset: int, length: Address, needsWrite: bool, requiresCheckedAccess: bool)
    ensures var r := ResolveRangeHost(base, minOffset, length, needsWrite, requiresCheckedAccess);
      var start := (base + minOffset) % ADDRESSES;
      && (r.At? <==>
            && !requiresCheckedAccess && 0 < length <= PAGE && start + length <= ADDRESSES
            && (needsWrite ==> forall a | start <= a < start + length :: !IsMmioAddress(a)))
      && (r.At? ==> r.guestStart == start)
  {
    var start := (base + minOffset) % ADDRESSES;
    if 0 < length && start + length <= ADDRESSES {
      PolicyIsMmio(start);
      PolicyIsMmio(start + (length - 1));
      assert IsMmioAddress(start) ==> !(forall a | start <= a < start + length :: !IsMmioAddress(a));
      assert IsMmioAddress(start + length - 1) ==> !(forall a | start <= a < start + length :: !IsMmioAddress(a));
    }
  }
}
