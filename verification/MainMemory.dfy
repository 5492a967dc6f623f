/** The console's main memory and the three views in which the guest sees every byte of it. */
module MainMemory {
  import opened MachineTypes

  const MEM1_SIZE := 0x180_0000
  const MEM1_PHYSICAL := 0
  const MEM1_CACHED := 0x8000_0000
  const MEM1_UNCACHED := 0xC000_0000

  const MEM2_SIZE := 0x800_0000
  const MEM2_PHYSICAL := 0x1000_0000
  const MEM2_CACHED := 0x9000_0000
  const MEM2_UNCACHED := 0xD000_0000

  /** The byte lies in one of the six views. */
  predicate InMainMemory(a: nat) {
    || a < MEM1_SIZE
    || MEM2_PHYSICAL <= a < MEM2_PHYSICAL + MEM2_SIZE
    || MEM1_CACHED <= a < MEM1_CACHED + MEM1_SIZE
    || MEM2_CACHED <= a < MEM2_CACHED + MEM2_SIZE
    || MEM1_UNCACHED <= a < MEM1_UNCACHED + MEM1_SIZE
    || MEM2_UNCACHED <= a < MEM2_UNCACHED + MEM2_SIZE
  }

  /** The physical address behind any of the cached, uncached or physical aliases of main memory. */
  function Canonical(address: Address): Address {
    if address < MEM1_SIZE then address
    else if MEM2_PHYSICAL <= address < MEM2_PHYSICAL + MEM2_SIZE then address
    else if MEM1_CACHED <= address < MEM1_CACHED + MEM1_SIZE then address - 0x8000_0000
    else if MEM2_CACHED <= address < MEM2_CACHED + MEM2_SIZE then address - 0x8000_0000
    else if MEM1_UNCACHED <= address < MEM1_UNCACHED + MEM1_SIZE then address - 0xC000_0000
    else if MEM2_UNCACHED <= address < MEM2_UNCACHED + MEM2_SIZE then address - 0xC000_0000
    else address
  }

  /** All aliases of one byte of main memory have one physical address, and nothing else joins them. */
  lemma AliasesAgree(physical: Address, address: Address)
    requires physical < 0x180_0000 || 0x1000_0000 <= physical < 0x1800_0000
    ensures Canonical(address) == physical <==>
              address in {physical, physical + 0x8000_0000, physical + 0xC000_0000}
  {
  }

  /** Only the views of main memory are mapped to it; every other address stands for itself. */
  lemma ElsewhereItself(address: Address)
    ensures InMainMemory(address) <==>
              Canonical(address) < 0x180_0000 || 0x1000_0000 <= Canonical(address) < 0x1800_0000
    ensures !InMainMemory(address) ==> Canonical(address) == address
  {
  }
}
