/** The rotating key of the console's setting.txt and the exclusive or it is applied with. */
module SettingsKey {
  import opened Arithmetic
  import opened MachineTypes

  // ---- The key ----

  const FIRST_KEY := 0x73B5DBFA

  /** One step to the left with the top bit carried round to the bottom. */
  function Rotate(key: nat): (r: nat)
    requires key < TWO_32
    ensures r < TWO_32
  {
    if key >= 0x8000_0000 then 2 * key - TWO_32 + 1 else 2 * key
  }

  function KeyAt(position: nat): (key: nat)
    ensures key < TWO_32
  {
    if position == 0 then FIRST_KEY else Rotate(KeyAt(position - 1))
  }

  function KeyByte(position: nat): Byte { KeyAt(position) % 256 }

  lemma NextKey(position: nat)
    ensures KeyAt(position + 1) == Rotate(KeyAt(position))
  {
  }

  lemma Keys0(p: nat)
    requires KeyAt(p) == 0x73b5dbfa
    ensures KeyAt(p + 1) == 0xe76bb7f4
    ensures KeyAt(p + 2) == 0xced76fe9
    ensures KeyAt(p + 3) == 0x9daedfd3
    ensures KeyAt(p + 4) == 0x3b5dbfa7
  {
    NextKey(p);
    NextKey(p + 1);
    NextKey(p + 2);
    NextKey(p + 3);
  }

  lemma Keys4(p: nat)
    requires KeyAt(p) == 0x3b5dbfa7
    ensures KeyAt(p + 1) == 0x76bb7f4e
    ensures KeyAt(p + 2) == 0xed76fe9c
    ensures KeyAt(p + 3) == 0xdaedfd39
    ensures KeyAt(p + 4) == 0xb5dbfa73
  {
    NextKey(p);
    NextKey(p + 1);
    NextKey(p + 2);
    NextKey(p + 3);
  }

  lemma Keys8(p: nat)
    requires KeyAt(p) == 0xb5dbfa73
    ensures KeyAt(p + 1) == 0x6bb7f4e7
    ensures KeyAt(p + 2) == 0xd76fe9ce
    ensures KeyAt(p + 3) == 0xaedfd39d
    ensures KeyAt(p + 4) == 0x5dbfa73b
  {
    NextKey(p);
    NextKey(p + 1);
    NextKey(p + 2);
    NextKey(p + 3);
  }

  lemma Keys12(p: nat)
    requires KeyAt(p) == 0x5dbfa73b
    ensures KeyAt(p + 1) == 0xbb7f4e76
    ensures KeyAt(p + 2) == 0x76fe9ced
    ensures KeyAt(p + 3) == 0xedfd39da
    ensures KeyAt(p + 4) == 0xdbfa73b5
  {
    NextKey(p);
    NextKey(p + 1);
    NextKey(p + 2);
    NextKey(p + 3);
  }

  lemma Keys16(p: nat)
    requires KeyAt(p) == 0xdbfa73b5
    ensures KeyAt(p + 1) == 0xb7f4e76b
    ensures KeyAt(p + 2) == 0x6fe9ced7
    ensures KeyAt(p + 3) == 0xdfd39dae
    ensures KeyAt(p + 4) == 0xbfa73b5d
  {
    NextKey(p);
    NextKey(p + 1);
    NextKey(p + 2);
    NextKey(p + 3);
  }

  lemma Keys20(p: nat)
    requires KeyAt(p) == 0xbfa73b5d
    ensures KeyAt(p + 1) == 0x7f4e76bb
    ensures KeyAt(p + 2) == 0xfe9ced76
    ensures KeyAt(p + 3) == 0xfd39daed
    ensures KeyAt(p + 4) == 0xfa73b5db
  {
    NextKey(p);
    NextKey(p + 1);
    NextKey(p + 2);
    NextKey(p + 3);
  }

  lemma Keys24(p: nat)
    requires KeyAt(p) == 0xfa73b5db
    ensures KeyAt(p + 1) == 0xf4e76bb7
    ensures KeyAt(p + 2) == 0xe9ced76f
    ensures KeyAt(p + 3) == 0xd39daedf
    ensures KeyAt(p + 4) == 0xa73b5dbf
  {
    NextKey(p);
    NextKey(p + 1);
    NextKey(p + 2);
    NextKey(p + 3);
  }

  lemma Keys28(p: nat)
    requires KeyAt(p) == 0xa73b5dbf
    ensures KeyAt(p + 1) == 0x4e76bb7f
    ensures KeyAt(p + 2) == 0x9ced76fe
    ensures KeyAt(p + 3) == 0x39daedfd
    ensures KeyAt(p + 4) == 0x73b5dbfa
  {
    NextKey(p);
    NextKey(p + 1);
    NextKey(p + 2);
    NextKey(p + 3);
  }

  lemma {:induction false} KeyRepeats(phase: nat, times: nat)
    ensures KeyAt(phase + 32 * times) == KeyAt(phase)
  {
    if phase == 0 && times == 0 {
    } else if phase > 0 {
      KeyRepeats(phase - 1, times);
      NextKey(phase - 1);
      NextKey(phase - 1 + 32 * times);
    } else {
      KeyRepeats(0, times - 1);
      var p := 32 * (times - 1);
      Keys0(p);
      Keys4(p + 4);
      Keys8(p + 8);
      Keys12(p + 12);
      Keys16(p + 16);
      Keys20(p + 20);
      Keys24(p + 24);
      Keys28(p + 28);
    }
  }

  /** A character code no step of the key can turn into a zero: the line and field separators, and every
      letter, digit and sign the printed lines use except 'N' and '9'. */
  predicate Harmless(code: int) {
    || code == 0x0a || code == 0x0d || code == 0x28 || code == 0x29 || code == 0x2d || code == 0x3d || code == 0x78
    || 0x30 <= code <= 0x38
    || 0x41 <= code <= 0x4d
    || 0x4f <= code <= 0x56
  }

  predicate Fits(b: int, phase: int) {
    && b != 0 && !Harmless(b)
    && (b == 0x4e <==> phase == 5)
    && (b == 0x39 <==> phase == 7)
  }

  lemma KeysByFour()
    ensures KeyAt(0) == 0x73b5dbfa && KeyAt(4) == 0x3b5dbfa7 && KeyAt(8) == 0xb5dbfa73 && KeyAt(12) == 0x5dbfa73b
    ensures KeyAt(16) == 0xdbfa73b5 && KeyAt(20) == 0xbfa73b5d && KeyAt(24) == 0xfa73b5db && KeyAt(28) == 0xa73b5dbf
  {
    Keys0(0);
    Keys4(4);
    Keys8(8);
    Keys12(12);
    Keys16(16);
    Keys20(20);
    Keys24(24);
  }

  lemma PadsFitFrom0(phase: nat)
    requires 0 <= phase < 8
    ensures Fits(KeyByte(phase), phase)
  {
    KeysByFour();
    Keys0(0);
    Keys4(4);
  }

  lemma PadsFitFrom8(phase: nat)
    requires 8 <= phase < 16
    ensures Fits(KeyByte(phase), phase)
  {
    KeysByFour();
    Keys8(8);
    Keys12(12);
  }

  lemma PadsFitFrom16(phase: nat)
    requires 16 <= phase < 24
    ensures Fits(KeyByte(phase), phase)
  {
    KeysByFour();
    Keys16(16);
    Keys20(20);
  }

  lemma PadsFitFrom24(phase: nat)
    requires 24 <= phase < 32
    ensures Fits(KeyByte(phase), phase)
  {
    KeysByFour();
    Keys24(24);
    Keys28(28);
  }

  /** What is needed of the 32 key bytes: none is zero or harmless; 'N' is met only at phase 5 and '9'
      only at phase 7. */
  lemma PadFits(phase: nat)
    requires phase < 32
    ensures Fits(KeyByte(phase), phase)
  {
    if phase < 8 {
      PadsFitFrom0(phase);
    } else if phase < 16 {
      PadsFitFrom8(phase);
    } else if phase < 24 {
      PadsFitFrom16(phase);
    } else {
      PadsFitFrom24(phase);
    }
  }

  lemma KeyFits(position: nat)
    ensures Fits(KeyByte(position), position % 32)
  {
    KeyRepeats(position % 32, position / 32);
    PadFits(position % 32);
  }

  // ---- Exclusive or, bit by bit ----

  function XorBits(a: nat, b: nat, bits: nat): (r: nat)
    requires a < PowerOfTwo(bits) && b < PowerOfTwo(bits)
    ensures r < PowerOfTwo(bits)
  {
    if bits == 0 then 0
    else 2 * XorBits(a / 2, b / 2, bits - 1) + (if a % 2 == b % 2 then 0 else 1)
  }

  lemma HalvesOf(a: nat, b: nat, bits: nat)
    requires bits > 0 && a < PowerOfTwo(bits) && b < PowerOfTwo(bits)
    ensures a / 2 < PowerOfTwo(bits - 1) && b / 2 < PowerOfTwo(bits - 1)
    ensures XorBits(a, b, bits) / 2 == XorBits(a / 2, b / 2, bits - 1)
    ensures XorBits(a, b, bits) % 2 == (if a % 2 == b % 2 then 0 else 1)
  {
  }

  lemma {:induction false} XorBitsUndoes(a: nat, b: nat, bits: nat)
    requires a < PowerOfTwo(bits) && b < PowerOfTwo(bits)
    ensures XorBits(XorBits(a, b, bits), b, bits) == a
    ensures XorBits(a, b, bits) == 0 <==> a == b
    ensures XorBits(0, b, bits) == b
  {
    if bits == 0 {
    } else {
      HalvesOf(a, b, bits);
      HalvesOf(0, b, bits);
      HalvesOf(XorBits(a, b, bits), b, bits);
      XorBitsUndoes(a / 2, b / 2, bits - 1);
    }
  }

  lemma ByteBits(a: Byte)
    ensures PowerOfTwo(8) == 256 && a < PowerOfTwo(8)
  {
    assert PowerOfTwo(2) == 4;
    assert PowerOfTwo(4) == 16;
    assert PowerOfTwo(6) == 64;
  }

  function Xor(a: Byte, b: Byte): (r: Byte) {
    ByteBits(a); ByteBits(b);
    XorBits(a, b, 8)
  }

  lemma XorUndoes(a: Byte, b: Byte)
    ensures Xor(Xor(a, b), b) == a
    ensures Xor(a, b) == 0 <==> a == b
    ensures Xor(0, b) == b
  {
    ByteBits(a);
    ByteBits(b);
    XorBitsUndoes(a, b, 8);
  }
}
