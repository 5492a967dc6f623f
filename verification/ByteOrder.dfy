/** Guest scalars are big-endian; the host copies them with memcpy and swaps (memory_access.h). */
module ByteOrder {
  import opened Arithmetic
  import opened MachineTypes

  /** 256 to the power of n: how many values n bytes can hold. */
  function Span(n: nat): (s: nat)
    ensures 0 < s
  {
    if n == 0 then 1 else 256 * Span(n - 1)
  }

  function BigEndian(bytes: seq<Byte>): (v: nat)
  {
    if bytes == [] then 0 else BigEndian(bytes[..|bytes| - 1]) * 256 + bytes[|bytes| - 1]
  }

  function BigEndianBytes(n: nat, v: nat): (bytes: seq<Byte>)
    ensures |bytes| == n
  {
    if n == 0 then [] else BigEndianBytes(n - 1, v / 256) + [v % 256]
  }

  /** What a little-endian host reads with memcpy. */
  function LittleEndian(bytes: seq<Byte>): (v: nat) {
    if bytes == [] then 0 else bytes[0] + 256 * LittleEndian(bytes[1..])
  }

  /** What a little-endian host stores with memcpy. */
  function LittleEndianBytes(n: nat, v: nat): (bytes: seq<Byte>)
    ensures |bytes| == n
  {
    if n == 0 then [] else [v % 256] + LittleEndianBytes(n - 1, v / 256)
  }

  function Reverse(bytes: seq<Byte>): (r: seq<Byte>)
    ensures |r| == |bytes|
  {
    if bytes == [] then [] else Reverse(bytes[1..]) + [bytes[0]]
  }

  /** ByteSwap16/32/64: the same bytes in the opposite order. A single byte is its own swap. */
  function ByteSwap(n: nat, v: nat): nat {
    LittleEndian(Reverse(LittleEndianBytes(n, v)))
  }

  lemma LowByte(rest: nat, low: Byte)
    ensures (low + 256 * rest) / 256 == rest && (low + 256 * rest) % 256 == low
  {
  }

  lemma {:induction false} LittleEndianRoundTrip(bytes: seq<Byte>)
    ensures LittleEndianBytes(|bytes|, LittleEndian(bytes)) == bytes
  {
    if bytes == [] {
    } else {
      LittleEndianRoundTrip(bytes[1..]);
      LowByte(LittleEndian(bytes[1..]), bytes[0]);
      assert bytes == [bytes[0]] + bytes[1..];
    }
  }

  lemma {:induction false} LittleEndianValue(n: nat, v: nat)
    requires v < Span(n)
    ensures LittleEndian(LittleEndianBytes(n, v)) == v
  {
    if n == 0 {
    } else {
      LittleEndianValue(n - 1, v / 256);
      assert LittleEndianBytes(n, v)[1..] == LittleEndianBytes(n - 1, v / 256);
    }
  }

  lemma {:induction false} LittleEndianReversed(bytes: seq<Byte>)
    ensures LittleEndian(Reverse(bytes)) == BigEndian(bytes)
    decreases |bytes|
  {
    if bytes == [] {
    } else {
      var front, last := bytes[..|bytes| - 1], bytes[|bytes| - 1];
      ReverseLast(front, last);
      assert bytes == front + [last];
      assert ([last] + Reverse(front))[1..] == Reverse(front);
      LittleEndianReversed(front);
    }
  }

  lemma {:induction false} ReverseLast(front: seq<Byte>, last: Byte)
    ensures Reverse(front + [last]) == [last] + Reverse(front)
  {
    if front == [] {
    } else {
      ReverseLast(front[1..], last);
      assert (front + [last])[1..] == front[1..] + [last];
    }
  }

  lemma {:induction false} ReverseTwice(bytes: seq<Byte>)
    ensures Reverse(Reverse(bytes)) == bytes
  {
    if bytes == [] {
    } else {
      ReverseTwice(bytes[1..]);
      ReverseLast(Reverse(bytes[1..]), bytes[0]);
      assert bytes == [bytes[0]] + bytes[1..];
    }
  }

  lemma {:induction false} ReversedLittleIsBig(n: nat, v: nat)
    ensures Reverse(LittleEndianBytes(n, v)) == BigEndianBytes(n, v)
  {
    if n == 0 {
    } else {
      ReversedLittleIsBig(n - 1, v / 256);
      assert LittleEndianBytes(n, v)[1..] == LittleEndianBytes(n - 1, v / 256);
    }
  }

  /** A native load followed by the swap is the big-endian value of the bytes. */
  lemma SwappedLoad(bytes: seq<Byte>)
    ensures ByteSwap(|bytes|, LittleEndian(bytes)) == BigEndian(bytes)
  {
    LittleEndianRoundTrip(bytes);
    LittleEndianReversed(bytes);
  }

  /** The swap followed by a native store leaves the big-endian bytes of the value. */
  lemma SwappedStore(n: nat, v: nat)
    ensures LittleEndianBytes(n, ByteSwap(n, v)) == BigEndianBytes(n, v)
  {
    LittleEndianRoundTrip(Reverse(LittleEndianBytes(n, v)));
    ReversedLittleIsBig(n, v);
  }

  /** Swapping twice gives the value back. */
  lemma SwapTwice(n: nat, v: nat)
    requires v < Span(n)
    ensures ByteSwap(n, ByteSwap(n, v)) == v
  {
    var bytes := LittleEndianBytes(n, v);
    LittleEndianRoundTrip(Reverse(bytes));
    ReverseTwice(bytes);
    LittleEndianValue(n, v);
  }

  lemma {:induction false} BigEndianRoundTrip(bytes: seq<Byte>)
    ensures BigEndianBytes(|bytes|, BigEndian(bytes)) == bytes
    ensures BigEndian(bytes) < Span(|bytes|)
  {
    if bytes == [] {
    } else {
      BigEndianRoundTrip(bytes[..|bytes| - 1]);
      assert bytes == bytes[..|bytes| - 1] + [bytes[|bytes| - 1]];
    }
  }

  lemma {:induction false} BigEndianValue(n: nat, v: nat)
    requires v < Span(n)
    ensures BigEndian(BigEndianBytes(n, v)) == v
  {
    if n == 0 {
    } else {
      BigEndianValue(n - 1, v / 256);
      assert BigEndianBytes(n, v)[..n - 1] == BigEndianBytes(n - 1, v / 256);
    }
  }

  /** Shifting and masking a packed big-endian value takes it apart into its two lanes. */
  lemma {:induction false} PackedPair(first: seq<Byte>, second: seq<Byte>)
    ensures BigEndian(first + second) / Span(|second|) == BigEndian(first)
    ensures BigEndian(first + second) % Span(|second|) == BigEndian(second)
    ensures BigEndian(first + second) == BigEndian(first) * Span(|second|) + BigEndian(second)
    decreases |second|
  {
    if second == [] {
      assert first + second == first;
    } else {
      var front, last := second[..|second| - 1], second[|second| - 1];
      var whole := first + second;
      assert whole[..|whole| - 1] == first + front;
      PackedPair(first, front);
      BigEndianRoundTrip(second);
      Unpack(BigEndian(first), Span(|front|), BigEndian(front), last);
    }
  }

  lemma Unpack(hi: nat, span: nat, lo: nat, last: Byte)
    requires 0 < span && lo * 256 + last < 256 * span
    ensures (hi * span + lo) * 256 + last == hi * (256 * span) + (lo * 256 + last)
    ensures ((hi * span + lo) * 256 + last) / (256 * span) == hi
    ensures ((hi * span + lo) * 256 + last) % (256 * span) == lo * 256 + last
  {
    var big, rest := 256 * span, lo * 256 + last;
    assert (hi * span + lo) * 256 + last == hi * big + rest by {
      assert (hi * span) * 256 == hi * (256 * span);
    }
    DivModUnique(hi * big + rest, big, hi, rest);
  }

  lemma QuotientUnique(d: nat, q: nat, r: nat, q': nat, r': nat)
    requires r < d && r' < d && q * d + r == q' * d + r'
    ensures q == q' && r == r'
  {
    if q < q' {
      Ordered(q + 1, q', d);
    } else if q' < q {
      Ordered(q' + 1, q, d);
    }
  }

  lemma DivModUnique(x: nat, d: nat, q: nat, r: nat)
    requires 0 < d && x == q * d + r && r < d
    ensures x / d == q && x % d == r
  {
    QuotientUnique(d, q, r, x / d, x % d);
  }
}
