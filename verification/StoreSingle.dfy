/** The processor's store-single conversion: a double's bits narrowed to a single's bits. */
module StoreSingle {
  import opened Arithmetic
  import opened MachineTypes

  type Single = Uint32
  type Double = Uint64

  const TWO_21 := 0x20_0000
  const TWO_23 := 0x80_0000
  const TWO_29 := 0x2000_0000
  const TWO_30 := 0x4000_0000
  const TWO_31 := 0x8000_0000
  const TWO_52 := 0x10_0000_0000_0000
  const TWO_62 := 0x4000_0000_0000_0000
  const TWO_63 := 0x8000_0000_0000_0000

  /** The fields of a double, sign first. */
  function DoubleBits(sign: nat, exponent: nat, fraction: nat): Double
    requires sign < 2 && exponent < 2048 && fraction < TWO_52
  {
    sign * TWO_63 + exponent * TWO_52 + fraction
  }

  function SingleBits(sign: nat, exponent: nat, fraction: nat): Single
    requires sign < 2 && exponent < 256 && fraction < TWO_23
  {
    sign * TWO_31 + exponent * TWO_23 + fraction
  }

  function Sign(d: Double): nat { d / TWO_63 }
  function Exponent(d: Double): nat { d / TWO_52 % 2048 }
  function Fraction(d: Double): nat { d % TWO_52 }

  /** The subnormal arm: the significand with its leading one, shifted right. */
  function Shifted(fraction: nat, exponent: nat): (n: nat)
    requires fraction < TWO_52 && 874 <= exponent <= 896
    ensures n < TWO_23
  {
    NarrowedFits(fraction, exponent);
    (TWO_31 + fraction / TWO_21) / PowerOfTwo(905 - exponent)
  }

  lemma TopBits(d: Double)
    ensures d / TWO_63 < 2 && d / TWO_62 < 4
  {
  }

  lemma FieldsFit(sign: nat, top: nat, low: nat, shifted: nat)
    requires sign < 2 && top < 4 && low < TWO_30 && shifted < TWO_23
    ensures shifted + sign * TWO_31 < TWO_32 && top * TWO_30 + low < TWO_32
  {
  }

  /** The conversion. Joining fields with "or" is adding them, since they do not overlap. */
  function ConvertPpcDoubleToSingleBits(d: Double): Single {
    TopBits(d);
    if 874 <= Exponent(d) <= 896 then
      FieldsFit(d / TWO_63, 0, 0, Shifted(Fraction(d), Exponent(d)));
      Shifted(Fraction(d), Exponent(d)) + d / TWO_63 * TWO_31
    else
      FieldsFit(0, d / TWO_62, d / TWO_29 % TWO_30, 0);
      d / TWO_62 * TWO_30 + d / TWO_29 % TWO_30
  }

  // ---- The source's masks and shifts, in machine words ----

  /** The exponent field, and the unsigned test that it lies in the window of the subnormal arm. */
  lemma ExponentMask(d: bv64, exponent: bv32)
    ensures (d >> 52) & 0x7FF == d / 0x10_0000_0000_0000 % 2048
    ensures exponent - 874 <= 22 <==> 874 <= exponent && exponent <= 896
  {
  }

  /** The narrowing arm: the two masked parts join to the sum that the conversion is written as. */
  lemma NarrowingMask(d: bv64)
    ensures ((d >> 32) & 0xC000_0000) | ((d >> 29) & 0x3FFF_FFFF) ==
              d / 0x4000_0000_0000_0000 * 0x4000_0000 + d / 0x2000_0000 % 0x4000_0000
  {
  }

  /** The subnormal arm before its shift: the leading one joins the top of the fraction in a 32-bit word, and the
      sign is the top bit of another. */
  lemma JoiningMask(d: bv64)
    ensures var joined := 0x8000_0000 | ((d & 0xF_FFFF_FFFF_FFFF) >> 21);
            joined == 0x8000_0000 + d % 0x10_0000_0000_0000 / 0x20_0000 && joined < 0x1_0000_0000
    ensures (d >> 32) & 0x8000_0000 == d / 0x8000_0000_0000_0000 * 0x8000_0000
  {
  }

  function Halved(x: bv32, times: bv32): bv32 {
    if times == 0 then x else Halved(x, times - 1) / 2
  }

  /** A shift is as many halvings, as PowerOfTwo is doublings. */
  lemma {:induction false} ShiftHalves(x: bv32, times: bv32)
    requires times < 32
    ensures x >> times == Halved(x, times)
  {
    if times == 0 {
    } else {
      ShiftHalves(x, times - 1);
      ShiftStep(x, times);
    }
  }

  lemma ShiftStep(x: bv32, times: bv32)
    requires 0 < times && times < 32
    ensures x >> times == (x >> (times - 1)) / 2
  {
  }

  /** The shift by 9 to 31 of that arm leaves the sign bit free, so joining the sign is adding it. */
  lemma ShiftingMask(joined: bv32, sign: bv32, times: bv32)
    requires 9 <= times && times <= 31 && (sign == 0 || sign == 0x8000_0000)
    ensures joined >> times < 0x80_0000
    ensures (joined >> times) | sign == Halved(joined, times) + sign
  {
    ShiftHalves(joined, times);
    SignJoins(joined >> times, sign);
  }

  lemma SignJoins(low: bv32, sign: bv32)
    requires low < 0x80_0000 && (sign == 0 || sign == 0x8000_0000)
    ensures low | sign == low + sign
  {
  }

  // ---- Powers of two ----

  lemma Doubled(a: int, b: int)
    ensures (2 * a) * b == 2 * (a * b)
  {
  }

  lemma {:induction false} PowerSum(a: nat, b: nat)
    ensures PowerOfTwo(a + b) == PowerOfTwo(a) * PowerOfTwo(b)
  {
    if a == 0 {
    } else {
      PowerSum(a - 1, b);
      Doubled(PowerOfTwo(a - 1), PowerOfTwo(b));
    }
  }

  lemma {:induction false} PowerGrows(a: nat, b: nat)
    requires a <= b
    ensures PowerOfTwo(a) <= PowerOfTwo(b)
  {
    if a == b {
    } else {
      PowerGrows(a, b - 1);
    }
  }

  lemma Powers()
    ensures PowerOfTwo(9) == 512 && PowerOfTwo(21) == TWO_21 && PowerOfTwo(22) * 2 == TWO_23 && PowerOfTwo(23) == TWO_23
    ensures PowerOfTwo(29) == TWO_29 && PowerOfTwo(31) == TWO_31
  {
    assert PowerOfTwo(3) == 8;
    assert PowerOfTwo(6) == 64;
    assert PowerOfTwo(9) == 512;
    assert PowerOfTwo(12) == 4096;
    assert PowerOfTwo(15) == 0x8000;
    assert PowerOfTwo(18) == 0x4_0000;
    assert PowerOfTwo(20) == 0x10_0000;
    assert PowerOfTwo(22) == 0x40_0000;
    assert PowerOfTwo(25) == 0x200_0000;
    assert PowerOfTwo(28) == 0x1000_0000;
    assert PowerOfTwo(30) == TWO_30;
  }

  /** The shifted significand leaves room for the sign. */
  lemma NarrowedFits(fraction: nat, exponent: nat)
    requires fraction < TWO_52 && 874 <= exponent <= 896
    ensures (TWO_31 + fraction / TWO_21) / PowerOfTwo(905 - exponent) < TWO_23
  {
    Powers();
    PowerGrows(9, 905 - exponent);
    var a, p := TWO_31 + fraction / TWO_21, PowerOfTwo(905 - exponent);
    DivisionBounds(a, p);
    if a / p >= TWO_23 {
      Ordered(TWO_23, a / p, p);
      Ordered(512, p, TWO_23);
    }
  }

  // ---- Values ----

  /** The magnitude of a double in units of the smallest double, 2^-1074. */
  function DoubleMagnitude(d: Double): nat {
    if Exponent(d) == 0 then Fraction(d) else (TWO_52 + Fraction(d)) * PowerOfTwo(Exponent(d) - 1)
  }

  function SingleSign(s: Single): nat { s / TWO_31 }
  function SingleExponent(s: Single): nat { s / TWO_23 % 256 }
  function SingleFraction(s: Single): nat { s % TWO_23 }

  /** One unit in a single's last place, in units of 2^-1074; the smallest single is 2^925 of them. */
  function SingleUlp(s: Single): nat {
    PowerOfTwo((if SingleExponent(s) == 0 then 0 else SingleExponent(s) - 1) + 925)
  }

  function SingleMagnitude(s: Single): nat {
    (if SingleExponent(s) == 0 then SingleFraction(s) else TWO_23 + SingleFraction(s)) * SingleUlp(s)
  }

  lemma SingleFields(sign: nat, exponent: nat, fraction: nat)
    requires sign < 2 && exponent < 256 && fraction < TWO_23
    ensures var s := SingleBits(sign, exponent, fraction);
            SingleSign(s) == sign && SingleExponent(s) == exponent && SingleFraction(s) == fraction
  {
  }

  lemma DoubleFields(sign: nat, exponent: nat, fraction: nat)
    requires sign < 2 && exponent < 2048 && fraction < TWO_52
    ensures var d := DoubleBits(sign, exponent, fraction);
            Sign(d) == sign && Exponent(d) == exponent && Fraction(d) == fraction
  {
  }

  lemma FromFields(d: Double)
    ensures Sign(d) < 2 && Exponent(d) < 2048 && Fraction(d) < TWO_52
    ensures d == DoubleBits(Sign(d), Exponent(d), Fraction(d))
  {
  }

  lemma NormalSingle(sign: nat, exponent: nat, fraction: nat)
    requires sign < 2 && 0 < exponent < 256 && fraction < TWO_23
    ensures var s := SingleBits(sign, exponent, fraction);
            && SingleSign(s) == sign && SingleUlp(s) == PowerOfTwo(exponent + 924)
            && SingleMagnitude(s) == (TWO_23 + fraction) * PowerOfTwo(exponent + 924)
  {
    SingleFields(sign, exponent, fraction);
  }

  lemma NormalDouble(sign: nat, exponent: nat, fraction: nat)
    requires sign < 2 && 0 < exponent < 2048 && fraction < TWO_52
    ensures var d := DoubleBits(sign, exponent, fraction);
            Sign(d) == sign && DoubleMagnitude(d) == (TWO_52 + fraction) * PowerOfTwo(exponent - 1)
  {
    DoubleFields(sign, exponent, fraction);
  }

  lemma ExponentParts(e: nat)
    requires e < 2048
    ensures e / 1024 < 2 && e % 1024 / 128 < 8 && e % 128 < 128
    ensures e == e / 1024 * 1024 + e % 1024 / 128 * 128 + e % 128
  {
  }

  lemma NarrowParts(sign: nat, top: nat, middle: nat, low: nat, f: nat)
    requires sign < 2 && top < 2 && middle < 8 && low < 128 && f < TWO_52
    ensures var d := sign * TWO_63 + (top * 1024 + middle * 128 + low) * TWO_52 + f;
            && d / TWO_62 == sign * 2 + top
            && d / TWO_29 % TWO_30 == low * TWO_23 + f / TWO_29
  {
  }

  lemma NarrowJoins(sign: nat, top: nat, low: nat, f: nat)
    requires sign < 2 && top < 2 && low < 128 && f < TWO_52
    ensures f / TWO_29 < TWO_23
    ensures (sign * 2 + top) * TWO_30 + (low * TWO_23 + f / TWO_29) == SingleBits(sign, top * 128 + low, f / TWO_29)
  {
  }

  /** The narrowing arm keeps the sign, the two ends of the exponent, and the top of the fraction. */
  lemma NarrowsFields(sign: nat, e: nat, f: nat)
    requires sign < 2 && e < 2048 && f < TWO_52 && !(874 <= e <= 896)
    ensures e / 1024 * 128 + e % 128 < 256 && f / TWO_29 < TWO_23
    ensures ConvertPpcDoubleToSingleBits(DoubleBits(sign, e, f)) ==
              SingleBits(sign, e / 1024 * 128 + e % 128, f / TWO_29)
  {
    var d, top, middle, low := DoubleBits(sign, e, f), e / 1024, e % 1024 / 128, e % 128;
    ExponentParts(e);
    DoubleFields(sign, e, f);
    NarrowParts(sign, top, middle, low, f);
    NarrowJoins(sign, top, low, f);
    assert d == sign * TWO_63 + (top * 1024 + middle * 128 + low) * TWO_52 + f;
  }

  /** The subnormal arm keeps the sign and gives exponent zero. */
  lemma ShiftsFields(sign: nat, e: nat, f: nat)
    requires sign < 2 && f < TWO_52 && 874 <= e <= 896
    ensures ConvertPpcDoubleToSingleBits(DoubleBits(sign, e, f)) == SingleBits(sign, 0, Shifted(f, e))
  {
    DoubleFields(sign, e, f);
  }

  // ---- Truncation ----

  lemma QuotientOfQuotient(a: nat, b: nat, c: nat)
    requires b > 0 && c > 0
    ensures b * c > 0 && a / b / c == a / (b * c)
  {
    var q := a / b / c;
    DivisionBounds(a, b);
    DivisionBounds(a / b, c);
    Ordered(q * c, a / b, b);
    Ordered(a / b + 1, (q + 1) * c, b);
    Associated(q, c, b);
    Associated(q + 1, c, b);
    assert b * c > 0;
    QuotientIs(a, b * c, q);
  }

  lemma Associated(a: int, b: int, c: int)
    ensures a * b * c == a * (c * b)
  {
  }

  /** Dropping low bits of a significand of 53 bits and scaling back loses less than one unit. */
  lemma Truncates(significand: nat, dropped: nat, scale: nat)
    ensures var kept := significand / PowerOfTwo(dropped);
            && kept * PowerOfTwo(dropped + scale) <= significand * PowerOfTwo(scale)
            && significand * PowerOfTwo(scale) < (kept + 1) * PowerOfTwo(dropped + scale)
  {
    var kept, p, q := significand / PowerOfTwo(dropped), PowerOfTwo(dropped), PowerOfTwo(scale);
    DivisionBounds(significand, p);
    PowerSum(dropped, scale);
    Ordered(kept * p, significand, q);
    Strictly(significand, (kept + 1) * p, q);
    Associated(kept, p, q);
    Associated(kept + 1, p, q);
    assert q * p == p * q;
  }

  lemma Strictly(a: int, b: int, c: nat)
    requires c > 0
    ensures a < b ==> a * c < b * c
  {
    if a < b {
      assert (b - a) * c > 0;
    }
  }

  lemma SplitHalves(f: nat)
    requires f < TWO_52
    ensures (TWO_52 + f) / TWO_21 == TWO_31 + f / TWO_21
    ensures (TWO_52 + f) / TWO_29 == TWO_23 + f / TWO_29
  {
  }

  /** The magnitudes of the masking arm, in units of 2^-1074. */
  lemma NormalMagnitude(e: nat, f: nat)
    requires f < TWO_52 && 897 <= e <= 1150
    ensures var kept, ulp := TWO_23 + f / TWO_29, PowerOfTwo(e + 28);
            kept * ulp <= (TWO_52 + f) * PowerOfTwo(e - 1) < kept * ulp + ulp
  {
    SplitHalves(f);
    Powers();
    Truncates(TWO_52 + f, 29, e - 1);
    LastPlace(TWO_23 + f / TWO_29, PowerOfTwo(e + 28));
  }

  /** A double whose exponent lies in the normal single range is truncated towards zero. */
  lemma NormalTruncates(sign: nat, e: nat, f: nat)
    requires sign < 2 && f < TWO_52 && 897 <= e <= 1150
    ensures Truncated(DoubleBits(sign, e, f))
  {
    NormalDouble(sign, e, f);
    NarrowsFields(sign, e, f);
    NormalExponent(e);
    NormalSingle(sign, e - 896, f / TWO_29);
    NormalMagnitude(e, f);
  }

  lemma NormalExponent(e: nat)
    requires 897 <= e <= 1150
    ensures e / 1024 * 128 + e % 128 == e - 896
  {
  }

  lemma LastPlace(kept: nat, ulp: nat)
    ensures (kept + 1) * ulp == kept * ulp + ulp
  {
  }

  lemma ShiftedIsQuotient(f: nat, e: nat)
    requires f < TWO_52 && 874 <= e <= 896
    ensures Shifted(f, e) == (TWO_52 + f) / PowerOfTwo(926 - e)
  {
    SplitHalves(f);
    Powers();
    PowerSum(21, 905 - e);
    QuotientOfQuotient(TWO_52 + f, TWO_21, PowerOfTwo(905 - e));
  }

  /** The magnitudes of the shifting arm, in units of 2^-1074. */
  lemma SubnormalMagnitude(e: nat, f: nat)
    requires f < TWO_52 && 874 <= e <= 896
    ensures var kept, ulp := Shifted(f, e), PowerOfTwo(925);
            kept * ulp <= (TWO_52 + f) * PowerOfTwo(e - 1) < kept * ulp + ulp
  {
    ShiftedIsQuotient(f, e);
    Truncates(TWO_52 + f, 926 - e, e - 1);
    LastPlace(Shifted(f, e), PowerOfTwo(925));
  }

  /** A double in the subnormal single range is truncated towards zero to a subnormal single. */
  lemma SubnormalTruncates(sign: nat, e: nat, f: nat)
    requires sign < 2 && f < TWO_52 && 874 <= e <= 896
    ensures Truncated(DoubleBits(sign, e, f))
  {
    NormalDouble(sign, e, f);
    ShiftsFields(sign, e, f);
    SingleFields(sign, 0, Shifted(f, e));
    SubnormalMagnitude(e, f);
  }

  /** The stored single has the double's sign and is the double cut off in its last place. */
  predicate Truncated(d: Double) {
    var s := ConvertPpcDoubleToSingleBits(d);
    && SingleSign(s) == Sign(d)
    && SingleMagnitude(s) <= DoubleMagnitude(d) < SingleMagnitude(s) + SingleUlp(s)
  }

  /** For every double in the documented conversion range the stored single has the same sign and is the
      double truncated towards zero, less than one unit in its last place away. */
  lemma StoreTruncates(d: Double)
    requires 874 <= Exponent(d) <= 1150
    ensures Truncated(d)
    ensures SingleSign(ConvertPpcDoubleToSingleBits(d)) == d / 0x8000_0000_0000_0000
    ensures var s := ConvertPpcDoubleToSingleBits(d);
            SingleMagnitude(s) <= DoubleMagnitude(d) < SingleMagnitude(s) + SingleUlp(s)
  {
    FromFields(d);
    if Exponent(d) <= 896 {
      SubnormalTruncates(Sign(d), Exponent(d), Fraction(d));
    } else {
      NormalTruncates(Sign(d), Exponent(d), Fraction(d));
    }
  }

  // ---- Widened singles come back ----

  /** The position of the leading one. */
  function TopBit(n: nat): (k: nat)
    requires n > 0
    ensures PowerOfTwo(k) <= n < 2 * PowerOfTwo(k)
  {
    if n == 1 then 0 else TopBit(n / 2) + 1
  }

  /** The fraction of the double a subnormal single widens to: the bits below its leading one, moved up. */
  function WidenedFraction(f: nat): (r: nat)
    requires 0 < f < TWO_23
    ensures TopBit(f) <= 22 && r < TWO_52
  {
    TopBitFits(f);
    BelowTopBit(TopBit(f), f - PowerOfTwo(TopBit(f)));
    (f - PowerOfTwo(TopBit(f))) * PowerOfTwo(52 - TopBit(f))
  }

  lemma TopBitFits(f: nat)
    requires 0 < f < TWO_23
    ensures TopBit(f) <= 22
  {
    Powers();
    if TopBit(f) > 22 {
      PowerGrows(23, TopBit(f));
    }
  }

  lemma BelowTopBit(k: nat, r: nat)
    requires k <= 22 && r < PowerOfTwo(k)
    ensures r * PowerOfTwo(52 - k) < TWO_52
  {
    Powers();
    PowerSum(k, 52 - k);
    PowerSum(23, 29);
    Strictly(r, PowerOfTwo(k), PowerOfTwo(52 - k));
  }

  /** The double with the same value, or the same infinity or payload, as a single. */
  function Widened(s: Single): Double {
    var sign, e, f := SingleSign(s), SingleExponent(s), SingleFraction(s);
    if e == 255 then DoubleBits(sign, 2047, f * TWO_29)
    else if e != 0 then DoubleBits(sign, e + 896, f * TWO_29)
    else if f == 0 then DoubleBits(sign, 0, 0)
    else DoubleBits(sign, TopBit(f) + 874, WidenedFraction(f))
  }

  /** What makes it the same: the sign, and the value or the infinity's or NaN's payload. */
  lemma WidenedIsEqual(s: Single)
    ensures Sign(Widened(s)) == SingleSign(s)
    ensures SingleExponent(s) < 255 ==> DoubleMagnitude(Widened(s)) == SingleMagnitude(s)
    ensures SingleExponent(s) == 255 ==>
              Exponent(Widened(s)) == 2047 && Fraction(Widened(s)) == SingleFraction(s) * 0x2000_0000
  {
    var sign, e, f := SingleSign(s), SingleExponent(s), SingleFraction(s);
    if e == 255 {
      DoubleFields(sign, 2047, f * TWO_29);
    } else if e != 0 {
      NormalIsEqual(sign, e, f);
    } else if f == 0 {
      DoubleFields(sign, 0, 0);
    } else {
      SubnormalIsEqual(sign, f);
    }
  }

  lemma NormalIsEqual(sign: nat, e: nat, f: nat)
    requires sign < 2 && 0 < e < 255 && f < TWO_23
    ensures var d := DoubleBits(sign, e + 896, f * TWO_29);
            Sign(d) == sign && DoubleMagnitude(d) == (TWO_23 + f) * PowerOfTwo(e - 1 + 925)
  {
    NormalDouble(sign, e + 896, f * TWO_29);
    NormalWidens(e, f);
  }

  lemma SubnormalIsEqual(sign: nat, f: nat)
    requires sign < 2 && 0 < f < TWO_23
    ensures TopBit(f) <= 22
    ensures var d := DoubleBits(sign, TopBit(f) + 874, WidenedFraction(f));
            Sign(d) == sign && DoubleMagnitude(d) == f * PowerOfTwo(52 - TopBit(f) + (TopBit(f) + 873))
  {
    TopBitFits(f);
    LeadingOneWidens(sign, TopBit(f), f, WidenedFraction(f));
  }

  lemma LeadingOneWidens(sign: nat, k: nat, f: nat, widened: nat)
    requires sign < 2 && k <= 22 && PowerOfTwo(k) <= f
    requires widened == (f - PowerOfTwo(k)) * PowerOfTwo(52 - k) < TWO_52
    ensures var d := DoubleBits(sign, k + 874, widened);
            Sign(d) == sign && DoubleMagnitude(d) == f * PowerOfTwo(52 - k + (k + 873))
  {
    NormalDouble(sign, k + 874, widened);
    SubnormalWidens(k, f - PowerOfTwo(k));
  }

  lemma NormalWidens(e: nat, f: nat)
    requires 0 < e < 255 && f < TWO_23
    ensures (TWO_52 + f * TWO_29) * PowerOfTwo(e + 895) == (TWO_23 + f) * PowerOfTwo(e - 1 + 925)
  {
    Powers();
    PowerSum(29, e + 895);
    assert TWO_52 + f * TWO_29 == (TWO_23 + f) * TWO_29;
    Regrouped(TWO_23 + f, TWO_29, PowerOfTwo(e + 895));
  }

  lemma SubnormalWidens(k: nat, r: nat)
    requires k <= 22
    ensures (TWO_52 + r * PowerOfTwo(52 - k)) * PowerOfTwo(k + 873) ==
              (PowerOfTwo(k) + r) * PowerOfTwo(52 - k + (k + 873))
  {
    FractionPower();
    PowerSum(k, 52 - k);
    PowerSum(52 - k, k + 873);
    Factored(PowerOfTwo(k), r, PowerOfTwo(52 - k), PowerOfTwo(k + 873));
  }

  lemma FractionPower()
    ensures PowerOfTwo(52) == TWO_52
  {
    Powers();
    PowerSum(23, 29);
  }

  lemma Factored(a: nat, r: nat, b: nat, c: nat)
    ensures (a * b + r * b) * c == (a + r) * (b * c)
  {
    assert a * b + r * b == (a + r) * b;
    Regrouped(a + r, b, c);
  }

  lemma Regrouped(a: nat, b: nat, c: nat)
    ensures (a * b) * c == a * (b * c)
  {
  }

  lemma SingleFromFields(s: Single)
    ensures s == SingleBits(SingleSign(s), SingleExponent(s), SingleFraction(s))
  {
  }

  lemma UpThenCut(k: nat, r: nat)
    requires k <= 22
    ensures r * PowerOfTwo(52 - k) / TWO_21 == r * PowerOfTwo(31 - k)
  {
    Powers();
    PowerSum(31 - k, 21);
    CutBack(r, PowerOfTwo(31 - k), TWO_21);
  }

  lemma CutBack(r: nat, p: nat, t: nat)
    requires t > 0
    ensures r * (p * t) / t == r * p
  {
    assert r * (p * t) == (r * p) * t;
    QuotientIs((r * p) * t, t, r * p);
  }

  lemma LeadingOneJoins(k: nat, r: nat)
    requires k <= 22
    ensures TWO_31 + r * PowerOfTwo(31 - k) == (PowerOfTwo(k) + r) * PowerOfTwo(31 - k)
  {
    Powers();
    PowerSum(k, 31 - k);
    Distributed(PowerOfTwo(k), r, PowerOfTwo(31 - k));
  }

  /** Moving the bits below a leading one up by 52 - k and the whole down by 31 - k after cutting 21. */
  lemma ShiftedBack(k: nat, r: nat)
    requires k <= 22
    ensures (TWO_31 + r * PowerOfTwo(52 - k) / TWO_21) / PowerOfTwo(31 - k) == PowerOfTwo(k) + r
  {
    var n, p := PowerOfTwo(k) + r, PowerOfTwo(31 - k);
    UpThenCut(k, r);
    LeadingOneJoins(k, r);
    LastPlace(n, p);
    QuotientIs(n * p, p, n);
  }

  lemma Distributed(a: int, b: int, c: int)
    ensures (a + b) * c == a * c + b * c && a * c == c * a && b * c == c * b
  {
  }

  /** Widening a subnormal single and storing it shifts its significand up and down again. */
  lemma SubnormalReturns(f: nat)
    requires 0 < f < TWO_23
    ensures TopBit(f) <= 22 && Shifted(WidenedFraction(f), TopBit(f) + 874) == f
  {
    TopBitFits(f);
    BelowTopBit(TopBit(f), f - PowerOfTwo(TopBit(f)));
    ShiftedBack(TopBit(f), f - PowerOfTwo(TopBit(f)));
  }

  lemma NormalReturns(sign: nat, e: nat, f: nat)
    requires sign < 2 && (e == 0 ==> f == 0) && e < 256 && f < TWO_23
    ensures ConvertPpcDoubleToSingleBits(
              DoubleBits(sign, if e == 255 then 2047 else if e != 0 then e + 896 else 0, f * TWO_29)) ==
              SingleBits(sign, e, f)
  {
    NarrowsFields(sign, if e == 255 then 2047 else if e != 0 then e + 896 else 0, f * TWO_29);
    if 0 < e < 255 {
      NormalExponent(e + 896);
    }
  }

  /** Every one of the 2^32 single patterns, widened and stored, comes back unchanged. */
  lemma WidenedReturns(s: Single)
    ensures ConvertPpcDoubleToSingleBits(Widened(s)) == s
  {
    SingleFromFields(s);
    var sign, e, f := SingleSign(s), SingleExponent(s), SingleFraction(s);
    if e == 0 && f != 0 {
      SubnormalReturns(f);
      ShiftsFields(sign, TopBit(f) + 874, WidenedFraction(f));
    } else {
      NormalReturns(sign, e, f);
    }
  }
}
