/** Numbers written in decimal. */
module Numerals {
  function Decimal(n: nat): (s: string)
    ensures s != "" && forall i | 0 <= i < |s| :: '0' <= s[i] <= '9'
  {
    if n < 10 then [('0' as int + n) as char]
    else Decimal(n / 10) + [('0' as int + n % 10) as char]
  }

  function Zeros(n: nat): (s: string)
    ensures |s| == n && forall i | 0 <= i < n :: s[i] == '0'
  {
    seq(n, _ => '0')
  }

  /** The number that a string of digits writes. */
  function Value(digits: string): nat
    requires forall i | 0 <= i < |digits| :: '0' <= digits[i] <= '9'
  {
    if digits == "" then 0
    else Value(digits[..|digits| - 1]) * 10 + (digits[|digits| - 1] as int - '0' as int)
  }

  lemma {:induction false} DecimalValue(n: nat)
    ensures Value(Decimal(n)) == n
  {
    if n < 10 {
      assert Decimal(n)[..0] == "";
    } else {
      DecimalValue(n / 10);
      assert Decimal(n)[..|Decimal(n)| - 1] == Decimal(n / 10);
    }
  }

  lemma {:induction false} LeadingZeros(k: nat, digits: string)
    requires forall i | 0 <= i < |digits| :: '0' <= digits[i] <= '9'
    ensures Value(Zeros(k) + digits) == Value(digits)
    decreases k + |digits|
  {
    var t := Zeros(k) + digits;
    if digits != "" {
      var front := digits[..|digits| - 1];
      LeadingZeros(k, front);
      assert t[..|t| - 1] == Zeros(k) + front;
    } else if k > 0 {
      LeadingZeros(k - 1, digits);
      assert t[..|t| - 1] == Zeros(k - 1) + digits;
    } else {
      assert t == digits;
    }
  }
}
