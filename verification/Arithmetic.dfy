/** Powers of two, and facts about products and quotients with a variable divisor. */
module Arithmetic {
  function PowerOfTwo(n: nat): (p: nat)
    ensures p >= 1
  {
    if n == 0 then 1 else 2 * PowerOfTwo(n - 1)
  }

  lemma Ordered(a: int, b: int, c: nat)
    ensures a <= b ==> a * c <= b * c
  {
    if a <= b {
      assert (b - a) * c >= 0;
    }
  }

  lemma DivisionBounds(a: nat, b: nat)
    requires b > 0
    ensures a / b * b <= a < (a / b + 1) * b
  {
    assert a == a / b * b + a % b;
  }

  lemma QuotientIs(a: nat, b: nat, q: nat)
    requires b > 0 && q * b <= a < (q + 1) * b
    ensures a / b == q
  {
    DivisionBounds(a, b);
    Ordered(a / b + 1, q, b);
    Ordered(q + 1, a / b, b);
  }
}
