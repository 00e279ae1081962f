/** Division with a remainder.
 */
module Arithmetic {

  /** Quotient and remainder are determined. */
  lemma DivModUnique(x: int, a: nat, q: int, r: nat)
    requires a > 0 && x == a * q + r && r < a
    ensures x / a == q && x % a == r
  {
    var q', r' := x / a, x % a;
    assert a * (q' - q) == r - r';
    MultipleIsLarge(a, q' - q);
    MultipleIsLarge(a, q - q');
  }

  lemma MultipleIsLarge(a: nat, d: int)
    ensures d >= 1 ==> a * d >= a
  {
    if d >= 1 {
      assert a * d == a + a * (d - 1);
    }
  }

  /** A multiple of the divisor leaves the remainder alone. */
  lemma AddMultiple(x: int, a: nat, q: int)
    requires a > 0
    ensures (x + a * q) % a == x % a
  {
    var k, r := x / a, x % a;
    assert x + a * q == a * (k + q) + r;
    DivModUnique(x + a * q, a, k + q, r);
  }

  /** A remainder under a doubled divisor, the lowest bit apart. */
  lemma DoubleRemainder(bit: nat, half: nat, p: nat)
    requires bit <= 1 && p > 0
    ensures (bit + 2 * half) % (2 * p) == bit + 2 * (half % p)
  {
    var q, r := half / p, half % p;
    assert half == p * q + r;
    DoubleProduct(p, q);
    DivModUnique(bit + 2 * half, 2 * p, q, bit + 2 * r);
  }

  lemma DoubleProduct(p: int, q: int)
    ensures (2 * p) * q == 2 * (p * q)
  {
  }
}
