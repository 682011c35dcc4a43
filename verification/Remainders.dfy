/** Counting modulo a variable divisor. */
module Remainders {

  lemma Multiples(k: int, d: int)
    requires d > 0
    ensures k >= 2 ==> k * d >= 2 * d
    ensures k == 1 ==> k * d == d
    ensures k <= -1 ==> k * d <= -d
  {
    if k >= 2 {
      assert (k - 2) * d >= 0;
    } else if k <= -1 {
      assert (-1 - k) * d >= 0;
    }
  }

  /** Quotient and remainder in the form the other lemmas use. */
  lemma Division(n: nat, d: int) returns (q: int, r: int)
    requires d > 0
    ensures n == q * d + r && 0 <= r < d && r == n % d
  {
    q, r := n / d, n % d;
  }

  lemma Divided(n: int, q: int, r: int, n': int, q': int, r': int, d: int)
    requires n == q * d + r && n' == q' * d + r'
    ensures (q' - q) * d == (n' - n) + r - r'
  {
  }

  lemma NextRemainder(k: int, d: int, r: int, r': int)
    requires d > 0 && 0 <= r < d && 0 <= r' < d && k * d == 1 + r - r'
    ensures r' == if r == d - 1 then 0 else r + 1
  {
    Multiples(k, d);
  }

  lemma ModuloStep(n: nat, d: int)
    requires d > 0
    ensures (n + 1) % d == if n % d == d - 1 then 0 else n % d + 1
  {
    var q, r := Division(n, d);
    var q', r' := Division(n + 1, d);
    Divided(n, q, r, n + 1, q', r', d);
    NextRemainder(q' - q, d, r, r');
  }
}
