/** Division facts the bit-field proofs name explicitly. */
module Arithmetic {

  lemma DivMod(a: int, d: int, q: int, r: int)
    requires d > 0 && a == q * d + r && 0 <= r < d
    ensures a / d == q && a % d == r
  {
    var x := a / d - q;
    assert x * d == (a / d) * d - q * d == r - a % d;
    assert (-x) * d == -(x * d);
    if x >= 1 {
      MulAtLeast(x, d);
    } else if x <= -1 {
      MulAtLeast(-x, d);
    }
  }

  lemma MulAtLeast(x: int, d: int)
    requires x >= 1 && d > 0
    ensures x * d >= d
  {}

  lemma ModAtMost(a: nat, m: nat)
    requires m > 0
    ensures a % m < m && a % m <= a
  {
    assert a == (a / m) * m + a % m;
    assert (a / m) * m >= 0;
  }

  lemma DivMono(a: nat, b: nat, d: nat)
    requires d > 0 && a <= b
    ensures a / d <= b / d
  {
    var qa, qb := a / d, b / d;
    assert a == qa * d + a % d && b == qb * d + b % d;
    assert (qa - qb) * d == qa * d - qb * d;
    if qa > qb {
      MulAtLeast(qa - qb, d);
    }
  }
}
