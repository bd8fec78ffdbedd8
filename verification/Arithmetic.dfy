/** Facts about products that the solver needs to be told. */
module Arithmetic {

  lemma ProductSign(k: int, d: int)
    requires d > 0
    ensures k > 0 ==> k * d >= d
    ensures k == 0 ==> k * d == 0
    ensures k < 0 ==> k * d <= -d
  {
    if k > 0 {
      assert (k - 1) * d >= 0;
    } else if k < 0 {
      assert (-k - 1) * d >= 0;
    }
  }

  lemma Difference(x: int, q: int, d: int)
    ensures (x - q) * d == x * d - q * d
  {
  }

  lemma SmallMultiple(k: int, d: int, e: int)
    requires k * d == e && -d < e < d
    ensures k == 0 && e == 0
  {
    ProductSign(k, d);
  }

  lemma DivisionUnique(n: int, q: int, d: int, r: int)
    requires n == q * d + r && 0 <= r < d
    ensures n / d == q && n % d == r
  {
    var x, y := n / d, n % d;
    assert n == x * d + y;
    Difference(x, q, d);
    SmallMultiple(x - q, d, r - y);
  }

  lemma ProductMonotone(a: nat, x: int, y: int)
    requires x <= y
    ensures a * x <= a * y && x * a <= y * a
  {
    assert a * (y - x) >= 0;
  }

  lemma ProductRange(x: nat, y: nat, low: nat, high: nat)
    requires low <= x < high && low <= y < high
    ensures low * low <= x * y < high * high
  {
    ProductMonotone(low, low, x);
    ProductMonotone(x, low, y);
    ProductMonotone(x, y, high - 1);
    ProductMonotone(high - 1, x, high - 1);
    assert (high - 1) * (high - 1) < high * high;
  }

  function Quotient(a: nat, d: nat): nat
    requires d > 0
  {
    a / d
  }

  function Abs(n: int): nat { if n < 0 then -n else n }

  function Times(x: nat, y: nat): nat { x * y }

  lemma CastTimes(x: nat, y: nat)
    ensures Times(x, y) as real == x as real * y as real
  {
  }

  lemma CancelFactor(x: int, y: int, p: int)
    requires p > 0
    ensures x * p <= y * p <==> x <= y
  {
    Difference(x, y, p);
    ProductSign(x - y, p);
  }
}
