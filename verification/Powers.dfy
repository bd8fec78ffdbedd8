/** Powers of two: Pow2 for bit positions, Scale for multiplying a real by a power of any sign. */
module Powers {
  import opened Arithmetic

  function Pow2(n: nat): (r: nat)
    ensures r > 0
  {
    if n == 0 then 1 else 2 * Pow2(n - 1)
  }

  lemma {:induction false} Pow2Add(a: nat, b: nat)
    ensures Pow2(a + b) == Pow2(a) * Pow2(b)
    decreases b
  {
    if b > 0 {
      Pow2Add(a, b - 1);
      calc {
        Pow2(a + b);
        2 * Pow2(a + (b - 1));
        2 * (Pow2(a) * Pow2(b - 1));
        Pow2(a) * (2 * Pow2(b - 1));
      }
    }
  }

  lemma Pow2Shift8(n: nat)
    ensures Pow2(0) == 1 && Pow2(n + 8) == 0x100 * Pow2(n)
  {
    assert Pow2(n + 2) == 4 * Pow2(n);
    assert Pow2(n + 4) == 4 * Pow2(n + 2);
    assert Pow2(n + 6) == 4 * Pow2(n + 4);
  }

  /** The sizes of machine words. */
  lemma WordSizes()
    ensures Pow2(8) == 0x100 && Pow2(16) == 0x1_0000 && Pow2(32) == 0x1_0000_0000
    ensures Pow2(64) == 0x1_0000_0000_0000_0000
  {
    hide Pow2;
    Pow2Shift8(0);
    Pow2Shift8(8);
    Pow2Shift8(16);
    Pow2Shift8(24);
    Pow2Shift8(32);
    Pow2Shift8(40);
    Pow2Shift8(48);
    Pow2Shift8(56);
  }

  lemma {:induction false} Pow2Monotone(a: nat, b: nat)
    requires a <= b
    ensures Pow2(a) <= Pow2(b)
    decreases b
  {
    if a < b {
      Pow2Monotone(a, b - 1);
    }
  }

  /** x * 2^e. */
  ghost function Scale(x: real, e: int): real
    decreases if e < 0 then -e else e
  {
    if e == 0 then x else if e > 0 then 2.0 * Scale(x, e - 1) else Scale(x, e + 1) / 2.0
  }

  lemma ScaleStep(x: real, e: int)
    ensures Scale(x, e + 1) == 2.0 * Scale(x, e)
  {
  }

  lemma {:induction false} ScaleAdd(x: real, e: int, f: int)
    ensures Scale(Scale(x, e), f) == Scale(x, e + f)
    decreases if f < 0 then -f else f
  {
    if f > 0 {
      ScaleAdd(x, e, f - 1);
      ScaleStep(x, e + f - 1);
    } else if f < 0 {
      ScaleAdd(x, e, f + 1);
      ScaleStep(x, e + f);
    }
  }

  lemma {:induction false} ScaleSum(x: real, y: real, e: int)
    ensures Scale(x + y, e) == Scale(x, e) + Scale(y, e)
    decreases if e < 0 then -e else e
  {
    if e > 0 {
      ScaleSum(x, y, e - 1);
    } else if e < 0 {
      ScaleSum(x, y, e + 1);
    }
  }

  /** Scaling preserves and reflects order. */
  lemma {:induction false} ScaleOrder(x: real, y: real, e: int)
    ensures x < y <==> Scale(x, e) < Scale(y, e)
    ensures x == y <==> Scale(x, e) == Scale(y, e)
    decreases if e < 0 then -e else e
  {
    if e > 0 {
      ScaleOrder(x, y, e - 1);
    } else if e < 0 {
      ScaleOrder(x, y, e + 1);
    }
  }

  lemma {:induction false} ScaleZero(e: int)
    ensures Scale(0.0, e) == 0.0
    decreases if e < 0 then -e else e
  {
    if e > 0 {
      ScaleZero(e - 1);
    } else if e < 0 {
      ScaleZero(e + 1);
    }
  }

  /** A larger exponent gives a larger multiple. */
  lemma {:induction false} ScaleMonotone(x: real, e: int, f: int)
    requires x >= 0.0 && e <= f
    ensures 0.0 <= Scale(x, e) <= Scale(x, f)
    decreases f - e
  {
    ScaleOrder(x, 0.0, e);
    ScaleZero(e);
    if e < f {
      ScaleMonotone(x, e, f - 1);
      ScaleStep(x, f - 1);
    }
  }

  /** Scaling a factor scales the product. */
  lemma {:induction false} ScaleProduct(x: real, y: real, e: int)
    ensures Scale(x, e) * y == Scale(x * y, e)
    decreases if e < 0 then -e else e
  {
    if e > 0 {
      ScaleProduct(x, y, e - 1);
      DoubleFactor(Scale(x, e - 1), y);
    } else if e < 0 {
      ScaleProduct(x, y, e + 1);
      DoubleFactor(Scale(x, e), y);
    }
  }

  lemma DoubleFactor(x: real, y: real)
    ensures (2.0 * x) * y == 2.0 * (x * y)
  {
  }

  lemma {:induction false} ScaleNat(m: int, k: nat)
    ensures Scale(m as real, k) == (m * Pow2(k)) as real
  {
    if k > 0 {
      ScaleNat(m, k - 1);
      DoubleMove(m, Pow2(k - 1));
    }
  }

  lemma DoubleMove(h: int, p: int)
    ensures h * (2 * p) == 2 * (h * p) == (2 * h) * p
  {
  }

  /** The product of two scaled values. */
  lemma ScaledProduct(x: real, e: int, y: real, f: int, u: real, v: real, p: real)
    requires u == Scale(x, e) && v == Scale(y, f) && p == x * y
    ensures u * v == Scale(p, e + f)
  {
    hide *;
    ScaleProduct(x, v, e);
    ScaleProduct(y, x, f);
    Commute(x, v);
    Commute(x, y);
    assert x * v == Scale(p, f);
    ScaleAdd(p, f, e);
  }

  lemma Commute(x: real, y: real)
    ensures x * y == y * x
  {
  }

  /** n * 2^e as a magnitude. */
  ghost function ScaledNat(n: nat, e: int): (x: real)
    ensures x >= 0.0 && (n == 0 ==> x == 0.0)
  {
    ScaleMonotone(n as real, e, e);
    ScaleZero(e);
    Scale(n as real, e)
  }

  /** The product of two numbers that are known as scaled significands. */
  lemma ScaledTimes(m: nat, e: int, n: nat, f: int, a: nat, b: nat)
    requires a as real == Scale(m as real, e) && b as real == Scale(n as real, f)
    ensures Times(a, b) as real == Scale(Times(m, n) as real, e + f)
  {
    hide *;
    CastTimes(a, b);
    CastTimes(m, n);
    ScaledProduct(m as real, e, n as real, f, a as real, b as real, Times(m, n) as real);
  }

  /** Scaling integers: products and differences. */
  lemma ScaledMultiple(n: int, b: int, e: int, v: real)
    requires v == Scale(b as real, e)
    ensures n as real * v == Scale((n * b) as real, e)
  {
    hide *;
    ScaleProduct(b as real, n as real, e);
    Commute(n as real, v);
    Commute(n as real, b as real);
    assert b as real * n as real == (n * b) as real;
  }
}
