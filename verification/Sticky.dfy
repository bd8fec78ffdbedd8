/**
 Why folding all lost bits into one sticky bit is harmless.  Two magnitudes are `Same` on a grid when
 they fall into the same open cell between grid points or on the same grid point; rounding to the grid
 of whole units of last place only depends on the cell of the grid of half units.
 */
module Sticky {
  import opened Arithmetic
  import opened Powers

  /** s and y cannot be told apart by comparing them with multiples of 2^grid. */
  ghost predicate Same(s: real, y: real, grid: int) {
    var a, b := Scale(s, -grid), Scale(y, -grid);
    a.Floor == b.Floor && (a == a.Floor as real <==> b == b.Floor as real)
  }

  /** s is y with everything below the last bit folded into that bit. */
  ghost predicate Jams(s: int, y: real) {
    s as real == y || (s % 2 == 1 && (s - 1) as real < y < (s + 1) as real)
  }

  lemma CellIsSame(s: real, y: real, grid: int, m: int)
    requires m as real < Scale(s, -grid) < (m + 1) as real
    requires m as real < Scale(y, -grid) < (m + 1) as real
    ensures Same(s, y, grid)
  {
    FloorInCell(Scale(s, -grid), m);
    FloorInCell(Scale(y, -grid), m);
    hide Scale;
  }

  lemma FloorInCell(a: real, m: int)
    requires m as real < a < (m + 1) as real
    ensures a.Floor == m && a != a.Floor as real
  {
  }

  lemma SameScaled(s: real, y: real, grid: int, e: int)
    ensures Same(Scale(s, e), Scale(y, e), grid + e) <==> Same(s, y, grid)
  {
    ScaleAdd(s, e, -(grid + e));
    ScaleAdd(y, e, -(grid + e));
  }

  lemma FloorOfHalf(a: real)
    ensures (a / 2.0).Floor == a.Floor / 2
    ensures a / 2.0 == (a / 2.0).Floor as real <==> a == a.Floor as real && a.Floor % 2 == 0
  {
    var n, r := a.Floor / 2, a.Floor % 2;
    assert n as real <= a / 2.0 < n as real + 1.0;
  }

  lemma SameCoarserStep(s: real, y: real, grid: int)
    requires Same(s, y, grid)
    ensures Same(s, y, grid + 1)
  {
    ScaleStep(s, -grid - 1);
    ScaleStep(y, -grid - 1);
    hide Scale;
    FloorOfHalf(Scale(s, -grid));
    FloorOfHalf(Scale(y, -grid));
  }

  lemma {:induction false} SameCoarser(s: real, y: real, fine: int, coarse: int)
    requires Same(s, y, fine) && fine <= coarse
    ensures Same(s, y, coarse)
    decreases coarse - fine
  {
    if fine < coarse {
      SameCoarserStep(s, y, fine);
      SameCoarser(s, y, fine + 1, coarse);
    }
  }

  lemma JamIsSame(s: int, y: real, grid: int)
    requires Jams(s, y) && grid >= 1
    ensures Same(s as real, y, grid)
  {
    JamIsSameByTwo(s, y);
    SameCoarser(s as real, y, 1, grid);
  }

  lemma JamIsSameByTwo(s: int, y: real)
    requires Jams(s, y)
    ensures Same(s as real, y, 1)
  {
    assert Scale(s as real, -1) == s as real / 2.0 && Scale(y, -1) == y / 2.0;
    hide Scale;
    FloorOfHalf(s as real);
    FloorOfHalf(y);
    if s as real != y {
      assert (s / 2) as real < y / 2.0 < (s / 2) as real + 1.0;
    }
  }

  /** Adding an even number, or subtracting from one, keeps a jammed value jammed. */
  lemma JamShifted(s: int, y: real, c: int)
    requires Jams(s, y) && c % 2 == 0
    ensures Jams(c + s, c as real + y)
    ensures Jams(c - s, c as real - y)
  {
  }

  /** An integer jams nothing but itself. */
  lemma JamOfInteger(s: int, n: int)
    requires Jams(s, n as real)
    ensures s == n
  {
  }

  // ---------------------------------------------------------------- the shift

  /** `x | (b != 0)`: sets the last bit. */
  function OrBit(x: nat, b: bool): nat {
    if b && x % 2 == 0 then x + 1 else x
  }

  /** a >> count for a count that may exceed the width. */
  function Shr(a: nat, count: nat): nat { Quotient(a, Pow2(count)) }

  /** A right shift by count loses a bit that is set. */
  predicate Loses(a: nat, count: nat) { a % Pow2(count) != 0 }

  /** shift32RightJamming and shift64RightJamming. */
  function ShiftRightJam(width: nat, a: nat, count: nat): (z: nat)
    requires a < Pow2(width)
    ensures z <= a
    ensures Jams(z, Scale(a as real, -(count as int)))
  {
    if count == 0 then
      a
    else if count < width then
      Pow2Add(count, width - count);
      LostBits(a, Pow2(count), Pow2(width - count));
      JamOfQuotient(a, count);
      QuotientSmaller(a, count);
      OrBit(Shr(a, count), (a * Pow2(width - count)) % Pow2(width) != 0)
    else
      Pow2Monotone(width, count);
      JamOfSmall(a, count);
      if a != 0 then 1 else 0
  }

  /** The bits that a left shift keeps are those that the right shift loses. */
  lemma LostBits(a: nat, low: nat, high: nat)
    requires low > 0 && high > 0
    ensures low * high > 0
    ensures (a * high) % (low * high) == 0 <==> a % low == 0
  {
    var q, r := a / low, a % low;
    calc {
      a * high;
      (q * low + r) * high;
      { Distribute(q, low, r, high); }
      q * (low * high) + r * high;
    }
    Below(r, low, high);
    DivisionUnique(a * high, q, low * high, r * high);
  }

  lemma Distribute(q: int, low: int, r: int, high: int)
    ensures (q * low + r) * high == q * (low * high) + r * high
  {
  }

  lemma Below(r: nat, low: nat, high: nat)
    requires r < low && high > 0
    ensures 0 <= r * high < low * high
    ensures r * high == 0 <==> r == 0
  {
    assert (low - r) * high > 0;
  }

  lemma ShrParts(a: nat, count: nat) returns (r: nat)
    ensures a == Shr(a, count) * Pow2(count) + r && r < Pow2(count)
  {
    var p := Pow2(count);
    hide Pow2;
    r := a % p;
  }

  /** Comparing q * 2^count with n compares q with n shifted right. */
  lemma CellByScaling(q: nat, n: nat, count: nat)
    requires q * Pow2(count) <= n < (q + 1) * Pow2(count)
    ensures var y := Scale(n as real, -(count as int));
      q as real <= y < (q + 1) as real && (y == q as real <==> q * Pow2(count) == n)
  {
    var e: int := count;
    ScaleNat(q, count);
    ScaleNat(q + 1, count);
    ScaleAdd(n as real, -e, e);
    var y := Scale(n as real, -e);
    assert Scale(y, e) == n as real;
    hide Pow2;
    ScaleOrder(q as real, y, e);
    ScaleOrder(y, (q + 1) as real, e);
  }

  /** The quotient is the integer part of the shifted value, and the remainder says if that is all. */
  lemma QuotientCell(a: nat, count: nat)
    ensures var y, q := Scale(a as real, -(count as int)), Shr(a, count);
      q as real <= y < (q + 1) as real && (y == q as real <==> !Loses(a, count))
  {
    var p, q := Pow2(count), Shr(a, count);
    assert a == q * p + a % p;
    hide Pow2, Shr, Scale;
    Difference(q, -1, p);
    CellByScaling(q, a, count);
  }

  lemma JamOfQuotient(a: nat, count: nat)
    ensures Jams(OrBit(Shr(a, count), Loses(a, count)), Scale(a as real, -(count as int)))
  {
    hide *;
    QuotientCell(a, count);
    JamOfCell(Shr(a, count), Loses(a, count), Scale(a as real, -(count as int)));
  }

  lemma JamOfCell(q: nat, lost: bool, y: real)
    requires q as real <= y < (q + 1) as real && (y == q as real <==> !lost)
    ensures Jams(OrBit(q, lost), y)
  {
  }

  lemma QuotientSmaller(a: nat, count: nat)
    ensures OrBit(Shr(a, count), Loses(a, count)) <= a
  {
    var p := Pow2(count);
    assert a == a / p * p + a % p;
    assert Shr(a, count) == a / p && (Loses(a, count) <==> a % p > 0);
    hide *;
    Smaller(a / p, p, a % p, a);
  }

  lemma Smaller(q: nat, p: nat, r: nat, a: nat)
    requires a == q * p + r && p > 0
    ensures OrBit(q, r > 0) <= a
  {
    assert q * (p - 1) >= 0;
  }

  lemma JamOfSmall(a: nat, count: nat)
    requires a < Pow2(count)
    ensures Jams(if a != 0 then 1 else 0, Scale(a as real, -(count as int)))
  {
    QuotientCell(a, count);
    DivisionUnique(a, 0, Pow2(count), a);
    assert a / Pow2(count) == 0 && a % Pow2(count) == a;
    hide Scale, Pow2;
  }

  /** Twice a jammed value stands for twice the value on a grid of multiples of four and coarser. */
  lemma JamDoubled(s: int, y: real, grid: int)
    requires Jams(s, y) && grid >= 2
    ensures Same((2 * s) as real, 2.0 * y, grid)
  {
    JamIsSame(s, y, grid - 1);
    SameScaled(s as real, y, grid - 1, 1);
    assert Scale(s as real, 1) == (2 * s) as real && Scale(y, 1) == 2.0 * y;
  }
}
