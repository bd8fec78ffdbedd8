/** float64_div is the exact quotient rounded once, though the estimate is corrected only when it matters. */
module Float64Div {
  import opened Arithmetic
  import opened Powers
  import opened Words
  import opened Rounding
  import opened Sticky
  import opened RoundPack
  import opened Floats

  /** Section 5.4.1: the quotient of numbers of A and B units is A / B * 2^1074 units. */
  ghost function Quotient(a: nat, b: nat): (x: real)
    requires Units(Double, b) > 0
    ensures x >= 0.0
  {
    var q := Ratio(Units(Double, a), Units(Double, b));
    ScaleMonotone(q, 1074, 1074);
    Scale(q, 1074)
  }

  ghost function Ratio(n: nat, d: nat): (q: real)
    requires d > 0
    ensures q >= 0.0 && q * d as real == n as real
  {
    n as real / d as real
  }

  ghost function DivOutcome(c: Control, a: nat, b: nat): Outcome {
    var negative := Negative(Double, a) != Negative(Double, b);
    if IsNaN(Double, a) || IsNaN(Double, b) then
      PropagateNaN(Double, c, a, b)
    else if (IsInfinite(Double, a) && IsInfinite(Double, b)) || (IsZero(Double, a) && IsZero(Double, b)) then
      Outcome(DefaultNaN(Double), {Invalid})
    else if IsInfinite(Double, a) then
      Outcome(Signed(Double, negative, Double.Infinity()), {})
    else if IsInfinite(Double, b) then
      Outcome(Signed(Double, negative, 0), {})
    else if IsZero(Double, b) then
      Outcome(Signed(Double, negative, Double.Infinity()), {DivByZero})
    else
      UnitsPositive(b);
      Finite(Double, c, negative, Quotient(a, b))
  }

  lemma UnitsPositive(b: nat)
    requires !IsZero(Double, b)
    ensures Units(Double, b) > 0
  {
    MagnitudeMonotone(Double, 1, Encoding(Double, b));
    assert Magnitude(Double, 1) == 1;
  }

  // ---------------------------------------------------------------- the significand

  /** y = aSig * 2^64 / bSig has its leading bit in position 62. */
  ghost predicate DivOperands(aSig: u64, bSig: u64) {
    bSig >= W63 && 2 * aSig < bSig <= 4 * aSig
  }

  /** A quotient between z - 2 and z + 1 lies in the same cell as z if the low nine bits of z exceed 2. */
  lemma CloseEnough(z: nat, y: real)
    requires (z - 2) as real <= y < (z + 1) as real && z % 0x200 > 2
    ensures Stands(Double, z, y)
  {
    StandsInCell(Double, z, y, z / 0x200);
  }

  /** Comparing multiples of the divisor with the dividend compares integers with the quotient. */
  lemma QuotientOrder(n: nat, d: nat, z: int)
    requires d > 0
    ensures z * d <= n <==> z as real <= Ratio(n, d)
    ensures z * d == n <==> z as real == Ratio(n, d)
  {
    var q := Ratio(n, d);
    assert z as real * d as real == (z * d) as real;
    hide *;
    RealOrder(z as real, q, d as real);
  }

  lemma RealOrder(x: real, y: real, d: real)
    requires d > 0.0
    ensures x <= y <==> x * d <= y * d
    ensures x == y <==> x * d == y * d
  {
    if x < y {
      assert (y - x) * d > 0.0;
    } else if y < x {
      assert (x - y) * d > 0.0;
    }
  }

  lemma EstimateInRange(aSig: u64, bSig: u64, z: u64)
    requires DivOperands(aSig, bSig)
    requires (z - 2) * bSig <= Pair(aSig, 0).Value() < (z + 1) * bSig
    ensures var y := Ratio(aSig * W64, bSig);
      (z - 2) as real <= y < (z + 1) as real
      && Double.Normal() as real <= y < Double.SignBit() as real
  {
    var n := aSig * W64;
    assert n == Pair(aSig, 0).Value();
    hide Ratio;
    QuotientOrder(n, bSig, z - 2);
    QuotientOrder(n, bSig, z + 1);
    QuotientOrder(n, bSig, Double.Normal());
    QuotientOrder(n, bSig, Double.SignBit());
  }

  lemma EstimateStarts(a: Pair, bSig: u64, z: u64)
    requires bSig >= W63 && (z - 2) * bSig <= a.Value() < (z + 1) * bSig
    ensures Trial(a, bSig, 1, z, Sub128(a, Mul64To128(bSig, z)), 0)
  {
    Difference(z, 2, bSig);
    Difference(z, -1, bSig);
    StartTrial(a, bSig, 1, z);
  }

  lemma ExactQuotient(aSig: u64, bSig: u64, z: u64, rem: Pair)
    requires DivOperands(aSig, bSig)
    requires rem.Value() == Pair(aSig, 0).Value() - bSig * z && rem.Value() < bSig
    ensures Normalized(Double, OrBit(z, rem.lo != 0), Ratio(aSig * W64, bSig))
  {
    var n := aSig * W64;
    var y := Ratio(n, bSig);
    assert rem.Value() == rem.lo;
    Difference(z, -1, bSig);
    QuotientOrder(n, bSig, z);
    QuotientOrder(n, bSig, z + 1);
    QuotientOrder(n, bSig, Double.Normal());
    QuotientOrder(n, bSig, Double.SignBit());
    hide Ratio, Same;
    JamOfCell(z, rem.lo != 0, y);
    JamIsSame(OrBit(z, rem.lo != 0), y, 9);
  }

  /** The significand part of float64_div. */
  method DivSignificand(aSig: u64, bSig: u64) returns (zSig: u64)
    requires DivOperands(aSig, bSig)
    ensures Normalized(Double, zSig, Ratio(aSig * W64, bSig))
  {
    zSig := EstimateDiv128To64(Pair(aSig, 0), bSig);
    EstimateInRange(aSig, bSig, zSig);
    if zSig % 0x200 <= 2 {
      var a := Pair(aSig, 0);
      var rem := Sub128(a, Mul64To128(bSig, zSig));
      EstimateStarts(a, bSig, zSig);
      ghost var rounds := 0;
      while Negative64(rem.hi)
        invariant Trial(a, bSig, 1, zSig, rem, rounds)
        invariant 0 <= rounds <= 2
        decreases 2 - rounds
      {
        hide *;
        NextRound(a, bSig, 1, zSig, rem, rounds, Pair(0, bSig));
        zSig := Sub64(zSig, 1);
        rem := Add128(rem, Pair(0, bSig));
        rounds := rounds + 1;
      }
      QuotientFound(a, bSig, 1, zSig, rem, rounds);
      ExactQuotient(aSig, bSig, zSig, rem);
      zSig := OrBit(zSig, rem.lo != 0);
    } else {
      CloseEnough(zSig, Ratio(aSig * W64, bSig));
    }
  }

  // ---------------------------------------------------------------- the exact value

  lemma RatioUnique(n: nat, d: nat, q: real)
    requires d > 0 && q * d as real == n as real
    ensures q == Ratio(n, d)
  {
    var r := Ratio(n, d);
    hide *;
    RealOrder(q, r, d as real);
  }

  /** Scaling dividend and divisor scales the ratio. */
  lemma ScaledRatio(n: nat, e: int, d: nat, f: int, num: nat, den: nat)
    requires d > 0 && den > 0
    requires num as real == Scale(n as real, e) && den as real == Scale(d as real, f)
    ensures Ratio(num, den) == Scale(Ratio(n, d), e - f)
  {
    var t := Ratio(n, d);
    var q := Scale(t, e - f);
    hide *;
    assert t * d as real == n as real;
    ScaledProduct(t, e - f, d as real, f, q, den as real, n as real);
    RatioUnique(num, den, q);
  }

  lemma WordScales(n: nat)
    ensures (n * 0x200) as real == Scale(n as real, 9) && (n * 0x400) as real == Scale(n as real, 10)
    ensures (n * 0x800) as real == Scale(n as real, 11) && (n * W64) as real == Scale(n as real, 64)
  {
    WordIsPow2(Double);
    Pow2Shift8(0);
    assert Pow2(9) == 0x200 && Pow2(10) == 0x400 && Pow2(11) == 2 * Pow2(10);
    ScaleNat(n, 9);
    ScaleNat(n, 10);
    ScaleNat(n, 11);
    ScaleNat(n, 64);
    hide Scale, Pow2;
  }

  /** The quotient of the shifted significands. */
  lemma AlignedRatio(m: nat, n: nat, aSig: nat, halved: int)
    requires n > 0 && ((halved == 0 && aSig == m * 0x400) || (halved == 1 && aSig == m * 0x200))
    ensures Ratio(aSig * W64, n * 0x800) == Scale(Ratio(m, n), 63 - halved)
  {
    hide Ratio, Scale;
    WordScales(m);
    WordScales(n);
    WordScales(aSig);
    ScaleAdd(m as real, 10 - halved, 64);
    ScaledRatio(m, 74 - halved, n, 11, aSig * W64, n * 0x800);
  }

  /** The exact quotient in terms of what the significand part computes. */
  lemma QuotientOfOperands(a: nat, b: nat, an: Operand, bn: Operand, aSig: nat, halved: int)
    requires Units(Double, b) > 0 && bn.significand > 0
    requires Units(Double, a) as real == Scale(an.significand as real, an.exponent - 1)
    requires Units(Double, b) as real == Scale(bn.significand as real, bn.exponent - 1)
    requires (halved == 0 && aSig == an.significand * 0x400) || (halved == 1 && aSig == an.significand * 0x200)
    ensures var y := Ratio(aSig * W64, bn.significand * 0x800);
      Quotient(a, b) == Scale(y, an.exponent - bn.exponent + 0x3FD + halved - Double.GuardBits())
  {
    var m, n := an.significand, bn.significand;
    var t := Ratio(m, n);
    assert Quotient(a, b) == Scale(Ratio(Units(Double, a), Units(Double, b)), 1074);
    assert Double.GuardBits() == 10;
    hide *;
    AlignedRatio(m, n, aSig, halved);
    ScaledRatio(m, an.exponent - 1, n, bn.exponent - 1, Units(Double, a), Units(Double, b));
    ScaleAdd(t, an.exponent - bn.exponent, 1074);
    ScaleAdd(t, 63 - halved, an.exponent - bn.exponent + 0x3FD + halved - 10);
  }

  // ---------------------------------------------------------------- the routine

  /** The part of float64_div for finite non-zero operands. */
  method DivFinite(st: FloatStatus, zSign: bool, a: u64, b: u64) returns (z: nat)
    requires IsFinite(Double, a) && !IsZero(Double, a) && IsFinite(Double, b) && !IsZero(Double, b)
    modifies st`flags
    ensures Units(Double, b) > 0
    ensures var r := Finite(Double, st.control, zSign, Quotient(a, b));
      z == r.bits && st.flags == old(st.flags) + r.flags
  {
    UnitsPositive(b);
    var an, bn := NormalOperand(Double, a), NormalOperand(Double, b);
    OperandValue(Double, a);
    OperandValue(Double, b);
    hide Scale, Quotient, Units, NormalOperand, Deliver, Same, Ratio;
    var zExp := an.exponent - bn.exponent + 0x3FD;
    var aSig, bSig := an.significand * 0x400, bn.significand * 0x800;
    ghost var halved := 0;
    if bSig <= aSig + aSig {
      aSig := aSig / 2;
      zExp := zExp + 1;
      halved := 1;
    }
    QuotientOfOperands(a, b, an, bn, aSig, halved);
    var zSig := DivSignificand(aSig, bSig);
    z := RoundAndPack(Double, st, zSign, zExp, zSig, Ratio(aSig * W64, bSig));
  }

  lemma ZeroQuotient(c: Control, a: nat, b: nat, negative: bool)
    requires IsZero(Double, a) && !IsZero(Double, b)
    ensures Units(Double, b) > 0
    ensures Finite(Double, c, negative, Quotient(a, b)) == Outcome(Signed(Double, negative, 0), {})
  {
    UnitsPositive(b);
    assert Units(Double, a) == 0;
    RatioUnique(0, Units(Double, b), 0.0);
    ScaleZero(1074);
    ZeroResult(Double, c, negative, 0);
    hide Scale, Deliver, Units;
  }

  method Div(st: FloatStatus, a: u64, b: u64) returns (z: nat)
    modifies st`flags
    ensures var c := st.control;
      var r := DivOutcome(c, Squash(Double, c, a), Squash(Double, c, b));
      z == r.bits
      && st.flags == old(st.flags) + SquashFlags(Double, c, a) + SquashFlags(Double, c, b) + r.flags
  {
    var c := st.control;
    var a' := SquashInputDenormal(Double, st, a);
    var b' := SquashInputDenormal(Double, st, b);
    Classes(Double, a');
    Classes(Double, b');
    ghost var sign := Negative(Double, a') != Negative(Double, b');
    PackMinusOne(Double, sign);
    PackZero(Double, sign);
    hide Quotient, Finite, Units, Exp, Frac, PropagateNaN, Squash, SquashFlags;
    hide PackFloat, Signed, Encoding, IsNaN, IsInfinite, IsFinite, IsZero, Negative;
    var aSig, aExp := Frac(Double, a'), Exp(Double, a');
    var bSig, bExp := Frac(Double, b'), Exp(Double, b');
    var zSign := Negative(Double, a') != Negative(Double, b');
    if aExp == 0x7FF {
      if aSig != 0 {
        z := Propagate(Double, st, a', b');
        return;
      }
      if bExp == 0x7FF {
        if bSig != 0 {
          z := Propagate(Double, st, a', b');
          return;
        }
        st.flags := st.flags + {Invalid};
        return DefaultNaN(Double);
      }
      return PackFloat(Double, zSign, 0x7FF, 0);
    }
    if bExp == 0x7FF {
      if bSig != 0 {
        z := Propagate(Double, st, a', b');
        return;
      }
      return PackFloat(Double, zSign, 0, 0);
    }
    if bExp == 0 && bSig == 0 {
      if aExp == 0 && aSig == 0 {
        st.flags := st.flags + {Invalid};
        return DefaultNaN(Double);
      }
      st.flags := st.flags + {DivByZero};
      return PackFloat(Double, zSign, 0x7FF, 0);
    }
    if aExp == 0 && aSig == 0 {
      ZeroQuotient(c, a', b', zSign);
      return PackFloat(Double, zSign, 0, 0);
    }
    z := DivFinite(st, zSign, a', b');
  }
}
