/** float64_mul is the exact product rounded once. */
module Float64Mul {
  import opened Arithmetic
  import opened Powers
  import opened Words
  import opened Rounding
  import opened Sticky
  import opened RoundPack
  import opened Floats

  /** Section 5.4.1: the product of two numbers of A and B units is A * B * 2^-1074 units. */
  ghost function Product(a: nat, b: nat): (x: real)
    ensures x >= 0.0
  {
    ScaledNat(Times(Units(Double, a), Units(Double, b)), -1074)
  }

  ghost function MulOutcome(c: Control, a: nat, b: nat): Outcome {
    var negative := Negative(Double, a) != Negative(Double, b);
    if IsNaN(Double, a) || IsNaN(Double, b) then
      PropagateNaN(Double, c, a, b)
    else if (IsInfinite(Double, a) && IsZero(Double, b)) || (IsZero(Double, a) && IsInfinite(Double, b)) then
      Outcome(DefaultNaN(Double), {Invalid})
    else if IsInfinite(Double, a) || IsInfinite(Double, b) then
      Outcome(Signed(Double, negative, Double.Infinity()), {})
    else
      Finite(Double, c, negative, Product(a, b))
  }

  /** The significand part: the high word of the product with the low word folded into its last bit. */
  function MulSignificand(aSig: nat, bSig: nat): (u64, int)
    requires Double.Hidden() <= aSig < 2 * Double.Hidden() && Double.Hidden() <= bSig < 2 * Double.Hidden()
  {
    var z := Mul64To128(aSig * 0x400, bSig * 0x800);
    var zSig0 := OrBit(z.hi, z.lo != 0);
    if (zSig0 * 2) % W64 < W63 then ((zSig0 * 2) % W64, -1) else (zSig0, 0)
  }

  lemma Pow2Of43()
    ensures Pow2(43) == 0x800_0000_0000
  {
    WordSizes();
    assert Pow2(43) == 8 * Pow2(40);
    hide Pow2;
    Pow2Shift8(32);
  }

  /** The high word of the shifted product, sticky bit included, stands for the product over 2^43. */
  lemma HighWordJams(z: Pair, product: nat)
    requires z.Value() == product * 0x20_0000
    ensures Jams(OrBit(z.hi, z.lo != 0), Scale(product as real, -43))
  {
    Pow2Of43();
    CellByScaling(z.hi, product, 43);
    hide Scale, Pow2;
    JamOfCell(z.hi, z.lo != 0, Scale(product as real, -43));
  }

  /** The 128-bit product is the product of the significands shifted by 21 bits and has its leading bit
      in position 125 or 126. */
  lemma ProductWords(aSig: nat, bSig: nat)
    requires Double.Hidden() <= aSig < 2 * Double.Hidden() && Double.Hidden() <= bSig < 2 * Double.Hidden()
    ensures var z := Mul64To128(aSig * 0x400, bSig * 0x800);
      z.Value() == aSig * bSig * 0x20_0000 && 0x2000_0000_0000_0000 <= z.hi < W63
  {
    ProductRange(aSig, bSig, Double.Hidden(), 2 * Double.Hidden());
    var z := Mul64To128(aSig * 0x400, bSig * 0x800);
    assert z.Value() == (aSig * 0x400) * (bSig * 0x800);
    hide Mul64To128;
    ShiftFactors(aSig, bSig);
  }

  lemma ShiftFactors(x: int, y: int)
    ensures (x * 0x400) * (y * 0x800) == x * y * 0x20_0000
  {
  }

  /** The test `0 <= (int64_t) ( zSig0<<1 )` looks at bit 62. */
  lemma LeadingBitTest(s: nat)
    requires 0x2000_0000_0000_0000 <= s < W63
    ensures (s * 2) % W64 == s * 2 && (s * 2 < W63 <==> s < Double.Normal())
  {
  }

  lemma OrBitBelow(x: u64, bit: bool)
    requires 0x2000_0000_0000_0000 <= x < W63
    ensures 0x2000_0000_0000_0000 <= OrBit(x, bit) < W63
  {
  }

  lemma MulHighWord(aSig: nat, bSig: nat) returns (s: nat)
    requires Double.Hidden() <= aSig < 2 * Double.Hidden() && Double.Hidden() <= bSig < 2 * Double.Hidden()
    ensures Jams(s, Scale(Times(aSig, bSig) as real, -43)) && 0x2000_0000_0000_0000 <= s < W63
    ensures MulSignificand(aSig, bSig) == if s < Double.Normal() then (2 * s, -1) else (s, 0)
  {
    ProductWords(aSig, bSig);
    var z := Mul64To128(aSig * 0x400, bSig * 0x800);
    s := OrBit(z.hi, z.lo != 0);
    HighWordJams(z, aSig * bSig);
    OrBitBelow(z.hi, z.lo != 0);
    LeadingBitTest(s);
    hide Mul64To128, Jams, Scale, OrBit;
  }

  lemma MulSignificandStands(aSig: nat, bSig: nat)
    requires Double.Hidden() <= aSig < 2 * Double.Hidden() && Double.Hidden() <= bSig < 2 * Double.Hidden()
    ensures var (zSig, shift) := MulSignificand(aSig, bSig);
      Normalized(Double, zSig, Scale(Times(aSig, bSig) as real, -43 - shift))
  {
    var product := Times(aSig, bSig) as real;
    var s := MulHighWord(aSig, bSig);
    hide MulSignificand, Scale, Jams, Same, Times;
    ScaleMonotone(product, -43, -42);
    ScaleStep(product, -43);
    JamIsSame(s, Scale(product, -43), 9);
    JamDoubled(s, Scale(product, -43), 9);
  }

  /** The exact product in terms of what the significand part computes. */
  lemma ProductOfOperands(a: nat, b: nat, an: Operand, bn: Operand, shift: int)
    requires Units(Double, a) as real == Scale(an.significand as real, an.exponent - 1)
    requires Units(Double, b) as real == Scale(bn.significand as real, bn.exponent - 1)
    ensures var y := Scale(Times(an.significand, bn.significand) as real, -43 - shift);
      Product(a, b) == Scale(y, an.exponent + bn.exponent - 0x3FF + shift - Double.GuardBits())
  {
    var m, n := an.significand, bn.significand;
    var e, f := an.exponent - 1, bn.exponent - 1;
    assert Product(a, b) == Scale(Times(Units(Double, a), Units(Double, b)) as real, -1074);
    assert Double.GuardBits() == 10;
    hide *;
    ScaledTimes(m, e, n, f, Units(Double, a), Units(Double, b));
    var p := Times(m, n) as real;
    ScaleAdd(p, e + f, -1074);
    ScaleAdd(p, -43 - shift, e + f + 2 - 0x3FF + shift - 10);
  }

  lemma ZeroProduct(c: Control, a: nat, b: nat, negative: bool)
    requires IsZero(Double, a) || IsZero(Double, b)
    ensures Finite(Double, c, negative, Product(a, b)) == Outcome(Signed(Double, negative, 0), {})
  {
    assert Units(Double, a) == 0 || Units(Double, b) == 0;
    ZeroResult(Double, c, negative, 0);
    hide ScaledNat, Deliver, Units;
  }

  /** The part of float64_mul for finite non-zero operands. */
  method MulFinite(st: FloatStatus, zSign: bool, a: u64, b: u64) returns (z: nat)
    requires IsFinite(Double, a) && !IsZero(Double, a) && IsFinite(Double, b) && !IsZero(Double, b)
    modifies st`flags
    ensures var r := Finite(Double, st.control, zSign, Product(a, b));
      z == r.bits && st.flags == old(st.flags) + r.flags
  {
    var an, bn := NormalOperand(Double, a), NormalOperand(Double, b);
    OperandValue(Double, a);
    OperandValue(Double, b);
    var zExp := an.exponent + bn.exponent - 0x3FF;
    var (zSig, shift) := MulSignificand(an.significand, bn.significand);
    MulSignificandStands(an.significand, bn.significand);
    ProductOfOperands(a, b, an, bn, shift);
    hide Scale, Product, Units, NormalOperand, Deliver, Same;
    ghost var y := Scale(Times(an.significand, bn.significand) as real, -43 - shift);
    z := RoundAndPack(Double, st, zSign, zExp + shift, zSig, y);
  }

  method Mul(st: FloatStatus, a: u64, b: u64) returns (z: nat)
    modifies st`flags
    ensures var c := st.control;
      var r := MulOutcome(c, Squash(Double, c, a), Squash(Double, c, b));
      z == r.bits
      && st.flags == old(st.flags) + SquashFlags(Double, c, a) + SquashFlags(Double, c, b) + r.flags
  {
    var c := st.control;
    var a' := SquashInputDenormal(Double, st, a);
    var b' := SquashInputDenormal(Double, st, b);
    Classes(Double, a');
    Classes(Double, b');
    ghost var sign := Negative(Double, a') != Negative(Double, b');
    PackMinusOne(Double, sign);
    PackZero(Double, sign);
    hide Product, Finite, Units, Exp, Frac, PropagateNaN, Squash, SquashFlags;
    hide PackFloat, Signed, Encoding, IsNaN, IsInfinite, IsFinite, IsZero, Negative;
    var aSig, aExp := Frac(Double, a'), Exp(Double, a');
    var bSig, bExp := Frac(Double, b'), Exp(Double, b');
    var zSign := Negative(Double, a') != Negative(Double, b');
    if aExp == 0x7FF {
      if aSig != 0 || (bExp == 0x7FF && bSig != 0) {
        z := Propagate(Double, st, a', b');
        return;
      }
      if bExp == 0 && bSig == 0 {
        st.flags := st.flags + {Invalid};
        return DefaultNaN(Double);
      }
      return PackFloat(Double, zSign, 0x7FF, 0);
    }
    if bExp == 0x7FF {
      if bSig != 0 {
        z := Propagate(Double, st, a', b');
        return;
      }
      if aExp == 0 && aSig == 0 {
        st.flags := st.flags + {Invalid};
        return DefaultNaN(Double);
      }
      return PackFloat(Double, zSign, 0x7FF, 0);
    }
    if (aExp == 0 && aSig == 0) || (bExp == 0 && bSig == 0) {
      ZeroProduct(c, a', b', zSign);
      return PackFloat(Double, zSign, 0, 0);
    }
    z := MulFinite(st, zSign, a', b');
  }
}
