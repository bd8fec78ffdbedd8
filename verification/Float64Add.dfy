/** float64_add and float64_sub are the exact sum and difference rounded once. */
module Float64Add {
  import opened Arithmetic
  import opened Powers
  import opened Words
  import opened Rounding
  import opened Sticky
  import opened RoundPack
  import opened Floats

  function SignedUnits(a: nat): int {
    if Negative(Double, a) then 0 - Units(Double, a) else Units(Double, a)
  }

  /** The exact sum, or difference, in units. */
  function ExactSum(a: nat, b: nat, subtract: bool): int {
    if subtract then SignedUnits(a) - SignedUnits(b) else SignedUnits(a) + SignedUnits(b)
  }

  ghost function SumOutcome(c: Control, a: nat, b: nat, subtract: bool): Outcome {
    var aNegative, bNegative := Negative(Double, a), Negative(Double, b) != subtract;
    if IsNaN(Double, a) || IsNaN(Double, b) then
      PropagateNaN(Double, c, a, b)
    else if IsInfinite(Double, a) && IsInfinite(Double, b) && aNegative != bNegative then
      Outcome(DefaultNaN(Double), {Invalid})
    else if IsInfinite(Double, a) then
      Outcome(Signed(Double, aNegative, Double.Infinity()), {})
    else if IsInfinite(Double, b) then
      Outcome(Signed(Double, bNegative, Double.Infinity()), {})
    else if c.flushToZero && aNegative == bNegative && Exp(Double, a) == 0 == Exp(Double, b) then
      // two subnormals are flushed even if their sum is a normal number
      Outcome(Signed(Double, aNegative, 0),
              if IsZero(Double, a) && IsZero(Double, b) then {} else {OutputDenormal})
    else
      var n := ExactSum(a, b, subtract);
      var negative := if n == 0 then ZeroSumNegative(c.mode, aNegative, bNegative) else n < 0;
      Finite(Double, c, negative, Abs(n) as real)
  }

  // ---------------------------------------------------------------- flushed sums

  /** The operands of the branch that flushes: subnormals or zeros that are added with the same sign. */
  predicate FlushesSum(c: Control, a: nat, b: nat, subtract: bool) {
    && c.flushToZero && Negative(Double, a) == (Negative(Double, b) != subtract)
    && IsFinite(Double, a) && IsFinite(Double, b) && Exp(Double, a) == 0 == Exp(Double, b)
  }

  /** Flushing before adding is flushing the exact sum if and only if that is below the normal numbers. */
  lemma FlushedSumExactly(c: Control, a: nat, b: nat, subtract: bool)
    requires FlushesSum(c, a, b, subtract)
    ensures var x := Abs(ExactSum(a, b, subtract));
      SumOutcome(c, a, b, subtract) == Finite(Double, c, Negative(Double, a), x as real) <==> x < Double.Hidden()
  {
    var x := Abs(ExactSum(a, b, subtract));
    SubnormalUnits(a);
    SubnormalUnits(b);
    var d := Deliver(Double, c, Negative(Double, a), x as real);
    if x == 0 {
      ZeroEncoding(Double, c.mode, Negative(Double, a));
    } else if x >= Double.Hidden() {
      NotFlushed(c, Negative(Double, a), x);
    }
    hide Units, RoundedEncoding, Exp, Frac, Encoding, Negative, Scale;
  }

  lemma SubnormalUnits(a: nat)
    requires IsFinite(Double, a) && Exp(Double, a) == 0
    ensures IsZero(Double, a) <==> Units(Double, a) == 0
  {
  }

  lemma NotFlushed(c: Control, negative: bool, x: nat)
    requires x >= Double.Hidden()
    ensures OutputDenormal !in Deliver(Double, c, negative, x as real).flags
  {
    hide RoundedEncoding;
  }

  /** Two subnormals whose sum is the smallest normal number are added to zero. */
  lemma NormalSumIsFlushed(c: Control)
    requires c.flushToZero
    ensures var a := 0x8_0000_0000_0000;
      && ExactSum(a, a, false) == Double.Hidden()
      && SumOutcome(c, a, a, false) == Outcome(0, {OutputDenormal})
  {
  }

  // ---------------------------------------------------------------- aligned significands

  /** The larger significand at position `top` and the smaller one shifted to its exponent. */
  ghost function Aligned(a: nat, b: nat, top: int): real {
    Scale(FullSig(Double, b) as real, top + EffectiveExp(Double, b) - EffectiveExp(Double, a))
  }

  lemma AlignedSum(a: nat, b: nat, top: int, larger: real)
    requires larger == Scale(FullSig(Double, a) as real, top)
    ensures var e := EffectiveExp(Double, a) - 1 - top;
      && Scale(larger + Aligned(a, b, top), e) == (Units(Double, a) + Units(Double, b)) as real
      && Scale(larger - Aligned(a, b, top), e) == (Units(Double, a) - Units(Double, b)) as real
  {
    hide Units, FullSig, EffectiveExp;
    var ea, eb := EffectiveExp(Double, a), EffectiveExp(Double, b);
    var m, n := FullSig(Double, a) as real, FullSig(Double, b) as real;
    var e, smaller := ea - 1 - top, Aligned(a, b, top);
    StoredValue(Double, a);
    StoredValue(Double, b);
    ScaleAdd(m, top, e);
    ScaleAdd(n, top + eb - ea, e);
    hide Scale;
    assert top + (eb - ea) + e == 0 + eb - 1;
    ScaleSum(larger, smaller, e);
    ScaleSum(larger - smaller, smaller, e);
  }

  lemma FieldFacts(a: nat)
    requires a < Double.Word() && IsFinite(Double, a)
    ensures Exp(Double, a) < 0x7FF && FullSig(Double, a) < 2 * Double.Hidden()
    ensures Exp(Double, a) > 0 ==> FullSig(Double, a) >= Double.Hidden()
    ensures 0 < EffectiveExp(Double, a) < 0x7FF
  {
    Classes(Double, a);
  }

  lemma PositionNine(n: nat)
    ensures (n * 0x200) as real == Scale(n as real, 9) && (n * 0x400) as real == Scale(n as real, 10)
  {
    Pow2Shift8(0);
    assert Pow2(9) == 0x200 && Pow2(10) == 0x400;
    ScaleNat(n, 9);
    ScaleNat(n, 10);
    hide Scale, Pow2;
  }

  /** The smaller significand, moved to position `top` and shifted to the exponent of the larger operand. */
  function ShiftedOperand(a: u64, b: u64, top: int): (z: nat)
    requires IsFinite(Double, b) && EffectiveExp(Double, b) <= EffectiveExp(Double, a) && 9 <= top <= 10
    ensures Jams(z, Aligned(a, b, top)) && Aligned(a, b, top) >= 0.0
    ensures z < if top == 9 then 0x4000_0000_0000_0000 else W63
  {
    FieldFacts(b);
    WordIsPow2(Double);
    JammedOperand(a, b, top);
    ShiftRightJam(64, FullSig(Double, b) * (if top == 9 then 0x200 else 0x400),
                  EffectiveExp(Double, a) - EffectiveExp(Double, b))
  }

  lemma JammedOperand(a: u64, b: u64, top: int)
    requires IsFinite(Double, b) && EffectiveExp(Double, b) <= EffectiveExp(Double, a) && 9 <= top <= 10
    requires Double.Word() == Pow2(64) && FullSig(Double, b) < 2 * Double.Hidden()
    ensures var bSig, count := FullSig(Double, b) * (if top == 9 then 0x200 else 0x400),
                               EffectiveExp(Double, a) - EffectiveExp(Double, b);
      Jams(ShiftRightJam(64, bSig, count), Aligned(a, b, top)) && Aligned(a, b, top) >= 0.0
  {
    var n, count: int := FullSig(Double, b), EffectiveExp(Double, a) - EffectiveExp(Double, b);
    PositionNine(n);
    ScaleAdd(n as real, top, -count);
    ScaleMonotone(n as real, top - count, top - count);
    hide Scale, Jams, FullSig, EffectiveExp, Pow2;
  }

  /** addFloat64Sigs for finite operands: the sum of the magnitudes. */
  method AddFinite(st: FloatStatus, a: u64, b: u64, zSign: bool) returns (z: nat)
    requires IsFinite(Double, a) && IsFinite(Double, b)
    requires !(st.control.flushToZero && Exp(Double, a) == 0 == Exp(Double, b))
    modifies st`flags
    ensures var r := Finite(Double, st.control, zSign, (Units(Double, a) + Units(Double, b)) as real);
      z == r.bits && st.flags == old(st.flags) + r.flags
  {
    FieldFacts(a);
    FieldFacts(b);
    var aExp, bExp := Exp(Double, a), Exp(Double, b);
    if aExp == bExp {
      if aExp == 0 {
        SubnormalSum(st.control, a, b, zSign);
        return PackFloat(Double, zSign, 0, Frac(Double, a) + Frac(Double, b));
      }
      var zSig := 0x4000_0000_0000_0000 + Frac(Double, a) * 0x200 + Frac(Double, b) * 0x200;
      EqualExponents(a, b, zSig);
      z := RoundAndPack(Double, st, zSign, aExp, zSig, zSig as real);
    } else if bExp < aExp {
      z := AddUnequal(st, a, b, zSign);
    } else {
      z := AddUnequal(st, b, a, zSign);
    }
  }

  /** The exact sum in terms of the aligned significands, with or without one position to go. */
  lemma UnequalValue(a: nat, b: nat, y: real)
    requires a < Double.Word() && IsFinite(Double, a) && Exp(Double, a) > 0
    requires y == (FullSig(Double, a) * 0x200) as real + Aligned(a, b, 9)
    ensures var sum := (Units(Double, a) + Units(Double, b)) as real;
      Scale(y, Exp(Double, a) - 10) == sum && Scale(2.0 * y, Exp(Double, a) - 11) == sum
  {
    assert EffectiveExp(Double, a) == Exp(Double, a);
    hide Scale, Units, Aligned, FullSig, Exp, EffectiveExp;
    PositionNine(FullSig(Double, a));
    AlignedSum(a, b, 9, (FullSig(Double, a) * 0x200) as real);
    DoubledScale(y, Exp(Double, a) - 11);
  }

  lemma SumStands(s: nat, y: real)
    requires Jams(s, y) && y >= 0.0 && Double.Normal() <= 2 * s < W64
    ensures 2 * s < W63 ==> Normalized(Double, 2 * s, 2.0 * y)
    ensures 2 * s >= W63 ==> Normalized(Double, s, y)
  {
    hide Jams, Same;
    JamIsSame(s, y, 9);
    JamDoubled(s, y, 9);
  }

  /** The significands added after alignment, a being the larger operand: the sum and what it takes off
      the exponent. */
  function SumSignificand(a: u64, b: u64): (nat, int)
    requires IsFinite(Double, b) && Exp(Double, a) > Exp(Double, b)
  {
    var sum := FullSig(Double, a) * 0x200 + ShiftedOperand(a, b, 9);
    if sum * 2 < W63 then (sum * 2, -1) else (sum, 0)
  }

  lemma SumSignificandStands(a: u64, b: u64) returns (y: real)
    requires IsFinite(Double, a) && IsFinite(Double, b) && Exp(Double, a) > Exp(Double, b)
    ensures var (zSig, shift) := SumSignificand(a, b);
      && -1 <= shift <= 0 && Normalized(Double, zSig, y)
      && Scale(y, Exp(Double, a) + shift - 10) == (Units(Double, a) + Units(Double, b)) as real
  {
    hide Jams, Exp, FullSig, ShiftedOperand, Aligned, Units, Scale, Normalized, SumSignificand, EffectiveExp, IsFinite;
    LargerOperand(a, b);
    SumSignificandIs(a, b);
    var aSig, jammed := FullSig(Double, a) * 0x200, ShiftedOperand(a, b, 9);
    var sum := aSig as real + Aligned(a, b, 9);
    EvenSig(FullSig(Double, a));
    JamShifted(jammed, Aligned(a, b, 9), aSig);
    SumStands(aSig + jammed, sum);
    UnequalValue(a, b, sum);
    y := if 2 * (aSig + jammed) < W63 then 2.0 * sum else sum;
  }

  lemma EvenSig(n: nat)
    ensures (n * 0x200) % 2 == 0 && (n * 0x400) % 2 == 0
  {
    DivisionUnique(n * 0x200, n * 0x100, 2, 0);
    DivisionUnique(n * 0x400, n * 0x200, 2, 0);
  }

  lemma LargerOperand(a: u64, b: u64)
    requires IsFinite(Double, a) && IsFinite(Double, b) && Exp(Double, a) > Exp(Double, b)
    ensures EffectiveExp(Double, b) <= EffectiveExp(Double, a) == Exp(Double, a)
    ensures Double.Hidden() <= FullSig(Double, a) < 2 * Double.Hidden()
  {
    FieldFacts(a);
    hide Exp, Frac;
  }

  lemma SumSignificandIs(a: u64, b: u64)
    requires IsFinite(Double, b) && Exp(Double, a) > Exp(Double, b)
    ensures var s := FullSig(Double, a) * 0x200 + ShiftedOperand(a, b, 9);
      SumSignificand(a, b) == if 2 * s < W63 then (2 * s, -1) else (s, 0)
  {
    hide Exp, FullSig, ShiftedOperand;
  }

  /** The part of addFloat64Sigs for different exponents. */
  method AddUnequal(st: FloatStatus, a: u64, b: u64, zSign: bool) returns (z: nat)
    requires IsFinite(Double, a) && IsFinite(Double, b) && Exp(Double, a) > Exp(Double, b)
    modifies st`flags
    ensures var r := Finite(Double, st.control, zSign, (Units(Double, a) + Units(Double, b)) as real);
      z == r.bits && st.flags == old(st.flags) + r.flags
  {
    FieldFacts(a);
    hide Scale, Deliver, Units, Exp, Normalized, SumSignificand, IsFinite;
    var (zSig, shift) := SumSignificand(a, b);
    ghost var y := SumSignificandStands(a, b);
    z := RoundAndPack(Double, st, zSign, Exp(Double, a) + shift, zSig, y);
  }

  lemma DoubledScale(y: real, e: int)
    ensures Scale(2.0 * y, e) == Scale(y, e + 1)
  {
    assert Scale(y, 1) == 2.0 * y;
    ScaleAdd(y, 1, e);
  }

  lemma EqualExponents(a: nat, b: nat, zSig: nat)
    requires a < Double.Word() && b < Double.Word() && IsFinite(Double, a) && IsFinite(Double, b)
    requires Exp(Double, a) == Exp(Double, b) > 0
    requires zSig == 0x4000_0000_0000_0000 + Frac(Double, a) * 0x200 + Frac(Double, b) * 0x200
    ensures Normalized(Double, zSig, zSig as real)
    ensures Scale(zSig as real, Exp(Double, a) - 10) == (Units(Double, a) + Units(Double, b)) as real
  {
    FieldFacts(a);
    FieldFacts(b);
    PositionNine(FullSig(Double, a));
    PositionNine(FullSig(Double, b));
    AlignedSum(a, b, 9, (FullSig(Double, a) * 0x200) as real);
    assert Aligned(a, b, 9) == (FullSig(Double, b) * 0x200) as real;
    assert zSig == FullSig(Double, a) * 0x200 + FullSig(Double, b) * 0x200;
    hide Scale, Units, Exp, Frac, Aligned, FullSig;
  }

  /** Two subnormals add exactly, even when the sum carries into the normal numbers. */
  lemma SubnormalSum(c: Control, a: nat, b: nat, zSign: bool)
    requires a < Double.Word() && b < Double.Word() && IsFinite(Double, a) && IsFinite(Double, b)
    requires !c.flushToZero && Exp(Double, a) == 0 == Exp(Double, b)
    ensures Finite(Double, c, zSign, (Units(Double, a) + Units(Double, b)) as real)
         == Outcome(PackFloat(Double, zSign, 0, Frac(Double, a) + Frac(Double, b)), {})
  {
    var n := Frac(Double, a) + Frac(Double, b);
    UnitsOfFields(Double, a);
    UnitsOfFields(Double, b);
    ExactIsDelivered(Double, c, zSign, n, 0);
  }

  // ---------------------------------------------------------------- differences

  /** Within one format larger fields mean a larger number. */
  lemma FieldOrder(a: nat, b: nat)
    ensures Exp(Double, a) > Exp(Double, b) ==> Units(Double, a) > Units(Double, b)
    ensures Exp(Double, a) == Exp(Double, b) && Frac(Double, a) > Frac(Double, b)
        ==> Units(Double, a) > Units(Double, b)
    ensures Exp(Double, a) == Exp(Double, b) && Frac(Double, a) == Frac(Double, b)
        ==> Units(Double, a) == Units(Double, b)
  {
    var x, y := Encoding(Double, a), Encoding(Double, b);
    EncodeOfFields(Double, x);
    EncodeOfFields(Double, y);
    if x > y {
      MagnitudeStep(Double, y);
      MagnitudeMonotone(Double, y + 1, x);
    }
    hide Magnitude, ExponentField, FractionField;
  }

  /** The significands subtracted after alignment, a being the larger operand. */
  function DifferenceSignificand(a: u64, b: u64): int
    requires IsFinite(Double, b) && EffectiveExp(Double, b) <= EffectiveExp(Double, a)
  {
    FullSig(Double, a) * 0x400 - ShiftedOperand(a, b, 10)
  }

  /** After a shift by at most one position nothing is lost. */
  lemma NearExponents(a: u64, b: u64)
    requires IsFinite(Double, b)
    requires EffectiveExp(Double, b) <= EffectiveExp(Double, a) <= EffectiveExp(Double, b) + 1
    ensures ShiftedOperand(a, b, 10) as real == Aligned(a, b, 10)
  {
    var n := FullSig(Double, b);
    PositionNine(n);
    var jammed := ShiftedOperand(a, b, 10);
    hide Scale, FullSig, EffectiveExp, ShiftedOperand, Jams;
    if EffectiveExp(Double, a) == EffectiveExp(Double, b) {
      JamOfInteger(jammed, n * 0x400);
    } else {
      JamOfInteger(jammed, n * 0x200);
    }
  }

  /** After a longer shift the smaller operand takes at most half of the larger one away. */
  lemma FarExponents(a: u64, b: u64)
    requires IsFinite(Double, a) && IsFinite(Double, b)
    requires EffectiveExp(Double, a) >= EffectiveExp(Double, b) + 2
    ensures FullSig(Double, a) >= Double.Hidden()
    ensures ShiftedOperand(a, b, 10) <= 0x2000_0000_0000_0000
  {
    FieldFacts(a);
    FieldFacts(b);
    var n := FullSig(Double, b) as real;
    ScaleMonotone(n, 10 + EffectiveExp(Double, b) - EffectiveExp(Double, a), 8);
    ScaleStep(n, 8);
    PositionNine(FullSig(Double, b));
    assert Aligned(a, b, 10) <= Scale(n, 8) == (FullSig(Double, b) * 0x100) as real;
    assert ShiftedOperand(a, b, 10) as real < Aligned(a, b, 10) + 1.0;
  }

  lemma DifferenceStands(a: u64, b: u64) returns (y: real)
    requires IsFinite(Double, a) && IsFinite(Double, b) && Units(Double, a) > Units(Double, b)
    requires EffectiveExp(Double, b) <= EffectiveExp(Double, a)
    ensures var zSig := DifferenceSignificand(a, b);
      && 0 < zSig && Normalizable(Double, EffectiveExp(Double, a) - 1, zSig, y)
      && Scale(y, EffectiveExp(Double, a) - 11) == (Units(Double, a) - Units(Double, b)) as real
  {
    var aSig, jammed := FullSig(Double, a) * 0x400, ShiftedOperand(a, b, 10);
    y := aSig as real - Aligned(a, b, 10);
    var e := EffectiveExp(Double, a) - 11;
    FieldFacts(a);
    hide Scale, FullSig, Exp, Frac, EffectiveExp, ShiftedOperand, Jams, Aligned, Units, IsFinite;
    PositionNine(FullSig(Double, a));
    AlignedSum(a, b, 10, aSig as real);
    ScaleZero(e);
    ScaleOrder(0.0, y, e);
    EvenSig(FullSig(Double, a));
    JamShifted(jammed, Aligned(a, b, 10), aSig);
    PositiveJam(aSig - jammed, y);
    if EffectiveExp(Double, a) <= EffectiveExp(Double, b) + 1 {
      NearExponents(a, b);
    } else {
      FarExponents(a, b);
    }
  }

  lemma PositiveJam(s: int, y: real)
    requires Jams(s, y) && y > 0.0
    ensures s > 0
  {
  }

  /** The part of subFloat64Sigs that subtracts the smaller operand b from a. */
  method SubLarger(st: FloatStatus, a: u64, b: u64, zSign: bool) returns (z: nat)
    requires IsFinite(Double, a) && IsFinite(Double, b) && Units(Double, a) > Units(Double, b)
    requires EffectiveExp(Double, b) <= EffectiveExp(Double, a)
    modifies st`flags
    ensures var r := Finite(Double, st.control, zSign, (Units(Double, a) - Units(Double, b)) as real);
      z == r.bits && st.flags == old(st.flags) + r.flags
  {
    hide Scale, Deliver, Units, EffectiveExp, Normalizable, DifferenceSignificand, IsFinite;
    var zSig := DifferenceSignificand(a, b);
    var zExp: int := EffectiveExp(Double, a) - 1;
    ghost var y := DifferenceStands(a, b);
    z := NormalizeRoundAndPack(Double, st, zSign, zExp, zSig, y);
  }

  /** subFloat64Sigs for finite operands: the difference of the magnitudes. */
  method SubFinite(st: FloatStatus, a: u64, b: u64, zSign: bool) returns (z: nat)
    requires IsFinite(Double, a) && IsFinite(Double, b)
    modifies st`flags
    ensures var n := Units(Double, a) - Units(Double, b);
      var r := Finite(Double, st.control, if n == 0 then st.control.mode == Down else (n < 0) != zSign, Abs(n) as real);
      z == r.bits && st.flags == old(st.flags) + r.flags
  {
    FieldFacts(a);
    FieldFacts(b);
    FieldOrder(a, b);
    FieldOrder(b, a);
    hide Scale, Deliver, Units, Frac, Exp, IsFinite;
    var aExp, bExp := Exp(Double, a), Exp(Double, b);
    if bExp < aExp {
      z := SubLarger(st, a, b, zSign);
    } else if aExp < bExp {
      z := SubLarger(st, b, a, !zSign);
    } else if Frac(Double, b) < Frac(Double, a) {
      z := SubLarger(st, a, b, zSign);
    } else if Frac(Double, a) < Frac(Double, b) {
      z := SubLarger(st, b, a, !zSign);
    } else {
      ZeroResult(Double, st.control, st.control.mode == Down, 0);
      PackZero(Double, st.control.mode == Down);
      z := PackFloat(Double, st.control.mode == Down, 0, 0);
    }
  }

  // ---------------------------------------------------------------- the routines

  /** float64_add. */
  method Add(st: FloatStatus, a: u64, b: u64) returns (z: nat)
    modifies st`flags
    ensures var c := st.control;
      var r := SumOutcome(c, Squash(Double, c, a), Squash(Double, c, b), false);
      z == r.bits
      && st.flags == old(st.flags) + SquashFlags(Double, c, a) + SquashFlags(Double, c, b) + r.flags
  {
    var a' := SquashInputDenormal(Double, st, a);
    var b' := SquashInputDenormal(Double, st, b);
    hide Squash, SquashFlags, SumOutcome;
    if Negative(Double, a') == Negative(Double, b') {
      z := AddSigs(st, a', b', Negative(Double, a'), false);
    } else {
      z := SubSigs(st, a', b', Negative(Double, a'), false);
    }
  }

  /** float64_sub. */
  method Sub(st: FloatStatus, a: u64, b: u64) returns (z: nat)
    modifies st`flags
    ensures var c := st.control;
      var r := SumOutcome(c, Squash(Double, c, a), Squash(Double, c, b), true);
      z == r.bits
      && st.flags == old(st.flags) + SquashFlags(Double, c, a) + SquashFlags(Double, c, b) + r.flags
  {
    var a' := SquashInputDenormal(Double, st, a);
    var b' := SquashInputDenormal(Double, st, b);
    hide Squash, SquashFlags, SumOutcome;
    if Negative(Double, a') == Negative(Double, b') {
      z := SubSigs(st, a', b', Negative(Double, a'), true);
    } else {
      z := AddSigs(st, a', b', Negative(Double, a'), true);
    }
  }

  /** addFloat64Sigs: both operands count with the sign of a. */
  method AddSigs(st: FloatStatus, a: u64, b: u64, zSign: bool, ghost subtract: bool) returns (z: nat)
    requires zSign == Negative(Double, a) && (Negative(Double, b) != subtract) == zSign
    modifies st`flags
    ensures var r := SumOutcome(st.control, a, b, subtract);
      z == r.bits && st.flags == old(st.flags) + r.flags
  {
    Classes(Double, a);
    Classes(Double, b);
    PackMinusOne(Double, zSign);
    PackZero(Double, zSign);
    if IsInfinite(Double, a) {
      InfiniteIsSigned(a);
    }
    hide Scale, Finite, Units, Frac, Exp, PropagateNaN, PackFloat, Signed, IsNaN, IsInfinite, IsFinite, IsZero, Negative;
    var aExp, bExp, aSig, bSig := Exp(Double, a), Exp(Double, b), Frac(Double, a), Frac(Double, b);
    if bExp < aExp && aExp == 0x7FF {
      if aSig != 0 {
        z := Propagate(Double, st, a, b);
        return;
      }
      return a;
    } else if aExp < bExp && bExp == 0x7FF {
      if bSig != 0 {
        z := Propagate(Double, st, a, b);
        return;
      }
      return PackFloat(Double, zSign, 0x7FF, 0);
    } else if aExp == bExp == 0x7FF {
      if aSig != 0 || bSig != 0 {
        z := Propagate(Double, st, a, b);
        return;
      }
      return a;
    }
    if st.control.flushToZero && aExp == 0 == bExp {
      if aSig != 0 || bSig != 0 {
        st.flags := st.flags + {OutputDenormal};
      }
      return PackFloat(Double, zSign, 0, 0);
    }
    SameSignSum(a, b, subtract);
    z := AddFinite(st, a, b, zSign);
  }

  lemma InfiniteIsSigned(a: nat)
    requires a < Double.Word() && IsInfinite(Double, a)
    ensures a == Signed(Double, Negative(Double, a), Double.Infinity())
  {
  }

  lemma SameSignSum(a: nat, b: nat, subtract: bool)
    requires Negative(Double, a) == (Negative(Double, b) != subtract)
    ensures var n := ExactSum(a, b, subtract);
      Abs(n) == Units(Double, a) + Units(Double, b) && (n != 0 ==> (n < 0 <==> Negative(Double, a)))
  {
    hide Units;
  }

  lemma OppositeSignSum(a: nat, b: nat, subtract: bool)
    requires Negative(Double, a) != (Negative(Double, b) != subtract)
    ensures var n, d := ExactSum(a, b, subtract), Units(Double, a) - Units(Double, b);
      n == if Negative(Double, a) then -d else d
  {
    hide Units;
  }

  /** subFloat64Sigs: b counts against the sign of a. */
  method SubSigs(st: FloatStatus, a: u64, b: u64, zSign: bool, ghost subtract: bool) returns (z: nat)
    requires zSign == Negative(Double, a) && (Negative(Double, b) != subtract) != zSign
    modifies st`flags
    ensures var r := SumOutcome(st.control, a, b, subtract);
      z == r.bits && st.flags == old(st.flags) + r.flags
  {
    Classes(Double, a);
    Classes(Double, b);
    PackMinusOne(Double, !zSign);
    if IsInfinite(Double, a) {
      InfiniteIsSigned(a);
    }
    hide Scale, Finite, Units, Frac, Exp, PropagateNaN, PackFloat, Signed, IsNaN, IsInfinite, IsFinite, IsZero, Negative;
    var aExp, bExp, aSig, bSig := Exp(Double, a), Exp(Double, b), Frac(Double, a), Frac(Double, b);
    if aExp == bExp == 0x7FF {
      if aSig != 0 || bSig != 0 {
        z := Propagate(Double, st, a, b);
        return;
      }
      st.flags := st.flags + {Invalid};
      return DefaultNaN(Double);
    } else if aExp < bExp && bExp == 0x7FF {
      if bSig != 0 {
        z := Propagate(Double, st, a, b);
        return;
      }
      return PackFloat(Double, !zSign, 0x7FF, 0);
    } else if bExp < aExp && aExp == 0x7FF {
      if aSig != 0 {
        z := Propagate(Double, st, a, b);
        return;
      }
      return a;
    }
    OppositeSignSum(a, b, subtract);
    z := SubFinite(st, a, b, zSign);
  }
}
