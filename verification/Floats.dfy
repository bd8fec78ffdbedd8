/** Floating-point bit patterns: fields, classes, NaN propagation and the normalized form of operands. */
module Floats {
  import opened Powers
  import opened Rounding
  import opened RoundPack

  /** The bits and the flags that an operation produces. */
  datatype Outcome = Outcome(bits: nat, flags: set<Flag>)

  predicate Negative(f: Format, a: nat) { a >= f.SignBit() }

  /** The bit pattern without its sign. */
  function Encoding(f: Format, a: nat): nat {
    if a >= f.SignBit() then a - f.SignBit() else a
  }

  function Exp(f: Format, a: nat): nat { ExponentField(f, Encoding(f, a)) }

  function Frac(f: Format, a: nat): nat { FractionField(f, Encoding(f, a)) }

  predicate IsNaN(f: Format, a: nat) { Encoding(f, a) > f.Infinity() }

  predicate IsInfinite(f: Format, a: nat) { Encoding(f, a) == f.Infinity() }

  predicate IsFinite(f: Format, a: nat) { Encoding(f, a) < f.Infinity() }

  predicate IsZero(f: Format, a: nat) { Encoding(f, a) == 0 }

  /** The magnitude of a finite number in units of the smallest subnormal. */
  function Units(f: Format, a: nat): nat { Magnitude(f, Encoding(f, a)) }

  /** The classes, read off the fields as the code does. */
  lemma Classes(f: Format, a: nat)
    requires a < f.Word()
    ensures IsNaN(f, a) <==> Exp(f, a) == f.MaxExp() && Frac(f, a) != 0
    ensures IsInfinite(f, a) <==> Exp(f, a) == f.MaxExp() && Frac(f, a) == 0
    ensures IsFinite(f, a) <==> Exp(f, a) < f.MaxExp()
    ensures IsZero(f, a) <==> Exp(f, a) == 0 && Frac(f, a) == 0
    ensures Exp(f, a) <= f.MaxExp() && Frac(f, a) < f.Hidden()
  {
    match f
    case Single =>
    case Double =>
  }

  // ---------------------------------------------------------------- NaNs

  function DefaultNaN(f: Format): nat { f.Infinity() + f.Hidden() / 2 }

  predicate IsSignaling(f: Format, a: nat) {
    IsNaN(f, a) && Frac(f, a) < f.Hidden() / 2
  }

  function Silence(f: Format, a: nat): nat {
    if IsSignaling(f, a) then a + f.Hidden() / 2 else a
  }

  predicate IsQuiet(f: Format, x: nat) { IsNaN(f, x) && !IsSignaling(f, x) }

  /** Signaling NaNs come before quiet ones, these before numbers. */
  function Rank(f: Format, x: nat): nat {
    if IsSignaling(f, x) then 0 else if IsNaN(f, x) then 1 else 2
  }

  /** The first operand of the lowest rank. */
  function FirstOfRank(f: Format, operands: seq<nat>): nat
    requires |operands| > 0
  {
    if |operands| == 1 then operands[0]
    else
      var rest := FirstOfRank(f, operands[1..]);
      if Rank(f, operands[0]) <= Rank(f, rest) then operands[0] else rest
  }

  /** No operand has a lower rank than operand i, and no earlier one the same. */
  ghost predicate IsFirstOfRank(f: Format, operands: seq<nat>, i: nat) {
    && i < |operands|
    && forall j :: 0 <= j < |operands| ==>
         Rank(f, operands[i]) <= Rank(f, operands[j]) && (j < i ==> Rank(f, operands[i]) < Rank(f, operands[j]))
  }

  lemma {:induction false} FirstOfRankIs(f: Format, operands: seq<nat>) returns (i: nat)
    requires |operands| > 0
    ensures IsFirstOfRank(f, operands, i) && FirstOfRank(f, operands) == operands[i]
  {
    i := 0;
    if |operands| > 1 {
      var k := FirstOfRankIs(f, operands[1..]);
      assert forall j :: 0 < j < |operands| ==> operands[j] == operands[1..][j - 1];
      if Rank(f, operands[0]) > Rank(f, operands[1..][k]) {
        i := k + 1;
      }
    }
  }

  /** Operand i is the one whose NaN is handed on: the first signaling one, or without such the first NaN. */
  ghost predicate IsChosen(f: Format, operands: seq<nat>, i: nat) {
    && i < |operands|
    && IsNaN(f, operands[i])
    && if IsSignaling(f, operands[i]) then forall j :: 0 <= j < i ==> !IsSignaling(f, operands[j])
       else forall j :: 0 <= j < |operands| ==> !IsSignaling(f, operands[j]) && (j < i ==> !IsNaN(f, operands[j]))
  }

  lemma FirstOfRankIsChosen(f: Format, operands: seq<nat>, k: nat) returns (i: nat)
    requires k < |operands| && IsNaN(f, operands[k])
    ensures IsChosen(f, operands, i) && FirstOfRank(f, operands) == operands[i]
  {
    i := FirstOfRankIs(f, operands);
    assert Rank(f, operands[i]) <= Rank(f, operands[k]) <= 1;
    forall x: nat
      ensures IsSignaling(f, x) ==> IsNaN(f, x)
    {
    }
    hide IsNaN, IsSignaling, FirstOfRank;
  }

  lemma SilencedIsQuiet(f: Format, x: nat)
    requires x < f.Word() && IsNaN(f, x)
    ensures IsQuiet(f, Silence(f, x)) && (Silence(f, x) == x || Silence(f, x) == x + f.Hidden() / 2)
  {
    match f
    case Single =>
    case Double =>
  }

  lemma DefaultIsQuiet(f: Format)
    ensures DefaultNaN(f) == (if f.Single? then 0x7FC0_0000 else 0x7FF8_0000_0000_0000) && IsQuiet(f, DefaultNaN(f))
  {
    match f
    case Single =>
    case Double =>
  }

  /** propagateFloat32NaN and propagateFloat64NaN with the ARM rules: the order of the operands is a, b. */
  function PropagateNaN(f: Format, c: Control, a: nat, b: nat): Outcome {
    Outcome(if c.defaultNaN then DefaultNaN(f) else Silence(f, FirstOfRank(f, [a, b])),
            if exists x :: x in [a, b] && IsSignaling(f, x) then {Invalid} else {})
  }

  /** What a NaN operand leads to: a quiet NaN, the default one if so configured and otherwise that of the chosen
      operand with its quiet bit set; invalid exactly for signaling operands. */
  lemma NaNOfTwo(f: Format, c: Control, a: nat, b: nat)
    requires a < f.Word() && b < f.Word() && (IsNaN(f, a) || IsNaN(f, b))
    ensures var r, operands: seq<nat> := PropagateNaN(f, c, a, b), [a, b];
      && IsQuiet(f, r.bits)
      && (if c.defaultNaN then r.bits == if f.Single? then 0x7FC0_0000 else 0x7FF8_0000_0000_0000
          else exists i: nat :: IsChosen(f, operands, i)
                 && (r.bits == operands[i] || r.bits == operands[i] + f.Hidden() / 2))
      && r.flags <= {Invalid}
      && (Invalid in r.flags <==> IsSignaling(f, a) || IsSignaling(f, b))
  {
    var operands: seq<nat> := [a, b];
    assert operands[0] == a && operands[1] == b;
    var i := FirstOfRankIsChosen(f, operands, if IsNaN(f, a) then 0 else 1);
    DefaultIsQuiet(f);
    SilencedIsQuiet(f, operands[i]);
    assert a in [a, b] && b in [a, b];
    hide IsNaN, IsSignaling, FirstOfRank, Silence, DefaultNaN;
  }

  lemma FirstOfTwo(f: Format, a: nat, b: nat)
    ensures FirstOfRank(f, [a, b]) == if Rank(f, a) <= Rank(f, b) then a else b
  {
    var two: seq<nat>, one: seq<nat> := [a, b], [b];
    assert two[1..] == one;
    hide Rank;
  }

  method Propagate(f: Format, st: FloatStatus, a: nat, b: nat) returns (z: nat)
    requires IsNaN(f, a) || IsNaN(f, b)
    modifies st`flags
    ensures var r := PropagateNaN(f, st.control, a, b);
      z == r.bits && st.flags == old(st.flags) + r.flags
  {
    FirstOfTwo(f, a, b);
    assert a in [a, b] && b in [a, b];
    hide FirstOfRank, Silence, IsSignaling, IsNaN;
    if IsSignaling(f, a) || IsSignaling(f, b) {
      st.flags := st.flags + {Invalid};
    }
    if st.control.defaultNaN {
      return DefaultNaN(f);
    }
    if IsSignaling(f, a) {
      return Silence(f, a);
    } else if IsSignaling(f, b) {
      return Silence(f, b);
    } else if IsNaN(f, a) {
      return Silence(f, a);
    } else {
      return Silence(f, b);
    }
  }

  // ---------------------------------------------------------------- flushing of inputs

  predicate IsSubnormal(f: Format, a: nat) { 0 < Encoding(f, a) < f.Hidden() }

  /** float32_squash_input_denormal and float64_squash_input_denormal. */
  function Squash(f: Format, c: Control, a: nat): nat {
    if c.flushInputsToZero && IsSubnormal(f, a) then Signed(f, Negative(f, a), 0) else a
  }

  function SquashFlags(f: Format, c: Control, a: nat): set<Flag> {
    if c.flushInputsToZero && IsSubnormal(f, a) then {InputDenormal} else {}
  }

  method SquashInputDenormal(f: Format, st: FloatStatus, a: nat) returns (z: nat)
    requires a < f.Word()
    modifies st`flags
    ensures z == Squash(f, st.control, a) && z < f.Word()
    ensures st.flags == old(st.flags) + SquashFlags(f, st.control, a)
  {
    Classes(f, a);
    if st.control.flushInputsToZero {
      if Exp(f, a) == 0 && Frac(f, a) != 0 {
        st.flags := st.flags + {InputDenormal};
        return if Negative(f, a) then f.SignBit() else 0;
      }
    }
    return a;
  }

  /** Section 6.3: the sign of an exact zero sum. */
  predicate ZeroSumNegative(mode: Mode, aNegative: bool, bNegative: bool) {
    if aNegative == bNegative then aNegative else mode == Down
  }

  /** What an operation delivers for an exact finite result of magnitude x. */
  ghost function Finite(f: Format, c: Control, negative: bool, x: real): Outcome
    requires x >= 0.0
  {
    var r := Deliver(f, c, negative, x);
    Outcome(Signed(f, negative, r.encoding), r.flags)
  }

  // ---------------------------------------------------------------- normalized operands

  /** An operand as significand * 2^(exponent - 1) units with the implicit bit set. */
  datatype Operand = Operand(exponent: int, significand: nat)

  /** normalizeFloat32Subnormal and normalizeFloat64Subnormal. */
  function NormalizeSubnormal(f: Format, aSig: nat): Operand
    requires 0 < aSig < f.Hidden()
  {
    WordIsPow2(f);
    var shiftCount: int := CountLeadingZeros(f.Width(), aSig) - Margin(f);
    SubnormalShift(f, aSig);
    Operand(1 - shiftCount, aSig * Pow2(shiftCount))
  }

  /** The width of the field above the fraction, sign bit excluded: 8 or 11. */
  function Margin(f: Format): nat { if f.Single? then 8 else 11 }

  lemma MarginIsPow2(f: Format)
    ensures Pow2(Margin(f)) == if f.Single? then 0x100 else 0x800
    ensures Pow2(f.Width()) == f.Word() && 2 * Pow2(f.Width() - 1) == f.Word()
  {
    WordIsPow2(f);
    Pow2Shift8(0);
    assert Pow2(10) == 4 * Pow2(8);
  }

  lemma SubnormalShift(f: Format, aSig: nat)
    requires 0 < aSig < f.Hidden() && f.Word() == Pow2(f.Width())
    ensures var n: int := CountLeadingZeros(f.Width(), aSig) - Margin(f);
      0 < n <= f.FractionBits() && f.Hidden() <= aSig * Pow2(n) < 2 * f.Hidden()
  {
    MarginIsPow2(f);
    var zeros, margin := CountLeadingZeros(f.Width(), aSig), Margin(f);
    if zeros <= margin {
      Pow2Monotone(zeros, margin);
      ScaleLe(aSig, Pow2(zeros), Pow2(margin));
    } else {
      Pow2Add(zeros - margin, margin);
      Regroup(aSig, Pow2(zeros - margin), Pow2(margin));
    }
    hide CountLeadingZeros, Pow2;
    match f case Single => case Double =>
  }

  lemma ScaleLe(a: nat, p: nat, q: nat)
    requires p <= q
    ensures a * p <= a * q
  {
  }

  lemma Regroup(a: int, p: int, q: int)
    ensures a * (p * q) == (a * p) * q
  {
  }

  /** The operand of an arithmetic routine: subnormals are normalized, other numbers get their implicit bit. */
  function NormalOperand(f: Format, a: nat): Operand
    requires a < f.Word() && IsFinite(f, a) && !IsZero(f, a)
  {
    Classes(f, a);
    if Exp(f, a) == 0 then NormalizeSubnormal(f, Frac(f, a))
    else Operand(Exp(f, a), f.Hidden() + Frac(f, a))
  }

  lemma OperandValue(f: Format, a: nat)
    requires a < f.Word() && IsFinite(f, a) && !IsZero(f, a)
    ensures var n := NormalOperand(f, a);
      && f.Hidden() <= n.significand < 2 * f.Hidden()
      && 0 - f.FractionBits() < n.exponent < f.MaxExp()
      && Units(f, a) as real == Scale(n.significand as real, n.exponent - 1)
  {
    hide Scale, Pow2, Exp, Frac, ExponentField, FractionField;
    Classes(f, a);
    WordIsPow2(f);
    UnitsOfFields(f, a);
    if Exp(f, a) == 0 {
      SubnormalValue(f, Frac(f, a));
    } else {
      ScaleNat(f.Hidden() + Frac(f, a), Exp(f, a) - 1);
    }
  }

  lemma UnitsOfFields(f: Format, a: nat)
    ensures Units(f, a)
         == if Exp(f, a) == 0 then Frac(f, a) else (f.Hidden() + Frac(f, a)) * Pow2(Exp(f, a) - 1)
  {
    hide Pow2, ExponentField, FractionField;
  }

  lemma SubnormalValue(f: Format, m: nat)
    requires 0 < m < f.Hidden() && f.Word() == Pow2(f.Width())
    ensures var n := NormalizeSubnormal(f, m);
      && f.Hidden() <= n.significand < 2 * f.Hidden()
      && 0 - f.FractionBits() < n.exponent <= 0
      && m as real == Scale(n.significand as real, n.exponent - 1)
  {
    SubnormalShift(f, m);
    var shift: int := CountLeadingZeros(f.Width(), m) - Margin(f);
    ScaleNat(m, shift);
    ScaleAdd(m as real, shift, -shift);
    assert Scale(m as real, 0) == m as real;
    hide Scale, Pow2, CountLeadingZeros;
  }

  // ---------------------------------------------------------------- operands as stored

  /** The exponent that scales a stored significand: subnormals share it with the least normal numbers. */
  function EffectiveExp(f: Format, a: nat): nat {
    if Exp(f, a) == 0 then 1 else Exp(f, a)
  }

  /** The stored significand with its implicit bit. */
  function FullSig(f: Format, a: nat): nat {
    if Exp(f, a) == 0 then Frac(f, a) else f.Hidden() + Frac(f, a)
  }

  lemma StoredValue(f: Format, a: nat)
    ensures Units(f, a) as real == Scale(FullSig(f, a) as real, EffectiveExp(f, a) - 1)
  {
    hide Scale, Exp, Frac, Units;
    UnitsOfFields(f, a);
    assert Pow2(0) == 1;
    ScaleNat(FullSig(f, a), EffectiveExp(f, a) - 1);
  }

  lemma SignedParts(f: Format, negative: bool, e: nat)
    requires e < f.SignBit()
    ensures Negative(f, Signed(f, negative, e)) == negative && Encoding(f, Signed(f, negative, e)) == e
    ensures Signed(f, negative, e) < f.Word()
  {
  }
}
