/**
 The rounding specification of IEEE 754-2008, section 4.3, for the binary32 and binary64 formats.

 A magnitude is a real number counted in units of the smallest subnormal of the format, so that
 every finite floating-point number is a natural number of units.  The encoding of a magnitude is
 the bit pattern of the number without its sign bit; encodings are ordered like the numbers they
 stand for, and encodings at or above `Infinity()` are read as if the exponent range were unbounded.
 */
module Rounding {
  import opened Powers

  datatype Mode = NearestEven | Down | Up | ToZero | TiesAway

  datatype Flag = Invalid | DivByZero | Overflow | Underflow | Inexact | InputDenormal | OutputDenormal

  datatype Tininess = AfterRounding | BeforeRounding

  datatype Format = Single | Double {
    /** Number of stored fraction bits. */
    function FractionBits(): nat { if Single? then 23 else 52 }

    /** Weight of the implicit leading bit: 2^FractionBits. */
    function Hidden(): nat { if Single? then 0x80_0000 else 0x10_0000_0000_0000 }

    /** The all-ones exponent field. */
    function MaxExp(): nat { if Single? then 0xFF else 0x7FF }

    /** Extra low bits that an unrounded significand carries. */
    function GuardBits(): int { if Single? then 7 else 10 }

    function Guard(): nat { if Single? then 0x80 else 0x400 }

    function Half(): nat { if Single? then 0x40 else 0x200 }

    /** Weight of the leading bit of a normalized unrounded significand. */
    function Normal(): nat { if Single? then 0x4000_0000 else 0x4000_0000_0000_0000 }

    function SignBit(): nat { if Single? then 0x8000_0000 else 0x8000_0000_0000_0000 }

    function Width(): nat { if Single? then 32 else 64 }

    function Word(): nat { if Single? then 0x1_0000_0000 else 0x1_0000_0000_0000_0000 }

    function Infinity(): nat { if Single? then 0x7F80_0000 else 0x7FF0_0000_0000_0000 }
  }

  lemma WordIsPow2(f: Format)
    ensures f.Word() == Pow2(f.Width())
  {
    WordSizes();
    hide Pow2;
  }

  // ---------------------------------------------------------------- rounding to an integer

  /** Rounding a non-negative magnitude that belongs to a number of the given sign. */
  ghost function RoundInt(mode: Mode, negative: bool, q: real): int {
    var below := q.Floor;
    var rest := q - below as real;
    if rest == 0.0 then below
    else match mode
      case NearestEven => if rest < 0.5 || (rest == 0.5 && below % 2 == 0) then below else below + 1
      case TiesAway => if rest < 0.5 then below else below + 1
      case ToZero => below
      case Up => if negative then below else below + 1
      case Down => if negative then below + 1 else below
  }

  // ---------------------------------------------------------------- encodings

  function ExponentField(f: Format, e: nat): nat {
    match f case Single => e / 0x80_0000 case Double => e / 0x10_0000_0000_0000
  }

  function FractionField(f: Format, e: nat): (r: nat)
    ensures r < f.Hidden()
  {
    match f case Single => e % 0x80_0000 case Double => e % 0x10_0000_0000_0000
  }

  /** The number of units that an encoding stands for. */
  function Magnitude(f: Format, e: nat): nat {
    FieldValue(f, ExponentField(f, e), FractionField(f, e))
  }

  function FieldValue(f: Format, exponent: nat, fraction: nat): nat {
    if exponent == 0 then fraction else (f.Hidden() + fraction) * Pow2(exponent - 1)
  }

  /** The fields of packFloat32 and packFloat64, added: a significand at or above the implicit bit
      carries into the exponent. */
  function Encode(f: Format, exponent: nat, significand: nat): nat {
    exponent * f.Hidden() + significand
  }

  /** Exponent of the spacing between neighbouring numbers at x: the least k with x < 2^(p+k). */
  ghost function Quantum(f: Format, x: real): nat
    requires x >= 0.0
    decreases x.Floor
  {
    if x < (2 * f.Hidden()) as real then 0 else 1 + Quantum(f, x / 2.0)
  }

  /** x in units of its own spacing. */
  ghost function Mantissa(f: Format, x: real): (q: real)
    requires x >= 0.0
    ensures q >= 0.0
  {
    var k: int := Quantum(f, x);
    ScaleMonotone(x, -k, 0);
    Scale(x, -k)
  }

  /** The encoding nearest to x in the sense of the mode, the exponent range being unbounded. */
  ghost function RoundedEncoding(f: Format, mode: Mode, negative: bool, x: real): nat
    requires x >= 0.0
  {
    var k := Quantum(f, x);
    var q := Mantissa(f, x);
    Encode(f, k, RoundInt(mode, negative, q))
  }

  // ---------------------------------------------------------------- the delivered result

  datatype Rounded = Rounded(encoding: nat, flags: set<Flag>)

  predicate OverflowsToInfinity(mode: Mode, negative: bool) {
    mode == NearestEven || mode == TiesAway || (mode == Up && !negative) || (mode == Down && negative)
  }

  /** Section 7.5: the result is tiny, detected before or after rounding.  With an unbounded exponent
      range the spacing just below the smallest normal number is half a unit. */
  ghost predicate Tiny(f: Format, mode: Mode, tininess: Tininess, negative: bool, x: real) {
    && 0.0 < x < f.Hidden() as real
    && (tininess == BeforeRounding || RoundInt(mode, negative, 2.0 * x) < 2 * f.Hidden())
  }

  /** The encoding and the flags that section 4.3 and sections 7.4 to 7.6 ask for. */
  ghost function Round(f: Format, mode: Mode, tininess: Tininess, negative: bool, x: real): Rounded
    requires x >= 0.0
  {
    var n := RoundedEncoding(f, mode, negative, x);
    if n >= f.Infinity() then
      Rounded(if OverflowsToInfinity(mode, negative) then f.Infinity() else f.Infinity() - 1, {Overflow, Inexact})
    else if Magnitude(f, n) as real == x then
      Rounded(n, {})
    else
      Rounded(n, {Inexact} + if Tiny(f, mode, tininess, negative, x) then {Underflow} else {})
  }

  // ---------------------------------------------------------------- what the encoding means

  function Distance(f: Format, n: nat, x: real): real {
    var d := Magnitude(f, n) as real - x;
    if d < 0.0 then -d else d
  }

  /** Section 4.3, stated without computing anything: n is the encoding that the mode selects for x. */
  ghost predicate IsRoundingOf(f: Format, mode: Mode, negative: bool, x: real, n: nat) {
    match mode
    case NearestEven =>
      forall e: nat :: e != n ==>
        Distance(f, n, x) < Distance(f, e, x) || (Distance(f, n, x) == Distance(f, e, x) && n % 2 == 0)
    case TiesAway =>
      forall e: nat :: e != n ==>
        Distance(f, n, x) < Distance(f, e, x) || (Distance(f, n, x) == Distance(f, e, x) && e < n)
    case ToZero => LargestNotAbove(f, x, n)
    case Up => if negative then LargestNotAbove(f, x, n) else SmallestNotBelow(f, x, n)
    case Down => if negative then SmallestNotBelow(f, x, n) else LargestNotAbove(f, x, n)
  }

  ghost predicate LargestNotAbove(f: Format, x: real, n: nat) {
    Magnitude(f, n) as real <= x && forall e: nat :: Magnitude(f, e) as real <= x ==> e <= n
  }

  ghost predicate SmallestNotBelow(f: Format, x: real, n: nat) {
    Magnitude(f, n) as real >= x && forall e: nat :: Magnitude(f, e) as real >= x ==> n <= e
  }

  // ---------------------------------------------------------------- proofs

  lemma EncodeCarries(f: Format, k: nat, m: nat)
    requires f.Hidden() <= m
    ensures Encode(f, k, m) == Encode(f, k + 1, m - f.Hidden())
  {
    match f
    case Single =>
    case Double =>
  }

  /** Encoding a significand m with k exponent steps gives m * 2^k, carries included. */
  lemma MagnitudeOfSum(f: Format, k: nat, m: nat)
    requires m <= 2 * f.Hidden() && (k == 0 || f.Hidden() <= m)
    ensures Magnitude(f, Encode(f, k, m)) == m * Pow2(k)
  {
    if m < f.Hidden() {
      FieldsOf(f, 0, m);
      assert Pow2(0) == 1;
    } else if m < 2 * f.Hidden() {
      EncodeCarries(f, k, m);
      NormalFields(f, k, m - f.Hidden(), m);
    } else {
      EncodeCarries(f, k, m);
      CarrySum(f, k, m);
    }
    hide *;
  }

  lemma NormalFields(f: Format, k: nat, fraction: nat, m: nat)
    requires fraction < f.Hidden() && m == f.Hidden() + fraction
    ensures Magnitude(f, Encode(f, k + 1, fraction)) == m * Pow2(k)
  {
    FieldsOf(f, k + 1, fraction);
    assert FieldValue(f, k + 1, fraction) == m * Pow2(k);
    hide Encode, Pow2, FieldValue, ExponentField, FractionField;
  }

  lemma CarrySum(f: Format, k: nat, m: nat)
    requires m == 2 * f.Hidden()
    ensures Magnitude(f, Encode(f, k + 1, m - f.Hidden())) == m * Pow2(k)
  {
    EncodeCarries(f, k + 1, f.Hidden());
    NormalFields(f, k + 1, 0, f.Hidden());
    assert Pow2(k + 1) == 2 * Pow2(k);
    hide *;
    DoubleMove(f.Hidden(), Pow2(k));
  }

  lemma FieldsOf(f: Format, exponent: nat, fraction: nat)
    requires fraction < f.Hidden()
    ensures ExponentField(f, Encode(f, exponent, fraction)) == exponent
    ensures FractionField(f, Encode(f, exponent, fraction)) == fraction
  {
    match f
    case Single =>
    case Double =>
  }

  lemma EncodeOfFields(f: Format, e: nat)
    ensures Encode(f, ExponentField(f, e), FractionField(f, e)) == e
  {
    match f
    case Single =>
    case Double =>
  }

  /** Larger encodings stand for larger numbers. */
  lemma MagnitudeStep(f: Format, e: nat)
    ensures Magnitude(f, e) < Magnitude(f, e + 1)
  {
    var k, m := Normalize(f, e);
    MagnitudeOfSum(f, k, m);
    MagnitudeOfSum(f, k, m + 1);
    EncodeNext(f, k, m);
    hide *;
    assert (m + 1) * Pow2(k) == m * Pow2(k) + Pow2(k);
  }

  /** Every encoding comes from a significand with its implicit bit in place. */
  lemma Normalize(f: Format, e: nat) returns (k: nat, m: nat)
    ensures e == Encode(f, k, m) && m < 2 * f.Hidden() && (k == 0 || f.Hidden() <= m)
  {
    EncodeOfFields(f, e);
    if ExponentField(f, e) == 0 {
      k, m := 0, FractionField(f, e);
    } else {
      k, m := ExponentField(f, e) - 1, f.Hidden() + FractionField(f, e);
      EncodeCarries(f, k, m);
    }
  }

  lemma {:induction false} MagnitudeMonotone(f: Format, e: nat, g: nat)
    requires e <= g
    ensures Magnitude(f, e) <= Magnitude(f, g)
    decreases g - e
  {
    if e < g {
      MagnitudeMonotone(f, e, g - 1);
      MagnitudeStep(f, g - 1);
    }
  }

  /** A normalized mantissa scaled by 2^k has spacing 2^k. */
  lemma {:induction false} QuantumOfScaled(f: Format, m: real, k: nat)
    requires 0.0 <= m < (2 * f.Hidden()) as real
    requires k == 0 || f.Hidden() as real <= m
    ensures Scale(m, k) >= 0.0 && Quantum(f, Scale(m, k)) == k && Mantissa(f, Scale(m, k)) == m
  {
    var e: int := k;
    ScaleMonotone(m, 0, k);
    ScaleAdd(m, k, -e);
    if k > 0 {
      QuantumOfScaled(f, m, k - 1);
      ScaleMonotone(m, 0, k - 1);
    }
  }

  lemma {:induction false} MantissaBounds(f: Format, x: real)
    requires x >= 0.0
    ensures Mantissa(f, x) < (2 * f.Hidden()) as real
    ensures Quantum(f, x) == 0 || f.Hidden() as real <= Mantissa(f, x)
    ensures x == Scale(Mantissa(f, x), Quantum(f, x))
    decreases x.Floor
  {
    var k: int := Quantum(f, x);
    ScaleAdd(x, -k, k);
    if k > 0 {
      MantissaBounds(f, x / 2.0);
      ScaleAdd(x, -1, 1 - k);
    }
  }

  /** x lies between the encodings that round its mantissa down and up. */
  lemma Bracket(f: Format, x: real) returns (below: nat)
    requires x >= 0.0
    ensures var k, m := Quantum(f, x), Mantissa(f, x).Floor;
      && below == Encode(f, k, m)
      && Magnitude(f, below) as real == Scale(m as real, k) <= x
      && Magnitude(f, below + 1) as real == Scale((m + 1) as real, k) > x
  {
    MantissaBounds(f, x);
    var k, q := Quantum(f, x), Mantissa(f, x);
    var m := q.Floor;
    hide *;
    below := Encode(f, k, m);
    EncodeNext(f, k, m);
    MagnitudeScaled(f, k, m);
    MagnitudeScaled(f, k, m + 1);
    ScaleOrder(m as real, q, k);
    ScaleOrder(q, (m + 1) as real, k);
  }

  lemma EncodeNext(f: Format, k: nat, m: nat)
    ensures Encode(f, k, m + 1) == Encode(f, k, m) + 1
  {
  }

  lemma MagnitudeScaled(f: Format, k: nat, m: nat)
    requires m <= 2 * f.Hidden() && (k == 0 || f.Hidden() <= m)
    ensures Magnitude(f, Encode(f, k, m)) as real == Scale(m as real, k)
  {
    MagnitudeOfSum(f, k, m);
    ScaleNat(m, k);
  }

  lemma RoundIntBounds(mode: Mode, negative: bool, q: real)
    ensures q.Floor <= RoundInt(mode, negative, q) <= q.Floor + 1
    ensures q == q.Floor as real ==> RoundInt(mode, negative, q) == q.Floor
  {
  }

  /** The rounded encoding has the same value exactly when nothing was lost. */
  lemma ExactIffInteger(f: Format, mode: Mode, negative: bool, x: real)
    requires x >= 0.0
    ensures Magnitude(f, RoundedEncoding(f, mode, negative, x)) as real == x
       <==> Mantissa(f, x) == Mantissa(f, x).Floor as real
  {
    MantissaBounds(f, x);
    var below := Bracket(f, x);
    ScaleOrder(Mantissa(f, x).Floor as real, Mantissa(f, x), Quantum(f, x));
  }

  ghost predicate Between(f: Format, x: real, below: nat) {
    Magnitude(f, below) as real <= x < Magnitude(f, below + 1) as real
  }

  /** Encodings other than the two neighbours of x are farther away than one of them. */
  lemma Farther(f: Format, x: real, below: nat, e: nat)
    requires Between(f, x, below)
    ensures e < below ==> Magnitude(f, e) < Magnitude(f, below) && Distance(f, below, x) < Distance(f, e, x)
    ensures e > below ==> Magnitude(f, e) >= Magnitude(f, below + 1)
    ensures e > below + 1 ==> Distance(f, below + 1, x) < Distance(f, e, x)
  {
    if e < below {
      MagnitudeStep(f, e);
      MagnitudeMonotone(f, e + 1, below);
    } else if e > below {
      MagnitudeMonotone(f, below + 1, e);
      if e > below + 1 {
        MagnitudeStep(f, below + 1);
        MagnitudeMonotone(f, below + 2, e);
      }
    }
    hide Magnitude;
  }

  lemma SelectBelow(f: Format, x: real, below: nat)
    requires Between(f, x, below)
    ensures LargestNotAbove(f, x, below)
    ensures Magnitude(f, below) as real == x ==> SmallestNotBelow(f, x, below)
    ensures Magnitude(f, below) as real != x ==> SmallestNotBelow(f, x, below + 1)
  {
    forall e: nat
      ensures Magnitude(f, e) as real <= x ==> e <= below
      ensures Magnitude(f, e) as real >= x ==> e >= below
      ensures Magnitude(f, e) as real >= x && Magnitude(f, below) as real != x ==> e >= below + 1
    {
      Farther(f, x, below, e);
      hide Magnitude, Distance;
    }
    hide Magnitude;
  }

  lemma SelectNearest(f: Format, x: real, below: nat)
    requires Between(f, x, below)
    ensures forall e: nat :: e < below ==> Distance(f, below, x) < Distance(f, e, x)
    ensures forall e: nat :: e > below + 1 ==> Distance(f, below + 1, x) < Distance(f, e, x)
    ensures Distance(f, below, x) == x - Magnitude(f, below) as real
    ensures Distance(f, below + 1, x) == Magnitude(f, below + 1) as real - x
  {
    forall e: nat
      ensures e < below ==> Distance(f, below, x) < Distance(f, e, x)
      ensures e > below + 1 ==> Distance(f, below + 1, x) < Distance(f, e, x)
    {
      Farther(f, x, below, e);
    }
    hide Magnitude;
  }

  /** How the fraction of the mantissa decides between the two neighbours of x. */
  ghost predicate FractionDecides(f: Format, x: real, below: nat, q: real) {
    var rest := q - q.Floor as real;
    && Between(f, x, below)
    && (Magnitude(f, below) as real == x <==> rest == 0.0)
    && (x - Magnitude(f, below) as real < Magnitude(f, below + 1) as real - x <==> rest < 0.5)
    && (x - Magnitude(f, below) as real == Magnitude(f, below + 1) as real - x <==> rest == 0.5)
    && q.Floor % 2 == below % 2
  }

  lemma DirectedIsCorrect(f: Format, mode: Mode, negative: bool, x: real, below: nat, q: real)
    requires FractionDecides(f, x, below, q) && mode != NearestEven && mode != TiesAway
    ensures IsRoundingOf(f, mode, negative, x, below + (RoundInt(mode, negative, q) - q.Floor))
  {
    SelectBelow(f, x, below);
    hide Magnitude, LargestNotAbove, SmallestNotBelow;
  }

  lemma RoundIntNearest(mode: Mode, negative: bool, q: real)
    requires mode == NearestEven || mode == TiesAway
    ensures var rest, n := q - q.Floor as real, RoundInt(mode, negative, q);
      if rest < 0.5 || (rest == 0.5 && mode == NearestEven && q.Floor % 2 == 0) then n == q.Floor
      else n == q.Floor + 1
  {
  }

  lemma NearestIsCorrect(f: Format, mode: Mode, negative: bool, x: real, below: nat, q: real)
    requires FractionDecides(f, x, below, q) && (mode == NearestEven || mode == TiesAway)
    ensures IsRoundingOf(f, mode, negative, x, below + (RoundInt(mode, negative, q) - q.Floor))
  {
    hide Magnitude, Distance, RoundInt;
    SelectNearest(f, x, below);
    RoundIntNearest(mode, negative, q);
    var near, far := Distance(f, below, x), Distance(f, below + 1, x);
    assert near < far <==> q - q.Floor as real < 0.5;
    assert near == far <==> q - q.Floor as real == 0.5;
    if mode == NearestEven {
      NearestEvenChoice(f, x, below);
    } else {
      TiesAwayChoice(f, x, below);
    }
  }

  lemma NearestEvenChoice(f: Format, x: real, below: nat)
    requires Between(f, x, below)
    ensures var near, far := Distance(f, below, x), Distance(f, below + 1, x);
      IsRoundingOf(f, NearestEven, false, x,
                   if near < far || (near == far && below % 2 == 0) then below else below + 1)
    ensures forall n: nat :: IsRoundingOf(f, NearestEven, false, x, n) == IsRoundingOf(f, NearestEven, true, x, n)
  {
    hide Magnitude, Distance;
    SelectNearest(f, x, below);
  }

  lemma TiesAwayChoice(f: Format, x: real, below: nat)
    requires Between(f, x, below)
    ensures IsRoundingOf(f, TiesAway, false, x,
                         if Distance(f, below, x) < Distance(f, below + 1, x) then below else below + 1)
    ensures forall n: nat :: IsRoundingOf(f, TiesAway, false, x, n) == IsRoundingOf(f, TiesAway, true, x, n)
  {
    hide Magnitude, Distance;
    SelectNearest(f, x, below);
  }

  /** The computed encoding is the one that section 4.3 selects, in all five modes. */
  lemma RoundedEncodingIsCorrect(f: Format, mode: Mode, negative: bool, x: real)
    requires x >= 0.0
    ensures IsRoundingOf(f, mode, negative, x, RoundedEncoding(f, mode, negative, x))
  {
    var below := Bracket(f, x);
    NearerSide(f, x, below);
    EvenEncoding(f, Quantum(f, x), Mantissa(f, x).Floor);
    var q := Mantissa(f, x);
    assert RoundedEncoding(f, mode, negative, x) == below + (RoundInt(mode, negative, q) - q.Floor) by {
      hide Quantum, Mantissa, RoundInt, Format.Hidden;
    }
    assert FractionDecides(f, x, below, q);
    hide *;
    if mode == NearestEven || mode == TiesAway {
      NearestIsCorrect(f, mode, negative, x, below, q);
    } else {
      DirectedIsCorrect(f, mode, negative, x, below, q);
    }
  }

  /** The distances to the two neighbours of x compare like the fraction of its mantissa with a half. */
  lemma NearerSide(f: Format, x: real, below: nat)
    requires x >= 0.0 && below == Encode(f, Quantum(f, x), Mantissa(f, x).Floor)
    requires Magnitude(f, below) as real == Scale(Mantissa(f, x).Floor as real, Quantum(f, x))
    requires Magnitude(f, below + 1) as real == Scale((Mantissa(f, x).Floor + 1) as real, Quantum(f, x))
    ensures var rest := Mantissa(f, x) - Mantissa(f, x).Floor as real;
      && (Magnitude(f, below) as real == x <==> rest == 0.0)
      && (x - Magnitude(f, below) as real < Magnitude(f, below + 1) as real - x <==> rest < 0.5)
      && (x - Magnitude(f, below) as real == Magnitude(f, below + 1) as real - x <==> rest == 0.5)
  {
    var k, q := Quantum(f, x), Mantissa(f, x);
    var m := q.Floor as real;
    MantissaBounds(f, x);
    hide *;
    ScaleOrder(m, q, k);
    ScaleOrder(q + q, m + (m + 1.0), k);
    ScaleSum(q, q, k);
    ScaleSum(m, m + 1.0, k);
  }

  lemma EvenEncoding(f: Format, k: nat, m: nat)
    ensures Encode(f, k, m) % 2 == m % 2
  {
    match f
    case Single =>
    case Double =>
  }

  /** The selection leaves no choice: the mode and the exact value determine the encoding. */
  lemma RoundingIsUnique(f: Format, mode: Mode, negative: bool, x: real, n: nat)
    requires x >= 0.0 && IsRoundingOf(f, mode, negative, x, n)
    ensures n == RoundedEncoding(f, mode, negative, x)
  {
    RoundedEncodingIsCorrect(f, mode, negative, x);
    hide *;
    SelectionIsUnique(f, mode, negative, x, n, RoundedEncoding(f, mode, negative, x));
  }

  lemma SelectionIsUnique(f: Format, mode: Mode, negative: bool, x: real, n: nat, r: nat)
    requires IsRoundingOf(f, mode, negative, x, n) && IsRoundingOf(f, mode, negative, x, r)
    ensures n == r
  {
    match mode
    case NearestEven =>
      hide Magnitude, Distance;
      if n != r {
        TieIsOdd(f, x, if n < r then n else r, if n < r then r else n);
      }
    case TiesAway =>
      hide Magnitude, Distance;
      var distances := (Distance(f, n, x), Distance(f, r, x));
      assert distances.0 <= distances.1;
    case _ =>
      hide Magnitude;
      assert LargestNotAbove(f, x, n) && LargestNotAbove(f, x, r) ==> n <= r && r <= n;
      assert SmallestNotBelow(f, x, n) && SmallestNotBelow(f, x, r) ==> n <= r && r <= n;
  }

  /** Between two even encodings equally far from x there is a closer odd one. */
  lemma TieIsOdd(f: Format, x: real, low: nat, high: nat)
    requires low + 1 < high && Distance(f, low, x) == Distance(f, high, x)
    ensures Distance(f, low + 1, x) < Distance(f, low, x)
  {
    MagnitudeStep(f, low);
    MagnitudeStep(f, low + 1);
    MagnitudeMonotone(f, low + 2, high);
    hide Magnitude;
  }
}
