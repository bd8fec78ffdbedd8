/**
 What the arithmetic means for signed values, in terms of the numbers themselves.  The laws here name none of
 the functions that the routines are proved against, so that they say what those functions compute.
 */
module FloatLaws {
  import opened Arithmetic
  import opened Powers
  import opened Rounding
  import opened RoundPack
  import opened Floats
  import opened Float64Mul
  import opened Float64Div
  import Float64Add
  import Float64Rem
  import Float32MulAdd
  import Float32Sqrt

  // ---------------------------------------------------------------- numbers

  function SignWeight(f: Format): nat { if f.Single? then 0x8000_0000 else 0x8000_0000_0000_0000 }

  /** The bit pattern of one. */
  function One(f: Format): nat { if f.Single? then 0x3F80_0000 else 0x3FF0_0000_0000_0000 }

  /** The value of a finite number in units. */
  function Amount(f: Format, a: nat): int {
    if a >= SignWeight(f) then 0 - Units(f, a) else Units(f, a)
  }

  /** Numbers are spaced by one unit up to twice the smallest normal number, and each further exponent doubles them. */
  lemma NumbersAre(f: Format, e: nat)
    ensures f.Hidden() == (if f.Single? then 0x80_0000 else 0x10_0000_0000_0000)
    ensures f.Infinity() == if f.Single? then 0x7F80_0000 else 0x7FF0_0000_0000_0000
    ensures e <= 2 * f.Hidden() ==> Magnitude(f, e) == e
    ensures e >= f.Hidden() ==> Magnitude(f, e + f.Hidden()) == 2 * Magnitude(f, e)
  {
    var k, m := Normalize(f, e);
    MagnitudeOfSum(f, k, m);
    assert Pow2(0) == 1 && Pow2(k + 1) == 2 * Pow2(k);
    if e >= f.Hidden() {
      MagnitudeOfSum(f, k + 1, m);
      NextExponent(f, k, m);
      TwiceProduct(m, Pow2(k));
    }
    if e <= 2 * f.Hidden() {
      MagnitudeOfSum(f, 0, e);
      OnlyExponent(f, e);
    }
    hide Magnitude, Encode, Pow2;
  }

  lemma NextExponent(f: Format, k: nat, m: nat)
    ensures Encode(f, k + 1, m) == Encode(f, k, m) + f.Hidden()
  {
    match f
    case Single =>
    case Double =>
  }

  lemma OnlyExponent(f: Format, e: nat)
    ensures Encode(f, 0, e) == e
  {
  }

  lemma TwiceProduct(m: nat, p: nat)
    ensures m * (2 * p) == 2 * (m * p)
  {
  }

  /** The unit is the smallest subnormal: 2^-149 or 2^-1074. */
  lemma UnitOfOne(f: Format)
    ensures Units(f, 1) == 1 && Amount(f, One(f)) == Pow2(if f.Single? then 149 else 1074)
  {
    hide Pow2;
    match f
    case Single => OneIs(Single, 126);
    case Double => OneIs(Double, 1022);
  }

  lemma OneIs(f: Format, k: nat)
    requires k == if f.Single? then 126 else 1022
    ensures Units(f, 1) == 1 && Units(f, One(f)) == Pow2(if f.Single? then 149 else 1074)
  {
    MagnitudeOfSum(f, k, f.Hidden());
    assert Encode(f, k, f.Hidden()) == One(f);
    MagnitudeOfSum(f, 0, 1);
    assert Encode(f, 0, 1) == 1 && Pow2(0) == 1;
    HiddenIsPow2(f);
    Pow2Add(if f.Single? then 23 else 52, k);
    hide Magnitude, Encode, Pow2;
  }

  lemma HiddenIsPow2(f: Format)
    ensures f.Hidden() == Pow2(if f.Single? then 23 else 52)
  {
    WordSizes();
    assert Pow2(23) == 0x80 * Pow2(16);
    Pow2Add(32, 20);
    Pow2Add(16, 4);
    assert Pow2(4) == 16;
    hide Pow2;
  }

  // ---------------------------------------------------------------- rounding

  /** The value, in units, that an encoding stands for with a sign, the exponent range being unbounded. */
  function SignedNumber(f: Format, negative: bool, e: nat): int {
    if negative then 0 - Magnitude(f, e) else Magnitude(f, e)
  }

  function Gap(v: int, x: real): real { if v as real >= x then v as real - x else x - v as real }

  /**
   What the modes select, for signed values: upwards the least number not below x, downwards the greatest not
   above it, towards zero the greatest magnitude not above that of x, and otherwise the nearest number; of two that
   are equally near that with an even encoding or that of larger magnitude.
   */
  lemma ModesMean(f: Format, mode: Mode, x: real, negative: bool, n: nat)
    requires (x < 0.0 ==> negative) && (x > 0.0 ==> !negative)
    requires IsRoundingOf(f, mode, negative, if x < 0.0 then -x else x, n)
    ensures Selects(f, mode, x, SignedNumber(f, negative, n), n)
  {
    forall e: nat, g: nat | e <= g
      ensures Magnitude(f, e) <= Magnitude(f, g)
    {
      MagnitudeMonotone(f, e, g);
    }
    NumbersAre(f, 0);
    hide Magnitude;
    match mode
    case Up => UpMeans(f, x, negative, n);
    case Down => DownMeans(f, x, negative, n);
    case ToZero => ToZeroMeans(f, x, negative, n);
    case _ =>
      forall s: bool, e: nat
        ensures Nearer(f, mode, x, SignedNumber(f, negative, n), n, s, e)
      {
        NearestMeans(f, mode, x, negative, n, s, e);
      }
  }

  lemma NearestMeans(f: Format, mode: Mode, x: real, negative: bool, n: nat, s: bool, e: nat)
    requires (x < 0.0 ==> negative) && (x > 0.0 ==> !negative) && Magnitude(f, 0) == 0
    requires mode == NearestEven || mode == TiesAway
    requires IsRoundingOf(f, mode, negative, if x < 0.0 then -x else x, n)
    requires forall e: nat, g: nat :: e <= g ==> Magnitude(f, e) <= Magnitude(f, g)
    ensures Nearer(f, mode, x, SignedNumber(f, negative, n), n, s, e)
  {
    hide Magnitude;
    var m := if x < 0.0 then -x else x;
    assert Gap(SignedNumber(f, negative, n), x) == Distance(f, n, m);
    assert s == negative ==> Gap(SignedNumber(f, s, e), x) == Distance(f, e, m);
    assert n != 0 ==> Distance(f, n, m) <= Distance(f, 0, m);
    assert Distance(f, 0, m) == m && (s != negative ==> Gap(SignedNumber(f, s, e), x) == m + Magnitude(f, e) as real);
  }

  lemma ToZeroMeans(f: Format, x: real, negative: bool, n: nat)
    requires IsRoundingOf(f, ToZero, negative, if x < 0.0 then -x else x, n)
    requires forall e: nat, g: nat :: e <= g ==> Magnitude(f, e) <= Magnitude(f, g)
    ensures Selects(f, ToZero, x, SignedNumber(f, negative, n), n)
  {
    hide Magnitude;
  }

  ghost predicate Selects(f: Format, mode: Mode, x: real, v: int, n: nat) {
    match mode
    case Up =>
      v as real >= x && forall s: bool, e: nat :: SignedNumber(f, s, e) as real >= x ==> v <= SignedNumber(f, s, e)
    case Down =>
      v as real <= x && forall s: bool, e: nat :: SignedNumber(f, s, e) as real <= x ==> SignedNumber(f, s, e) <= v
    case ToZero =>
      var m := if x < 0.0 then -x else x;
      && Magnitude(f, n) as real <= m
      && forall e: nat :: Magnitude(f, e) as real <= m ==> Magnitude(f, e) <= Magnitude(f, n)
    case _ => forall s: bool, e: nat :: Nearer(f, mode, x, v, n, s, e)
  }

  /** No number is nearer to x than the selected one. */
  ghost predicate Nearer(f: Format, mode: Mode, x: real, v: int, n: nat, s: bool, e: nat) {
    var w := SignedNumber(f, s, e);
    && Gap(v, x) <= Gap(w, x)
    && (Gap(v, x) == Gap(w, x) ==> if mode == NearestEven then w != v ==> n % 2 == 0 else Magnitude(f, e) <= Magnitude(f, n))
  }

  lemma UpMeans(f: Format, x: real, negative: bool, n: nat)
    requires (x < 0.0 ==> negative) && (x > 0.0 ==> !negative) && Magnitude(f, 0) == 0
    requires IsRoundingOf(f, Up, negative, if x < 0.0 then -x else x, n)
    requires forall e: nat, g: nat :: e <= g ==> Magnitude(f, e) <= Magnitude(f, g)
    ensures Selects(f, Up, x, SignedNumber(f, negative, n), n)
  {
    hide Magnitude;
    var v, m := SignedNumber(f, negative, n), if x < 0.0 then -x else x;
    assert Magnitude(f, 0) as real <= m;
    forall s: bool, e: nat | SignedNumber(f, s, e) as real >= x
      ensures v <= SignedNumber(f, s, e)
    {
      if negative && s {
        assert Magnitude(f, e) as real <= m;
      } else if !negative {
        assert Magnitude(f, e) as real >= m;
      }
    }
  }

  lemma DownMeans(f: Format, x: real, negative: bool, n: nat)
    requires (x < 0.0 ==> negative) && (x > 0.0 ==> !negative) && Magnitude(f, 0) == 0
    requires IsRoundingOf(f, Down, negative, if x < 0.0 then -x else x, n)
    requires forall e: nat, g: nat :: e <= g ==> Magnitude(f, e) <= Magnitude(f, g)
    ensures Selects(f, Down, x, SignedNumber(f, negative, n), n)
  {
    hide Magnitude;
    var v, m := SignedNumber(f, negative, n), if x < 0.0 then -x else x;
    assert Magnitude(f, 0) as real <= m;
    forall s: bool, e: nat | SignedNumber(f, s, e) as real <= x
      ensures SignedNumber(f, s, e) <= v
    {
      if !negative && !s {
        assert Magnitude(f, e) as real <= m;
      } else if negative {
        assert Magnitude(f, e) as real >= m;
      }
    }
  }

  /** Section 7.5: an inexact result below the normal numbers, either before rounding or, with the exponent range
      unbounded, after it. */
  ghost predicate Underflows(f: Format, c: Control, negative: bool, m: real) {
    && 0.0 < m < f.Hidden() as real
    && (c.tininess == BeforeRounding
        || forall k: nat :: IsRoundingOf(f, c.mode, negative, 2.0 * m, k) ==> Magnitude(f, k) < 2 * f.Hidden())
  }

  /** The result of sign and magnitude m is delivered with its flags, n being the selected encoding. */
  ghost predicate IsDelivery(f: Format, c: Control, negative: bool, m: real, n: nat, z: nat, flags: set<Flag>) {
    var sign := if negative then SignWeight(f) else 0;
    && IsRoundingOf(f, c.mode, negative, m, n)
    && if n >= f.Infinity() then
         && flags == {Overflow, Inexact}
         && z == sign + match c.mode
                        case Up => if negative then f.Infinity() - 1 else f.Infinity()
                        case Down => if negative then f.Infinity() else f.Infinity() - 1
                        case ToZero => f.Infinity() - 1
                        case _ => f.Infinity()
       else
         && z == sign + n && flags <= {Inexact, Underflow}
         && (Inexact in flags <==> Magnitude(f, n) as real != m)
         && (Underflow in flags <==> Magnitude(f, n) as real != m && Underflows(f, c, negative, m))
  }

  /** z and the flags are those of the exact value x, in units, rounded once. */
  ghost predicate IsCorrect(f: Format, c: Control, x: real, negativeZero: bool, z: nat, flags: set<Flag>) {
    var negative := if x == 0.0 then negativeZero else x < 0.0;
    var m := if x < 0.0 then -x else x;
    if c.flushToZero && 0.0 < m < f.Hidden() as real
    then z == (if negative then SignWeight(f) else 0) && flags == {OutputDenormal}
    else exists n: nat :: IsDelivery(f, c, negative, m, n, z, flags)
  }

  /** Twice a magnitude below the normal numbers is rounded to an integer. */
  lemma TwiceRounded(f: Format, mode: Mode, negative: bool, m: real)
    requires 0.0 < m < f.Hidden() as real
    ensures var x := 2.0 * m; var n := RoundedEncoding(f, mode, negative, x);
      n == RoundInt(mode, negative, x) && Magnitude(f, n) == n
  {
    var x := 2.0 * m;
    RoundIntBounds(mode, negative, x);
    assert Scale(x, 0) == x;
    QuantumOfScaled(f, x, 0);
    OnlyExponent(f, RoundInt(mode, negative, x));
    hide RoundInt, Magnitude, Scale, Mantissa, Quantum, Encode;
    NumbersAre(f, RoundedEncoding(f, mode, negative, x));
  }

  lemma TinyAfterRounding(f: Format, mode: Mode, negative: bool, m: real)
    requires 0.0 < m < f.Hidden() as real
    ensures RoundInt(mode, negative, 2.0 * m) < 2 * f.Hidden()
       <==> forall k: nat :: IsRoundingOf(f, mode, negative, 2.0 * m, k) ==> Magnitude(f, k) < 2 * f.Hidden()
  {
    hide *;
    TwiceRounded(f, mode, negative, m);
    RoundedEncodingIsCorrect(f, mode, negative, 2.0 * m);
    OnlyOne(f, mode, negative, 2.0 * m);
    BelowForAll(f, mode, negative, 2.0 * m, RoundedEncoding(f, mode, negative, 2.0 * m), 2 * f.Hidden());
  }

  lemma BelowForAll(f: Format, mode: Mode, negative: bool, x: real, n: nat, limit: nat)
    requires IsRoundingOf(f, mode, negative, x, n) && forall k: nat :: IsRoundingOf(f, mode, negative, x, k) ==> k == n
    ensures Magnitude(f, n) < limit
       <==> forall k: nat :: IsRoundingOf(f, mode, negative, x, k) ==> Magnitude(f, k) < limit
  {
    hide *;
  }

  lemma OnlyOne(f: Format, mode: Mode, negative: bool, x: real)
    requires x >= 0.0
    ensures forall k: nat :: IsRoundingOf(f, mode, negative, x, k) ==> k == RoundedEncoding(f, mode, negative, x)
  {
    hide RoundedEncoding;
    forall k: nat | IsRoundingOf(f, mode, negative, x, k)
      ensures k == RoundedEncoding(f, mode, negative, x)
    {
      RoundingIsUnique(f, mode, negative, x, k);
    }
  }

  lemma UnderflowsIs(f: Format, c: Control, negative: bool, m: real)
    ensures Underflows(f, c, negative, m) <==> Tiny(f, c.mode, c.tininess, negative, m)
  {
    if 0.0 < m < f.Hidden() as real {
      TinyAfterRounding(f, c.mode, negative, m);
    }
    hide IsRoundingOf, RoundInt, Magnitude;
  }

  lemma SignIs(f: Format, negative: bool, e: nat)
    ensures Signed(f, negative, e) == (if negative then SignWeight(f) else 0) + e
  {
  }

  lemma RoundIsDelivery(f: Format, c: Control, negative: bool, m: real)
    requires m >= 0.0
    ensures var r := Round(f, c.mode, c.tininess, negative, m);
      IsDelivery(f, c, negative, m, RoundedEncoding(f, c.mode, negative, m), Signed(f, negative, r.encoding), r.flags)
  {
    RoundedEncodingIsCorrect(f, c.mode, negative, m);
    UnderflowsIs(f, c, negative, m);
    SignIs(f, negative, Round(f, c.mode, c.tininess, negative, m).encoding);
    hide RoundedEncoding, Magnitude, IsRoundingOf, RoundInt, Format.Hidden, Format.Infinity, Tiny, Underflows, Signed;
  }

  /** Round and Deliver raise underflow exactly for inexact results that are tiny in the configured way. */
  lemma UnderflowLaw(f: Format, c: Control, negative: bool, m: real, n: nat)
    requires m >= 0.0 && IsRoundingOf(f, c.mode, negative, m, n)
    ensures Underflow in Round(f, c.mode, c.tininess, negative, m).flags
       <==> Magnitude(f, n) as real != m && Underflows(f, c, negative, m)
    ensures Underflow in Deliver(f, c, negative, m).flags
       <==> Magnitude(f, n) as real != m && Underflows(f, c, negative, m) && !c.flushToZero
  {
    RoundIsDelivery(f, c, negative, m);
    RoundingIsUnique(f, c.mode, negative, m, n);
    if 0.0 < m < f.Hidden() as real {
      BelowInfinity(f, c.mode, negative, m, n);
    }
    hide Round, IsRoundingOf, RoundedEncoding, Magnitude, Signed, Format.Hidden, Format.Infinity;
  }

  lemma BelowInfinity(f: Format, mode: Mode, negative: bool, m: real, n: nat)
    requires 0.0 < m < f.Hidden() as real && IsRoundingOf(f, mode, negative, m, n)
    ensures n < f.Infinity()
  {
    var h := f.Hidden();
    NumbersAre(f, h);
    if n > h {
      MagnitudeMonotone(f, h, n);
    }
    hide Magnitude;
    if n > h && (mode == NearestEven || mode == TiesAway) {
      assert Distance(f, n, m) <= Distance(f, h, m);
    }
  }

  lemma DeliveryIsCorrect(f: Format, c: Control, x: real, negativeZero: bool, n: nat, z: nat, flags: set<Flag>)
    requires var negative, m := (if x == 0.0 then negativeZero else x < 0.0), if x < 0.0 then -x else x;
      !(c.flushToZero && 0.0 < m < f.Hidden() as real) && IsDelivery(f, c, negative, m, n, z, flags)
    ensures IsCorrect(f, c, x, negativeZero, z, flags)
  {
    var negative, m := (if x == 0.0 then negativeZero else x < 0.0), if x < 0.0 then -x else x;
    assert IsDelivery(f, c, negative, m, n, z, flags);
  }

  /** What Finite delivers, and so the flags of the routines, underflow among them. */
  lemma FiniteIsCorrect(f: Format, c: Control, x: real, negativeZero: bool)
    ensures var negative, m := (if x == 0.0 then negativeZero else x < 0.0), if x < 0.0 then -x else x;
      var o := Finite(f, c, negative, m);
      IsCorrect(f, c, x, negativeZero, o.bits, o.flags)
  {
    var negative, m := (if x == 0.0 then negativeZero else x < 0.0), if x < 0.0 then -x else x;
    RoundIsDelivery(f, c, negative, m);
    SignIs(f, negative, 0);
    if !(c.flushToZero && 0.0 < m < f.Hidden() as real) {
      var o := Finite(f, c, negative, m);
      DeliveryIsCorrect(f, c, x, negativeZero, RoundedEncoding(f, c.mode, negative, m), o.bits, o.flags);
    }
    hide Round, RoundedEncoding, Signed, IsDelivery;
  }

  // ---------------------------------------------------------------- products and quotients

  lemma {:induction false} ScaleIsProduct(y: real, k: nat)
    ensures Scale(y, k) == y * Pow2(k) as real
  {
    if k > 0 {
      ScaleIsProduct(y, k - 1);
      DoubledProduct(y, Pow2(k - 1));
    }
  }

  lemma DoubledProduct(y: real, p: nat)
    ensures 2.0 * (y * p as real) == y * (2 * p) as real
  {
    assert (2 * p) as real == 2.0 * p as real;
  }

  lemma CancelReal(x: real, y: real, p: real)
    requires p > 0.0 && x * p == y * p
    ensures x == y
  {
    assert (x - y) * p == x * p - y * p;
  }

  /** The magnitude and the sign of a product of signed values, divided by something positive. */
  lemma SignedProduct(u: nat, v: nat, s: bool, t: bool, a: int, b: int, x: real, p: int, m: real)
    requires p > 0 && m >= 0.0 && m * p as real == Times(u, v) as real
    requires a == (if s then 0 - u else u) && b == if t then 0 - v else v
    requires x * p as real == (a * b) as real
    ensures x == if s != t then -m else m
  {
    assert a * b == (if s != t then 0 - u * v else u * v);
    assert (-m) * p as real == -(m * p as real);
    CancelReal(x, if s != t then -m else m, p as real);
  }

  lemma AmountIs(f: Format, a: nat)
    ensures Amount(f, a) == if a >= SignWeight(f) then 0 - Units(f, a) else Units(f, a)
  {
    hide Units;
  }

  lemma SignOf(f: Format, a: nat)
    ensures Negative(f, a) <==> a >= SignWeight(f)
  {
  }

  /** The product of two finite numbers is the exact product rounded once: x is A * B, One being the unit. */
  lemma MulLaw(c: Control, a: nat, b: nat, x: real)
    requires IsFinite(Double, a) && IsFinite(Double, b)
    requires x * Amount(Double, One(Double)) as real == (Amount(Double, a) * Amount(Double, b)) as real
    ensures var r := MulOutcome(c, a, b);
      IsCorrect(Double, c, x, (a >= SignWeight(Double)) != (b >= SignWeight(Double)), r.bits, r.flags)
  {
    hide *;
    ExactProduct(a, b, x);
    MulIs(c, a, b);
    var negative := (a >= SignWeight(Double)) != (b >= SignWeight(Double));
    ZeroOrSigned(x, negative, Product(a, b));
    FiniteIsCorrect(Double, c, x, negative);
  }

  lemma MulIs(c: Control, a: nat, b: nat)
    requires IsFinite(Double, a) && IsFinite(Double, b)
    ensures MulOutcome(c, a, b) == Finite(Double, c, (a >= SignWeight(Double)) != (b >= SignWeight(Double)), Product(a, b))
  {
    SignOf(Double, a);
    SignOf(Double, b);
    FiniteIsNumber(a);
    FiniteIsNumber(b);
    hide Product, Finite, IsNaN, IsInfinite, IsFinite, IsZero, Negative;
  }

  lemma ExactProduct(a: nat, b: nat, x: real)
    requires x * Amount(Double, One(Double)) as real == (Amount(Double, a) * Amount(Double, b)) as real
    ensures x == if (a >= SignWeight(Double)) != (b >= SignWeight(Double)) then -Product(a, b) else Product(a, b)
  {
    hide *;
    UnitOfOne(Double);
    ProductInUnits(a, b);
    AmountIs(Double, a);
    AmountIs(Double, b);
    SignedProduct(Units(Double, a), Units(Double, b), a >= SignWeight(Double), b >= SignWeight(Double),
                  Amount(Double, a), Amount(Double, b), x, Amount(Double, One(Double)), Product(a, b));
  }

  lemma ProductInUnits(a: nat, b: nat)
    ensures Product(a, b) * Pow2(1074) as real == Times(Units(Double, a), Units(Double, b)) as real
  {
    var t := Times(Units(Double, a), Units(Double, b)) as real;
    ScaleAdd(t, -1074, 1074);
    assert Scale(t, 0) == t;
    ScaleIsProduct(Product(a, b), 1074);
    hide Scale, Pow2, Units, Times;
  }

  lemma FiniteIsNumber(a: nat)
    requires IsFinite(Double, a)
    ensures !IsNaN(Double, a) && !IsInfinite(Double, a)
  {
  }

  /** The sign that goes with a magnitude is that of the signed value, or of the zero. */
  lemma ZeroOrSigned(x: real, negative: bool, m: real)
    requires m >= 0.0 && x == if negative then -m else m
    ensures m == (if x < 0.0 then -x else x) && negative == if x == 0.0 then negative else x < 0.0
  {
  }

  lemma DivLaw(c: Control, a: nat, b: nat, x: real)
    requires IsFinite(Double, a) && IsFinite(Double, b) && !IsZero(Double, b)
    requires x * Amount(Double, b) as real == (Amount(Double, a) * Amount(Double, One(Double))) as real
    ensures var r := DivOutcome(c, a, b);
      IsCorrect(Double, c, x, (a >= SignWeight(Double)) != (b >= SignWeight(Double)), r.bits, r.flags)
  {
    hide *;
    UnitsPositive(b);
    ExactQuotient(a, b, x);
    DivIs(c, a, b);
    var negative := (a >= SignWeight(Double)) != (b >= SignWeight(Double));
    ZeroOrSigned(x, negative, Float64Div.Quotient(a, b));
    FiniteIsCorrect(Double, c, x, negative);
  }

  lemma DivIs(c: Control, a: nat, b: nat)
    requires IsFinite(Double, a) && IsFinite(Double, b) && !IsZero(Double, b) && Units(Double, b) > 0
    ensures DivOutcome(c, a, b)
         == Finite(Double, c, (a >= SignWeight(Double)) != (b >= SignWeight(Double)), Float64Div.Quotient(a, b))
  {
    SignOf(Double, a);
    SignOf(Double, b);
    FiniteIsNumber(a);
    FiniteIsNumber(b);
    hide Float64Div.Quotient, Finite, IsNaN, IsInfinite, IsFinite, IsZero, Negative, Units;
  }

  lemma ExactQuotient(a: nat, b: nat, x: real)
    requires Units(Double, b) > 0
    requires x * Amount(Double, b) as real == (Amount(Double, a) * Amount(Double, One(Double))) as real
    ensures x == if (a >= SignWeight(Double)) != (b >= SignWeight(Double)) then -Float64Div.Quotient(a, b)
                 else Float64Div.Quotient(a, b)
  {
    hide *;
    UnitOfOne(Double);
    QuotientInUnits(a, b);
    AmountIs(Double, a);
    AmountIs(Double, b);
    SignedQuotient(Units(Double, a), Units(Double, b), a >= SignWeight(Double), b >= SignWeight(Double),
                   Amount(Double, a), Amount(Double, b), x, Pow2(1074), Ratio(Units(Double, a), Units(Double, b)),
                   Float64Div.Quotient(a, b));
  }

  lemma QuotientInUnits(a: nat, b: nat)
    requires Units(Double, b) > 0
    ensures Float64Div.Quotient(a, b) == Ratio(Units(Double, a), Units(Double, b)) * Pow2(1074) as real
  {
    ScaleIsProduct(Ratio(Units(Double, a), Units(Double, b)), 1074);
    hide Scale, Pow2, Units, Ratio;
  }

  lemma SignedQuotient(u: nat, v: nat, s: bool, t: bool, a: int, b: int, x: real, p: nat, q: real, m: real)
    requires v > 0 && q * v as real == u as real && m == q * p as real
    requires a == (if s then 0 - u else u) && b == if t then 0 - v else v
    requires x * b as real == (a * p) as real
    ensures x == if s != t then -m else m
  {
    var y, n := (if t then -x else x), if s then -m else m;
    Swapped(x, v, b, t);
    Swapped(m, v, v, false);
    Swapped(if s then -m else m, v, v, false);
    NumeratorIs(u, a, s, p, q, v, m);
    CancelReal(n, y, v as real);
  }

  lemma Swapped(x: real, v: nat, b: int, t: bool)
    requires b == if t then 0 - v else v
    ensures (if t then -x else x) * v as real == x * b as real
  {
  }

  lemma NumeratorIs(u: nat, a: int, s: bool, p: nat, q: real, v: nat, m: real)
    requires q * v as real == u as real && m == q * p as real && a == if s then 0 - u else u
    ensures (if s then -m else m) * v as real == (a * p) as real
  {
    assert m * v as real == (q * v as real) * p as real;
    assert (u * p) as real == u as real * p as real;
    assert a * p == if s then 0 - u * p else u * p;
  }

  /** Infinities and zeros: signs multiply, and what has no value is the default NaN with the invalid flag. */
  lemma SpecialProducts(c: Control, a: nat, b: nat)
    requires !IsNaN(Double, a) && !IsNaN(Double, b) && (IsInfinite(Double, a) || IsInfinite(Double, b))
    ensures MulOutcome(c, a, b) ==
      if IsZero(Double, a) || IsZero(Double, b) then Outcome(0x7FF8_0000_0000_0000, {Invalid})
      else Outcome((if (a >= SignWeight(Double)) != (b >= SignWeight(Double)) then SignWeight(Double) else 0)
                   + 0x7FF0_0000_0000_0000, {})
  {
  }

  lemma SpecialQuotients(c: Control, a: nat, b: nat)
    requires !IsNaN(Double, a) && !IsNaN(Double, b)
    requires IsInfinite(Double, a) || IsInfinite(Double, b) || IsZero(Double, b)
    ensures var sign := if (a >= SignWeight(Double)) != (b >= SignWeight(Double)) then SignWeight(Double) else 0;
      DivOutcome(c, a, b) ==
      if (IsInfinite(Double, a) && IsInfinite(Double, b)) || (IsZero(Double, a) && IsZero(Double, b))
      then Outcome(0x7FF8_0000_0000_0000, {Invalid})
      else if IsInfinite(Double, b) then Outcome(sign, {})
      else Outcome(sign + 0x7FF0_0000_0000_0000, if IsInfinite(Double, a) then {} else {DivByZero})
  {
  }

  // ---------------------------------------------------------------- sums

  /** The operands are both below the normal numbers and of one sign, and results are flushed. */
  predicate AddsSubnormals(c: Control, a: nat, b: nat, subtract: bool) {
    && c.flushToZero && (a >= SignWeight(Double)) == ((b >= SignWeight(Double)) != subtract)
    && Units(Double, a) < Double.Hidden() && Units(Double, b) < Double.Hidden()
  }

  /** The sum, or the difference, of two finite numbers, except for subnormals that are flushed before they are added. */
  lemma SumLaw(c: Control, a: nat, b: nat, subtract: bool)
    requires a < Double.Word() && b < Double.Word()
    requires IsFinite(Double, a) && IsFinite(Double, b) && !AddsSubnormals(c, a, b, subtract)
    ensures var x := Amount(Double, a) + if subtract then 0 - Amount(Double, b) else Amount(Double, b);
      var s, t := a >= SignWeight(Double), (b >= SignWeight(Double)) != subtract;
      var r := Float64Add.SumOutcome(c, a, b, subtract);
      IsCorrect(Double, c, x as real, if s == t then s else c.mode == Down, r.bits, r.flags)
  {
    hide *;
    var x := Amount(Double, a) + if subtract then 0 - Amount(Double, b) else Amount(Double, b);
    var s, t := a >= SignWeight(Double), (b >= SignWeight(Double)) != subtract;
    FlushedIfSubnormal(c, a, b, subtract);
    SumIs(c, a, b, subtract, x);
    FiniteIsCorrect(Double, c, x as real, if s == t then s else c.mode == Down);
  }

  lemma FlushedIfSubnormal(c: Control, a: nat, b: nat, subtract: bool)
    requires a < Double.Word() && b < Double.Word() && IsFinite(Double, a) && IsFinite(Double, b)
    ensures AddsSubnormals(c, a, b, subtract) <==> Float64Add.FlushesSum(c, a, b, subtract)
  {
    SignOf(Double, a);
    SignOf(Double, b);
    BelowNormal(Double, a);
    BelowNormal(Double, b);
    hide Units, Exp, Negative, IsFinite;
  }

  lemma BelowNormal(f: Format, a: nat)
    requires a < f.Word() && IsFinite(f, a)
    ensures Units(f, a) < f.Hidden() <==> Exp(f, a) == 0
    ensures Units(f, a) == 0 <==> IsZero(f, a)
  {
    Classes(f, a);
    NumbersAre(f, Encoding(f, a));
    if Encoding(f, a) >= f.Hidden() {
      MagnitudeMonotone(f, f.Hidden(), Encoding(f, a));
      NumbersAre(f, f.Hidden());
    }
    hide Magnitude, IsFinite;
    match f
    case Single =>
    case Double =>
  }

  /** Such a sum is a zero of that sign. */
  lemma FlushedSumLaw(c: Control, a: nat, b: nat, subtract: bool)
    requires a < Double.Word() && b < Double.Word()
    requires IsFinite(Double, a) && IsFinite(Double, b) && AddsSubnormals(c, a, b, subtract)
    ensures Float64Add.SumOutcome(c, a, b, subtract)
         == Outcome(if a >= SignWeight(Double) then SignWeight(Double) else 0,
                    if Amount(Double, a) == 0 == Amount(Double, b) then {} else {OutputDenormal})
  {
    FlushedIfSubnormal(c, a, b, subtract);
    BelowNormal(Double, a);
    BelowNormal(Double, b);
    FiniteIsNumber(a);
    FiniteIsNumber(b);
    SignOf(Double, a);
    SignIs(Double, a >= SignWeight(Double), 0);
    hide Units, Finite, IsNaN, IsInfinite, IsFinite, Exp, Negative, Signed, AddsSubnormals, IsZero;
  }

  lemma SumIs(c: Control, a: nat, b: nat, subtract: bool, x: int)
    requires IsFinite(Double, a) && IsFinite(Double, b) && !Float64Add.FlushesSum(c, a, b, subtract)
    requires x == Amount(Double, a) + if subtract then 0 - Amount(Double, b) else Amount(Double, b)
    ensures var s, t, y := a >= SignWeight(Double), (b >= SignWeight(Double)) != subtract, x as real;
      var z := if s == t then s else c.mode == Down;
      Float64Add.SumOutcome(c, a, b, subtract)
      == Finite(Double, c, if y == 0.0 then z else y < 0.0, if y < 0.0 then -y else y)
  {
    SignOf(Double, a);
    SignOf(Double, b);
    ExactSumIs(a, b, subtract);
    FiniteIsNumber(a);
    FiniteIsNumber(b);
    hide Units, Finite, IsNaN, IsInfinite, IsFinite, IsZero, Exp, Negative, Amount, Float64Add.ExactSum, Signed;
  }

  lemma ExactSumIs(a: nat, b: nat, subtract: bool)
    ensures Float64Add.ExactSum(a, b, subtract)
         == Amount(Double, a) + if subtract then 0 - Amount(Double, b) else Amount(Double, b)
  {
    SignOf(Double, a);
    SignOf(Double, b);
    hide Units, Negative;
  }

  lemma SpecialSums(c: Control, a: nat, b: nat, subtract: bool)
    requires !IsNaN(Double, a) && !IsNaN(Double, b) && (IsInfinite(Double, a) || IsInfinite(Double, b))
    ensures var s, t := a >= SignWeight(Double), (b >= SignWeight(Double)) != subtract;
      Float64Add.SumOutcome(c, a, b, subtract) ==
      if IsInfinite(Double, a) && IsInfinite(Double, b) && s != t then Outcome(0x7FF8_0000_0000_0000, {Invalid})
      else Outcome((if (if IsInfinite(Double, a) then s else t) then SignWeight(Double) else 0)
                   + 0x7FF0_0000_0000_0000, {})
  {
  }

  // ---------------------------------------------------------------- a * b + c

  lemma ProductInSingleUnits(a: nat, b: nat)
    ensures Float32MulAdd.ProductUnits(a, b) >= 0.0
    ensures Float32MulAdd.ProductUnits(a, b) * Pow2(149) as real == Times(Units(Single, a), Units(Single, b)) as real
  {
    hide *;
    ProductUnitsIs(a, b);
    ScaleBack(Times(Units(Single, a), Units(Single, b)) as real, 149);
  }

  lemma ProductUnitsIs(a: nat, b: nat)
    ensures Float32MulAdd.ProductUnits(a, b) == Scale(Times(Units(Single, a), Units(Single, b)) as real, 0 - 149)
  {
    hide Scale, Units, Times;
  }

  lemma ScaleBack(t: real, k: nat)
    requires t >= 0.0
    ensures Scale(t, 0 - k) >= 0.0 && Scale(t, 0 - k) * Pow2(k) as real == t
  {
    ScaleAdd(t, 0 - k, k);
    assert Scale(t, 0) == t;
    hide Scale, Pow2;
    ScaleIsProduct(Scale(t, 0 - k), k);
    if Scale(t, 0 - k) < 0.0 {
      assert false;
    }
  }

  lemma ExactSingleProduct(a: nat, b: nat, p: real)
    requires p * Amount(Single, One(Single)) as real == (Amount(Single, a) * Amount(Single, b)) as real
    ensures p == Float32MulAdd.WithSign((a >= SignWeight(Single)) != (b >= SignWeight(Single)),
                                        Float32MulAdd.ProductUnits(a, b))
  {
    hide *;
    UnitOfOne(Single);
    ProductInSingleUnits(a, b);
    AmountIs(Single, a);
    AmountIs(Single, b);
    SignedProduct(Units(Single, a), Units(Single, b), a >= SignWeight(Single), b >= SignWeight(Single),
                  Amount(Single, a), Amount(Single, b), p, Amount(Single, One(Single)), Float32MulAdd.ProductUnits(a, b));
    WithSignIs((a >= SignWeight(Single)) != (b >= SignWeight(Single)), Float32MulAdd.ProductUnits(a, b));
  }

  lemma WithSignIs(negative: bool, x: real)
    ensures Float32MulAdd.WithSign(negative, x) == if negative then -x else x
  {
  }

  /**
   The exact product p of a and b plus or minus c, both with the signs that the options ask for, rounded once; the
   result may be negated and halved.  A zero sum has the sign of its terms if they agree, and otherwise that of
   the mode.
   */
  lemma MulAddLaw(ctl: Control, a: nat, b: nat, c: nat, o: Float32MulAdd.Options, p: real, x: real)
    requires IsFinite(Single, a) && IsFinite(Single, b) && IsFinite(Single, c)
    requires p * Amount(Single, One(Single)) as real == (Amount(Single, a) * Amount(Single, b)) as real
    requires x == (if o.negateProduct then -p else p)
                  + if o.negateC then -(Amount(Single, c) as real) else Amount(Single, c) as real
    ensures var w := SignWeight(Single);
      var s, t := ((a >= w) != (b >= w)) != o.negateProduct, (c >= w) != o.negateC;
      var y := (if o.negateResult then -x else x) / if o.halveResult then 2.0 else 1.0;
      var r := Float32MulAdd.MulAddOutcome(ctl, a, b, c, o);
      IsCorrect(Single, ctl, y, (if s == t then s else ctl.mode == Down) != o.negateResult, r.bits, r.flags)
  {
    hide *;
    var w := SignWeight(Single);
    var s, t := ((a >= w) != (b >= w)) != o.negateProduct, (c >= w) != o.negateC;
    var y := (if o.negateResult then -x else x) / if o.halveResult then 2.0 else 1.0;
    var zero := if s == t then s else ctl.mode == Down;
    ExactSingleProduct(a, b, p);
    AmountIs(Single, c);
    WithSignIs((a >= w) != (b >= w), Float32MulAdd.ProductUnits(a, b));
    WithSignIs(s, Float32MulAdd.ProductUnits(a, b));
    WithSignIs(t, Units(Single, c) as real);
    MulAddIs(ctl, a, b, c, o);
    SumOutcomeIs(ctl, s, t, x, o.negateResult, o.halveResult, y);
    FiniteIsCorrect(Single, ctl, y, zero != o.negateResult);
  }

  lemma MulAddIs(ctl: Control, a: nat, b: nat, c: nat, o: Float32MulAdd.Options)
    requires IsFinite(Single, a) && IsFinite(Single, b) && IsFinite(Single, c)
    ensures var w := SignWeight(Single);
      var s, t := ((a >= w) != (b >= w)) != o.negateProduct, (c >= w) != o.negateC;
      var x := Float32MulAdd.WithSign(s, Float32MulAdd.ProductUnits(a, b))
               + Float32MulAdd.WithSign(t, Units(Single, c) as real);
      Float32MulAdd.MulAddOutcome(ctl, a, b, c, o)
      == Float32MulAdd.SumOutcome(ctl, s, t, x, o.negateResult, o.halveResult)
  {
    SignOf(Single, a);
    SignOf(Single, b);
    SignOf(Single, c);
    hide Units, Float32MulAdd.ProductUnits, Float32MulAdd.SumOutcome, Negative;
  }

  lemma SumOutcomeIs(ctl: Control, s: bool, t: bool, x: real, flip: bool, halve: bool, y: real)
    requires y == (if flip then -x else x) / if halve then 2.0 else 1.0
    ensures var zero := (if s == t then s else ctl.mode == Down) != flip;
      Float32MulAdd.SumOutcome(ctl, s, t, x, flip, halve)
      == Finite(Single, ctl, if y == 0.0 then zero else y < 0.0, if y < 0.0 then -y else y)
  {
    hide Finite;
  }

  lemma SpecialMulAdds(ctl: Control, a: nat, b: nat, c: nat, o: Float32MulAdd.Options)
    requires !IsNaN(Single, a) && !IsNaN(Single, b) && !IsNaN(Single, c)
    requires IsInfinite(Single, a) || IsInfinite(Single, b) || IsInfinite(Single, c)
    ensures var w := SignWeight(Single);
      var s, t := ((a >= w) != (b >= w)) != o.negateProduct, (c >= w) != o.negateC;
      var infinite := IsInfinite(Single, a) || IsInfinite(Single, b);
      Float32MulAdd.MulAddOutcome(ctl, a, b, c, o) ==
      if infinite && (IsZero(Single, a) || IsZero(Single, b) || (IsInfinite(Single, c) && s != t))
      then Outcome(0x7FC0_0000, {Invalid})
      else Outcome((if (if infinite then s else t) != o.negateResult then w else 0) + 0x7F80_0000, {})
  {
  }

  /** NaN operands have the outcomes that NaNOfTwo and NaNOfMulAdd describe. */
  lemma NaNOperands(c: Control, a: nat, b: nat, subtract: bool)
    requires IsNaN(Double, a) || IsNaN(Double, b)
    ensures MulOutcome(c, a, b) == DivOutcome(c, a, b) == Float64Add.SumOutcome(c, a, b, subtract)
         == PropagateNaN(Double, c, a, b)
  {
  }

  lemma NaNOfProductAndSum(ctl: Control, a: nat, b: nat, c: nat, o: Float32MulAdd.Options)
    requires IsNaN(Single, a) || IsNaN(Single, b) || IsNaN(Single, c)
    ensures Float32MulAdd.MulAddOutcome(ctl, a, b, c, o)
         == Float32MulAdd.PropagateMulAddNaN(ctl, a, b, c, (IsInfinite(Single, a) && IsZero(Single, b))
                                                           || (IsZero(Single, a) && IsInfinite(Single, b)))
  {
  }

  // ---------------------------------------------------------------- roots and remainders

  /** y has the order with the natural numbers that the square root of n has. */
  ghost predicate IsRootOf(y: real, n: nat) {
    y >= 0.0 && forall t: nat :: (t as real <= y <==> t * t <= n) && (t as real == y <==> t * t == n)
  }

  /** The root of a positive number, in units, is that of its units times the units of one; where it is not a
      number, what is between the same numbers is rounded alike. */
  lemma SqrtLaw(c: Control, a: nat, y: real)
    requires Float32Sqrt.RootLike(y, Float32Sqrt.RootArgument(a))
    ensures Units(Single, a) * Units(Single, One(Single)) >= 0
      && IsRootOf(y, Units(Single, a) * Units(Single, One(Single)))
    ensures var r := Finite(Single, c, false, y); IsCorrect(Single, c, y, false, r.bits, r.flags)
  {
    OneIs(Single, 126);
    var n := Float32Sqrt.RootArgument(a);
    assert n == Units(Single, a) * Units(Single, One(Single));
    hide Pow2, Units, IsCorrect, Finite;
    forall t: nat
      ensures (t as real <= y <==> t * t <= n) && (t as real == y <==> t * t == n)
    {
      Float32Sqrt.RootOrder(y, n, t);
    }
    FiniteIsCorrect(Single, c, y, false);
  }

  /**
   The remainder r is a - b * n for an integer n, at most half of b in magnitude, with n even at exactly half.
   It is delivered as it is, a zero with the sign of a; if results are flushed to zero, one below the normal numbers
   may be delivered as a zero of its sign.
   */
  lemma RemLaw(c: Control, a: nat, b: nat, e: nat, z: nat, flags: set<Flag>) returns (n: int, r: int)
    requires a < Double.Word() && b < Double.Word() && IsFinite(Double, a) && IsFinite(Double, b) && !IsZero(Double, b)
    requires Float64Rem.IsRemOf(a, b, e) && Float64Rem.IsDelivered(c, a, b, e, z, flags)
    ensures r == Amount(Double, a) - n * Amount(Double, b)
    ensures 0 - Units(Double, b) <= 2 * r <= Units(Double, b)
    ensures 2 * r == Units(Double, b) || 2 * r == 0 - Units(Double, b) ==> n % 2 == 0
    ensures var w := SignWeight(Double);
      var negative := if r == 0 then a >= w else r < 0;
      || (Amount(Double, z) == r && (z >= w <==> negative) && flags == {})
      || (c.flushToZero && 0 - Double.Hidden() < r < Double.Hidden()
          && z == (if negative then w else 0) && flags == {OutputDenormal})
  {
    SignOf(Double, a);
    SignOf(Double, e);
    Float64Rem.RemIsFinite(a, b, e);
    Float64Rem.FiniteParts(e);
    BelowNormal(Double, e);
    SignIs(Double, Negative(Double, e), 0);
    var u, v := Units(Double, a), Units(Double, b);
    var d := Float64Rem.SignedInt(Negative(Double, e) != Negative(Double, a), Units(Double, e));
    hide Units, Negative, NormalOperand, IsZero, Signed;
    var k: nat :| Float64Rem.IsRemainderFor(u, v, k, d);
    var s, t := a >= SignWeight(Double), b >= SignWeight(Double);
    n := if s == t then k else 0 - k;
    r := Amount(Double, e);
    SignedMultiple(k, v, s, t, n, Amount(Double, b));
  }

  lemma SignedMultiple(k: nat, v: nat, s: bool, t: bool, n: int, b: int)
    requires n == (if s == t then k else 0 - k) && b == if t then 0 - v else v
    ensures n * b == (if s then 0 - k * v else k * v) && (n % 2 == 0 <==> k % 2 == 0)
  {
  }

  /** Subnormal operands become zeros of their sign if so configured, everything else is left alone. */
  lemma SquashLaw(f: Format, c: Control, a: nat)
    requires a < f.Word()
    ensures var z := Squash(f, c, a);
      if c.flushInputsToZero && IsFinite(f, a) && 0 < Units(f, a) < f.Hidden()
      then z == (if a >= SignWeight(f) then SignWeight(f) else 0) && SquashFlags(f, c, a) == {InputDenormal}
      else z == a && SquashFlags(f, c, a) == {}
  {
    NumbersAre(f, Encoding(f, a));
    if Encoding(f, a) >= f.Hidden() {
      MagnitudeMonotone(f, f.Hidden(), Encoding(f, a));
      NumbersAre(f, f.Hidden());
    }
    hide Magnitude;
  }
}
