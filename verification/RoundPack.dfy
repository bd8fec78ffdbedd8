/** roundAndPackFloat32 and roundAndPackFloat64 refine the rounding specification. */
module RoundPack {
  import opened Arithmetic
  import opened Powers
  import opened Rounding
  import opened Sticky

  /** The settings of a float_status. */
  datatype Control = Control(mode: Mode, tininess: Tininess, flushToZero: bool,
                             flushInputsToZero: bool, defaultNaN: bool)

  /** A float_status: settings that the arithmetic reads and exception flags that it accumulates. */
  class FloatStatus {
    const control: Control
    var flags: set<Flag>

    constructor (control: Control)
      ensures this.control == control && flags == {}
    {
      this.control := control;
      flags := {};
    }
  }

  /** The specified result; with flush_to_zero a magnitude below the normal numbers becomes zero. */
  ghost function Deliver(f: Format, c: Control, negative: bool, x: real): Rounded
    requires x >= 0.0
  {
    if c.flushToZero && 0.0 < x < f.Hidden() as real then Rounded(0, {OutputDenormal})
    else Round(f, c.mode, c.tininess, negative, x)
  }

  function Signed(f: Format, negative: bool, encoding: nat): nat {
    if negative then f.SignBit() + encoding else encoding
  }

  /** packFloat32 and packFloat64: the fields are added in a machine word. */
  function PackFloat(f: Format, zSign: bool, zExp: nat, zSig: nat): nat {
    Wrap(f, (if zSign then f.SignBit() else 0) + zExp * f.Hidden() + zSig)
  }

  function Wrap(f: Format, n: nat): nat {
    match f case Single => n % 0x1_0000_0000 case Double => n % 0x1_0000_0000_0000_0000
  }

  /** `zSig & 0x7F` and `zSig & 0x3FF`. */
  function GuardField(f: Format, zSig: nat): nat {
    match f case Single => zSig % 0x80 case Double => zSig % 0x400
  }

  /** `zSig>>7` and `zSig>>10`. */
  function SigField(f: Format, zSig: nat): nat {
    match f case Single => zSig / 0x80 case Double => zSig / 0x400
  }

  function RoundIncrement(f: Format, mode: Mode, zSign: bool): nat {
    match mode
    case NearestEven => f.Half()
    case TiesAway => f.Half()
    case ToZero => 0
    case Up => if zSign then 0 else f.Guard() - 1
    case Down => if zSign then f.Guard() - 1 else 0
  }

  /** `( zSig + roundIncrement )>>guard`, with the last bit cleared for a tie in nearest-even mode. */
  function RoundedSig(f: Format, mode: Mode, zSign: bool, zSig: nat): nat {
    var z := SigField(f, zSig + RoundIncrement(f, mode, zSign));
    if mode == NearestEven && GuardField(f, zSig) == f.Half() then z - z % 2 else z
  }

  /** A significand stands for y with its guard bits below the binary point. */
  ghost predicate Stands(f: Format, zSig: nat, y: real) {
    Same(zSig as real, y, f.GuardBits() - 1)
  }

  // ---------------------------------------------------------------- rounding a significand

  lemma ScaleDown(f: Format, w: real)
    ensures Scale(w, -(f.GuardBits() - 1)) == if f.Single? then w / 64.0 else w / 512.0
    ensures Scale(w, -f.GuardBits()) == Scale(w, -(f.GuardBits() - 1)) / 2.0
  {
    assert Scale(w, -3) == w / 8.0;
    ScaleAdd(w, -3, -3);
    assert Scale(Scale(w, -3), -3) == w / 64.0;
    ScaleAdd(w, -6, -3);
    assert Scale(Scale(w, -6), -3) == w / 512.0;
    ScaleStep(w, -7);
    ScaleStep(w, -10);
  }

  /** Two values strictly between the same neighbouring multiples of half a unit of last place. */
  lemma StandsInCell(f: Format, zSig: nat, y: real, m: int)
    requires (m * f.Half()) as real < zSig as real < ((m + 1) * f.Half()) as real
    requires (m * f.Half()) as real < y < ((m + 1) * f.Half()) as real
    ensures Stands(f, zSig, y)
  {
    hide Scale, Same, Format.Half;
    CellOfScaled(f, zSig as real, m);
    CellOfScaled(f, y, m);
    CellIsSame(zSig as real, y, f.GuardBits() - 1, m);
  }

  lemma CellOfScaled(f: Format, w: real, m: int)
    requires (m * f.Half()) as real < w < ((m + 1) * f.Half()) as real
    ensures m as real < Scale(w, -(f.GuardBits() - 1)) < (m + 1) as real
  {
    ScaleDown(f, w);
    hide Scale;
    match f
    case Single => assert (m * 64) as real == m as real * 64.0;
    case Double => assert (m * 512) as real == m as real * 512.0;
  }

  /** Everything that the code reads off the integer significand, in terms of y in units of last place. */
  lemma GuardBitsDecide(f: Format, zSig: nat, y: real)
    requires Stands(f, zSig, y) && y >= 0.0
    ensures var q := Scale(y, -f.GuardBits()); var rest := q - q.Floor as real;
      && q.Floor == SigField(f, zSig)
      && (rest == 0.0 <==> GuardField(f, zSig) == 0)
      && (rest < 0.5 <==> GuardField(f, zSig) < f.Half())
      && (rest == 0.5 <==> GuardField(f, zSig) == f.Half())
  {
    ScaleDown(f, y);
    ScaleDown(f, zSig as real);
    hide Scale;
    var t, q := Scale(y, -(f.GuardBits() - 1)), Scale(y, -f.GuardBits());
    FloorOfHalf(t);
    HalfUnits(f, zSig, t.Floor);
    FloorOfRatio(f, zSig);
    hide GuardField, SigField;
    assert t.Floor as real / 2.0 <= q < (t.Floor + 1) as real / 2.0;
  }

  lemma FloorOfRatio(f: Format, n: nat)
    ensures var a := if f.Single? then n as real / 64.0 else n as real / 512.0;
      && a.Floor == n / f.Half()
      && (a == a.Floor as real <==> n % f.Half() == 0)
  {
    match f
    case Single =>
    case Double =>
  }

  lemma HalfUnits(f: Format, zSig: nat, halves: int)
    requires halves == zSig / f.Half()
    ensures SigField(f, zSig) == halves / 2
    ensures GuardField(f, zSig) == 0 <==> halves % 2 == 0 && zSig % f.Half() == 0
    ensures GuardField(f, zSig) < f.Half() <==> halves % 2 == 0
    ensures GuardField(f, zSig) == f.Half() <==> halves % 2 == 1 && zSig % f.Half() == 0
  {
    match f
    case Single =>
    case Double =>
  }

  lemma RoundedSigIsRoundInt(f: Format, mode: Mode, zSign: bool, zSig: nat, y: real)
    requires Stands(f, zSig, y) && y >= 0.0
    ensures RoundInt(mode, zSign, Scale(y, -f.GuardBits())) == RoundedSig(f, mode, zSign, zSig)
    ensures var q := Scale(y, -f.GuardBits());
      q == q.Floor as real <==> GuardField(f, zSig) == 0
  {
    GuardBitsDecide(f, zSig, y);
    IncrementCarries(f, mode, zSign, zSig);
    hide Scale, RoundedSig, GuardField, SigField;
  }

  /** Adding less than one unit of the last place carries at most once. */
  lemma CarryOfSum(f: Format, zSig: nat, increment: nat)
    requires increment < f.Guard()
    ensures SigField(f, zSig + increment)
         == SigField(f, zSig) + (if GuardField(f, zSig) + increment >= f.Guard() then 1 else 0)
  {
    match f
    case Single =>
    case Double =>
  }

  lemma IncrementCarries(f: Format, mode: Mode, zSign: bool, zSig: nat)
    ensures var low, z := GuardField(f, zSig), SigField(f, zSig);
      RoundedSig(f, mode, zSign, zSig) ==
      if low == 0 then z
      else match mode
        case NearestEven => if low < f.Half() || (low == f.Half() && z % 2 == 0) then z else z + 1
        case TiesAway => if low < f.Half() then z else z + 1
        case ToZero => z
        case Up => if zSign then z else z + 1
        case Down => if zSign then z + 1 else z
  {
    hide GuardField, SigField;
    CarryOfSum(f, zSig, RoundIncrement(f, mode, zSign));
    GuardFieldBound(f, zSig);
  }

  lemma GuardFieldBound(f: Format, zSig: nat)
    ensures GuardField(f, zSig) < f.Guard()
  {
  }

  // ---------------------------------------------------------------- the exponent ranges

  ghost predicate Normalized(f: Format, zSig: nat, y: real) {
    f.Normal() <= zSig < f.SignBit() && y >= 0.0 && Stands(f, zSig, y)
  }

  lemma IntegerPart(f: Format, zSig: nat, y: real)
    requires Normalized(f, zSig, y)
    ensures f.Hidden() as real <= Scale(y, -f.GuardBits()) < (2 * f.Hidden()) as real
  {
    GuardBitsDecide(f, zSig, y);
    hide Scale, Same;
    assert f.Hidden() <= SigField(f, zSig) < 2 * f.Hidden() by {
      match f case Single => case Double =>
    }
  }

  /** At or above the smallest normal number zExp is the exponent of the spacing. */
  lemma NormalRange(f: Format, mode: Mode, zSign: bool, zExp: nat, zSig: nat, y: real)
    requires Normalized(f, zSig, y)
    ensures var x, n := Scale(y, zExp - f.GuardBits()), Encode(f, zExp, RoundedSig(f, mode, zSign, zSig));
      && x >= f.Hidden() as real
      && RoundedEncoding(f, mode, zSign, x) == n
      && (Magnitude(f, n) as real == x <==> GuardField(f, zSig) == 0)
  {
    var q := Scale(y, -f.GuardBits());
    IntegerPart(f, zSig, y);
    RoundedSigIsRoundInt(f, mode, zSign, zSig, y);
    ScaleAdd(y, -f.GuardBits(), zExp);
    QuantumOfScaled(f, q, zExp);
    ScaleMonotone(q, 0, zExp);
    ExactIffInteger(f, mode, zSign, Scale(q, zExp));
    hide Scale, Quantum, Magnitude, RoundInt, RoundedSig, Mantissa;
  }

  /** A significand that is shifted further right still stands for the shifted value. */
  lemma ShiftedStands(f: Format, zSig: nat, y: real, count: nat)
    requires zSig < f.Word() && f.Word() == Pow2(f.Width()) && Stands(f, zSig, y)
    ensures Stands(f, ShiftRightJam(f.Width(), zSig, count), Scale(y, -(count as int)))
  {
    var g, e: int := f.GuardBits() - 1, -(count as int);
    SameScaled(zSig as real, y, g, e);
    SameCoarser(Scale(zSig as real, e), Scale(y, e), g + e, g);
    JamIsSame(ShiftRightJam(f.Width(), zSig, count), Scale(zSig as real, e), g);
  }

  /** Below the smallest normal number the spacing is one unit. */
  lemma SubnormalRange(f: Format, mode: Mode, zSign: bool, zSig: nat, y: real)
    requires y >= 0.0 && Stands(f, zSig, y) && Scale(y, -f.GuardBits()) < f.Hidden() as real
    ensures var x, n := Scale(y, -f.GuardBits()), RoundedSig(f, mode, zSign, zSig);
      && x >= 0.0 && n <= f.Hidden()
      && RoundedEncoding(f, mode, zSign, x) == n
      && (Magnitude(f, n) as real == x <==> GuardField(f, zSig) == 0)
  {
    var q := Scale(y, -f.GuardBits());
    ScaleMonotone(y, -f.GuardBits(), 0);
    assert Scale(q, 0) == q;
    RoundedSigIsRoundInt(f, mode, zSign, zSig, y);
    QuantumOfScaled(f, q, 0);
    ExactIffInteger(f, mode, zSign, q);
    hide Scale, Quantum, Magnitude, RoundedSig, Mantissa;
    RoundIntBounds(mode, zSign, q);
  }

  /** The code's test for tininess. */
  predicate IsTiny(f: Format, c: Control, zSign: bool, zExp: int, zSig: nat) {
    c.tininess == BeforeRounding || zExp < -1 || zSig + RoundIncrement(f, c.mode, zSign) < f.SignBit()
  }

  lemma TinyTest(f: Format, c: Control, zSign: bool, zExp: int, zSig: nat, y: real)
    requires Normalized(f, zSig, y) && zExp < 0
    ensures var x := Scale(y, zExp - f.GuardBits());
      && 0.0 < x < f.Hidden() as real
      && (Tiny(f, c.mode, c.tininess, zSign, x) <==> IsTiny(f, c, zSign, zExp, zSig))
  {
    var q := Scale(y, -f.GuardBits());
    IntegerPart(f, zSig, y);
    ScaleAdd(y, -f.GuardBits(), zExp);
    ScaleMonotone(q, zExp, -1);
    ScaleOrder(0.0, q, zExp);
    ScaleZero(zExp);
    assert Scale(q, -1) == q / 2.0;
    RoundedSigIsRoundInt(f, c.mode, zSign, zSig, y);
    if zExp < -1 {
      ScaleMonotone(q, zExp, -2);
      assert Scale(q, -2) == q / 4.0;
      RoundIntBounds(c.mode, zSign, 2.0 * Scale(q, zExp));
    }
    CarriesOut(f, c.mode, zSign, zSig);
    hide Scale, RoundInt, RoundedSig;
  }

  lemma CarriesOut(f: Format, mode: Mode, zSign: bool, zSig: nat)
    requires f.Normal() <= zSig < f.SignBit()
    ensures f.Hidden() <= RoundedSig(f, mode, zSign, zSig) <= 2 * f.Hidden()
    ensures RoundedSig(f, mode, zSign, zSig) == 2 * f.Hidden()
       <==> zSig + RoundIncrement(f, mode, zSign) >= f.SignBit()
  {
    IncrementCarries(f, mode, zSign, zSig);
    hide RoundedSig;
    var low, z := GuardField(f, zSig), SigField(f, zSig);
    match f
    case Single => assert zSig == 0x80 * z + low;
    case Double => assert zSig == 0x400 * z + low;
  }

  // ---------------------------------------------------------------- the routine

  lemma EncodeZero(f: Format, zSig: nat)
    ensures Encode(f, 0, zSig) == zSig
    ensures f.Hidden() < f.SignBit()
  {
  }

  lemma PackIsSigned(f: Format, zSign: bool, zExp: nat, zSig: nat)
    requires Encode(f, zExp, zSig) < f.SignBit()
    ensures PackFloat(f, zSign, zExp, zSig) == Signed(f, zSign, Encode(f, zExp, zSig))
  {
    match f
    case Single =>
    case Double =>
  }

  lemma PackZero(f: Format, zSign: bool)
    ensures PackFloat(f, zSign, 0, 0) == Signed(f, zSign, 0)
  {
  }

  /** The test `0x7FD <= (uint16_t) zExp` catches the large and the negative exponents at once. */
  lemma WrappedExponent(f: Format, zExp: int)
    requires -0x8000 <= zExp < 0x8000
    ensures f.MaxExp() - 2 <= zExp % 0x1_0000 <==> zExp < 0 || zExp >= f.MaxExp() - 2
  {
  }

  /** Subtracting one from infinity by a wrapping addition gives the largest finite number. */
  lemma PackMinusOne(f: Format, zSign: bool)
    ensures PackFloat(f, zSign, f.MaxExp(), 0) == Signed(f, zSign, f.Infinity())
    ensures PackFloat(f, zSign, f.MaxExp(), f.Word() - 1) == Signed(f, zSign, f.Infinity() - 1)
    ensures f.Infinity() + f.Hidden() == f.SignBit()
  {
    match f
    case Single =>
    case Double =>
  }

  lemma OverflowRange(f: Format, c: Control, zSign: bool, zExp: int, zSig: nat, y: real)
    requires Normalized(f, zSig, y) && zExp >= f.MaxExp() - 2
    requires zExp > f.MaxExp() - 2 || zSig + RoundIncrement(f, c.mode, zSign) >= f.SignBit()
    ensures Scale(y, zExp - f.GuardBits()) >= 0.0
    ensures Deliver(f, c, zSign, Scale(y, zExp - f.GuardBits()))
         == Rounded(if RoundIncrement(f, c.mode, zSign) != 0 then f.Infinity() else f.Infinity() - 1,
                    {Overflow, Inexact})
  {
    NormalRange(f, c.mode, zSign, zExp, zSig, y);
    CarriesOut(f, c.mode, zSign, zSig);
    hide Scale, RoundedEncoding, RoundedSig, Magnitude;
    match f case Single => case Double =>
  }

  lemma InRange(f: Format, c: Control, zSign: bool, zExp: int, zSig: nat, y: real)
    requires Normalized(f, zSig, y) && 0 <= zExp <= f.MaxExp() - 2
    requires zExp == f.MaxExp() - 2 ==> zSig + RoundIncrement(f, c.mode, zSign) < f.SignBit()
    ensures Scale(y, zExp - f.GuardBits()) >= 0.0
    ensures var n := Encode(f, zExp, RoundedSig(f, c.mode, zSign, zSig));
      && n < f.Infinity()
      && Deliver(f, c, zSign, Scale(y, zExp - f.GuardBits()))
         == Rounded(n, if GuardField(f, zSig) != 0 then {Inexact} else {})
  {
    NormalRange(f, c.mode, zSign, zExp, zSig, y);
    CarriesOut(f, c.mode, zSign, zSig);
    hide Scale, RoundedEncoding, RoundedSig, Magnitude, Stands, GuardField, RoundIncrement, Deliver;
    EncodedBelowInfinity(f, zExp, RoundedSig(f, c.mode, zSign, zSig));
    DeliveredNormal(f, c, zSign, Scale(y, zExp - f.GuardBits()));
  }

  lemma EncodedBelowInfinity(f: Format, zExp: nat, n: nat)
    requires zExp <= f.MaxExp() - 2 && n <= 2 * f.Hidden() && (zExp == f.MaxExp() - 2 ==> n < 2 * f.Hidden())
    ensures Encode(f, zExp, n) < f.Infinity()
  {
    match f
    case Single =>
    case Double =>
  }

  lemma DeliveredNormal(f: Format, c: Control, negative: bool, x: real)
    requires x >= f.Hidden() as real && RoundedEncoding(f, c.mode, negative, x) < f.Infinity()
    ensures var n := RoundedEncoding(f, c.mode, negative, x);
      Deliver(f, c, negative, x) == Rounded(n, if Magnitude(f, n) as real == x then {} else {Inexact})
  {
    hide RoundedEncoding, Magnitude;
  }

  lemma UnderflowRange(f: Format, c: Control, zSign: bool, zExp: int, zSig: nat, y: real)
    requires Normalized(f, zSig, y) && zExp < 0 && f.Word() == Pow2(f.Width())
    ensures Scale(y, zExp - f.GuardBits()) >= 0.0
    ensures var s := ShiftRightJam(f.Width(), zSig, -zExp);
      var n, inexact := RoundedSig(f, c.mode, zSign, s), GuardField(f, s) != 0;
      && n <= f.Hidden()
      && Deliver(f, c, zSign, Scale(y, zExp - f.GuardBits()))
         == if c.flushToZero then Rounded(0, {OutputDenormal})
            else Rounded(n, (if inexact then {Inexact} else {}) +
                            (if inexact && IsTiny(f, c, zSign, zExp, zSig) then {Underflow} else {}))
  {
    var s, w := ShiftRightJam(f.Width(), zSig, -zExp), Scale(y, zExp);
    TinyTest(f, c, zSign, zExp, zSig, y);
    ShiftedStands(f, zSig, y, -zExp);
    ScaleAdd(y, zExp, -f.GuardBits());
    ScaleMonotone(y, zExp, 0);
    SubnormalRange(f, c.mode, zSign, s, w);
    hide Scale, RoundedEncoding, RoundedSig, Magnitude, ShiftRightJam, Tiny, IsTiny;
    match f case Single => case Double =>
  }

  lemma ZeroResult(f: Format, c: Control, zSign: bool, zExp: int)
    ensures Scale(0.0, zExp - f.GuardBits()) == 0.0
    ensures Deliver(f, c, zSign, 0.0) == Rounded(0, {})
  {
    ScaleZero(zExp - f.GuardBits());
    ZeroEncoding(f, c.mode, zSign);
    hide Scale, RoundedEncoding, Magnitude;
  }

  lemma RoundedZero(f: Format, mode: Mode, zSign: bool)
    ensures RoundedSig(f, mode, zSign, 0) == 0 == GuardField(f, 0)
  {
    match f
    case Single =>
    case Double =>
  }

  lemma ZeroEncoding(f: Format, mode: Mode, zSign: bool)
    ensures RoundedEncoding(f, mode, zSign, 0.0) == 0 && Magnitude(f, 0) == 0
  {
    assert Scale(0.0, 0) == 0.0;
    QuantumOfScaled(f, 0.0, 0);
    RoundIntBounds(mode, zSign, 0.0);
    hide Scale, Quantum, Mantissa, RoundInt;
  }

  /** A subnormal number that needs no rounding may come with exponent zero and without normalization. */
  ghost predicate Subnormal(f: Format, zExp: int, zSig: nat, y: real) {
    zExp == 0 && 0 < zSig < f.Normal() && zSig as real == y && GuardField(f, zSig) == 0
  }

  lemma NotSubnormal(f: Format, zExp: int, zSig: nat, y: real)
    ensures zSig == 0 || zSig >= f.Normal() ==> !Subnormal(f, zExp, zSig, y)
  {
  }

  lemma SubnormalIsPacked(f: Format, c: Control, zSign: bool, zSig: nat, y: real)
    requires Subnormal(f, 0, zSig, y)
    ensures Scale(y, -f.GuardBits()) >= 0.0
    ensures var n := RoundedSig(f, c.mode, zSign, zSig);
      && n != 0 && Round(f, c.mode, c.tininess, zSign, Scale(y, -f.GuardBits())) == Rounded(n, {})
      && PackFloat(f, zSign, 0, n) == Signed(f, zSign, n)
      && zSig + RoundIncrement(f, c.mode, zSign) < f.SignBit()
  {
    var n := SigField(f, zSig);
    IncrementCarries(f, c.mode, zSign, zSig);
    SubnormalField(f, zSig);
    GuardedValue(f, n);
    EncodeZero(f, n);
    PackIsSigned(f, zSign, 0, n);
    ExactIsDelivered(f, c.(flushToZero := false), zSign, n, 0);
    assert Scale(n as real, 0) == n as real;
    hide Scale, RoundedSig, Round, PackFloat, Signed, SigField, GuardField, Encode;
    assert RoundIncrement(f, c.mode, zSign) < f.Guard();
  }

  lemma SubnormalField(f: Format, zSig: nat)
    requires 0 < zSig < f.Normal() && GuardField(f, zSig) == 0
    ensures var n := SigField(f, zSig); 0 < n < f.Hidden() < f.Infinity() && zSig == n * f.Guard()
    ensures f.Normal() + f.Guard() < f.SignBit()
  {
    match f
    case Single =>
    case Double =>
  }

  lemma GuardedValue(f: Format, n: nat)
    ensures Scale((n * f.Guard()) as real, -f.GuardBits()) == n as real
  {
    ScaleDown(f, (n * f.Guard()) as real);
    hide Scale;
    match f
    case Single => assert (n * 0x80) as real == n as real * 128.0;
    case Double => assert (n * 0x400) as real == n as real * 1024.0;
  }

  ghost predicate Acceptable(f: Format, zExp: int, zSig: nat, y: real) {
    -0x8000 <= zExp < 0x8000 && (Normalized(f, zSig, y) || (zSig == 0 && y == 0.0 && zExp < f.MaxExp() - 2))
  }

  lemma NegativeExponent(f: Format, c: Control, zSign: bool, zExp: int, zSig: nat, y: real)
    requires Acceptable(f, zExp, zSig, y) && zExp < 0 && f.Word() == Pow2(f.Width())
    ensures Scale(y, zExp - f.GuardBits()) >= 0.0
    ensures PackFloat(f, zSign, 0, 0) == Signed(f, zSign, 0)
    ensures zSig != 0 && c.flushToZero ==>
      Deliver(f, c, zSign, Scale(y, zExp - f.GuardBits())) == Rounded(0, {OutputDenormal})
    ensures !c.flushToZero ==>
      var s := ShiftRightJam(f.Width(), zSig, -zExp);
      var n, inexact := RoundedSig(f, c.mode, zSign, s), GuardField(f, s) != 0;
      var r := Deliver(f, c, zSign, Scale(y, zExp - f.GuardBits()));
      && PackFloat(f, zSign, 0, n) == Signed(f, zSign, r.encoding)
      && r.flags == (if inexact then {Inexact} else {}) +
                    (if inexact && IsTiny(f, c, zSign, zExp, zSig) then {Underflow} else {})
  {
    hide Scale, Same, Deliver, RoundedSig, IsTiny, Stands, PackFloat, Signed, Encode, RoundIncrement, Pow2;
    PackZero(f, zSign);
    var s := ShiftRightJam(f.Width(), zSig, -zExp);
    var n := RoundedSig(f, c.mode, zSign, s);
    EncodeZero(f, n);
    if zSig == 0 {
      ZeroResult(f, c, zSign, zExp);
      RoundedZero(f, c.mode, zSign);
    } else {
      UnderflowRange(f, c, zSign, zExp, zSig, y);
      PackIsSigned(f, zSign, 0, n);
    }
  }

  lemma RegularExponent(f: Format, c: Control, zSign: bool, zExp: int, zSig: nat, y: real)
    requires Acceptable(f, zExp, zSig, y) && 0 <= zExp <= f.MaxExp() - 2
    requires zExp == f.MaxExp() - 2 ==> zSig + RoundIncrement(f, c.mode, zSign) < f.SignBit()
    ensures Scale(y, zExp - f.GuardBits()) >= 0.0
    ensures var n := RoundedSig(f, c.mode, zSign, zSig);
      var r := Deliver(f, c, zSign, Scale(y, zExp - f.GuardBits()));
      && PackFloat(f, zSign, if n == 0 then 0 else zExp, n) == Signed(f, zSign, r.encoding)
      && r.flags == (if GuardField(f, zSig) != 0 then {Inexact} else {})
      && (zSig == 0 ==> r == Rounded(0, {}))
  {
    hide Scale, Same, Deliver, RoundedSig, Stands, PackFloat, Signed, Encode, RoundIncrement, GuardField;
    var n := RoundedSig(f, c.mode, zSign, zSig);
    if zSig == 0 {
      ZeroResult(f, c, zSign, zExp);
      RoundedZero(f, c.mode, zSign);
      EncodeZero(f, 0);
      PackIsSigned(f, zSign, 0, 0);
    } else {
      InRange(f, c, zSign, zExp, zSig, y);
      CarriesOut(f, c.mode, zSign, zSig);
      PackMinusOne(f, zSign);
      PackIsSigned(f, zSign, zExp, n);
    }
  }

  /**
   roundAndPackFloat32 and roundAndPackFloat64.  The significand stands for y, whose value is
   y * 2^(zExp - guard bits) units; `zExp` must be representable in 16 bits, as it is for every caller.
   With flush_to_zero an exact zero with a negative exponent reports a denormal output all the same, and a
   subnormal number that comes without normalization is not flushed.
   */
  method RoundAndPack(f: Format, st: FloatStatus, zSign: bool, zExp: int, zSig: nat, ghost y: real)
    returns (z: nat)
    requires Acceptable(f, zExp, zSig, y) || Subnormal(f, zExp, zSig, y)
    modifies st`flags
    ensures Scale(y, zExp - f.GuardBits()) >= 0.0
    ensures !(st.control.flushToZero && (zSig == 0 || Subnormal(f, zExp, zSig, y))) ==>
      var r := Deliver(f, st.control, zSign, Scale(y, zExp - f.GuardBits()));
      z == Signed(f, zSign, r.encoding) && st.flags == old(st.flags) + r.flags
    ensures zSig == 0 && st.control.flushToZero ==>
      z == Signed(f, zSign, 0) && st.flags == old(st.flags) + (if zExp < 0 then {OutputDenormal} else {})
    ensures Subnormal(f, zExp, zSig, y) ==>
      var r := Round(f, st.control.mode, st.control.tininess, zSign, Scale(y, -f.GuardBits()));
      r.flags == {} && z == Signed(f, zSign, r.encoding) && st.flags == old(st.flags)
  {
    WordIsPow2(f);
    WrappedExponent(f, zExp);
    var c := st.control;
    var roundIncrement := RoundIncrement(f, c.mode, zSign);
    ghost var x := Scale(y, zExp - f.GuardBits());
    hide Scale, Same, Deliver, RoundedSig, IsTiny, Stands, PackFloat, Signed, Encode, RoundIncrement,
      ShiftRightJam, Pow2, GuardField;

    var exp, sig := zExp, zSig;
    var roundBits := GuardField(f, sig);
    if f.MaxExp() - 2 <= exp % 0x1_0000 {
      if exp > f.MaxExp() - 2 || (exp == f.MaxExp() - 2 && sig + roundIncrement >= f.SignBit()) {
        OverflowRange(f, c, zSign, zExp, zSig, y);
        PackMinusOne(f, zSign);
        st.flags := st.flags + {Overflow, Inexact};
        z := PackFloat(f, zSign, f.MaxExp(), if roundIncrement == 0 then f.Word() - 1 else 0);
        return;
      }
      if exp < 0 {
        NegativeExponent(f, c, zSign, zExp, zSig, y);
        if c.flushToZero {
          st.flags := st.flags + {OutputDenormal};
          z := PackFloat(f, zSign, 0, 0);
          return;
        }
        var isTiny := IsTiny(f, c, zSign, exp, sig);
        sig := ShiftRightJam(f.Width(), sig, -exp);
        exp := 0;
        roundBits := GuardField(f, sig);
        if isTiny && roundBits != 0 {
          st.flags := st.flags + {Underflow};
        }
      }
    }
    if Subnormal(f, zExp, zSig, y) {
      SubnormalIsPacked(f, c, zSign, zSig, y);
    } else if zExp >= 0 {
      RegularExponent(f, c, zSign, zExp, zSig, y);
    }
    if roundBits != 0 {
      st.flags := st.flags + {Inexact};
    }
    sig := RoundedSig(f, c.mode, zSign, sig);
    if sig == 0 {
      exp := 0;
    }
    z := PackFloat(f, zSign, exp, sig);
  }

  /** A number that the format can represent is delivered as it is. */
  lemma ExactIsDelivered(f: Format, c: Control, zSign: bool, m: nat, k: nat)
    requires m < 2 * f.Hidden() && (k == 0 || f.Hidden() <= m) && Encode(f, k, m) < f.Infinity()
    requires c.flushToZero ==> m == 0 || f.Hidden() <= m
    ensures Scale(m as real, k) >= 0.0
    ensures Deliver(f, c, zSign, Scale(m as real, k)) == Rounded(Encode(f, k, m), {})
  {
    ExactEncoding(f, c.mode, zSign, m, k);
    ScaleMonotone(m as real, 0, k);
    ScaleZero(k);
    hide Scale, Magnitude, Encode, RoundedEncoding;
  }

  lemma ExactEncoding(f: Format, mode: Mode, zSign: bool, m: nat, k: nat)
    requires m < 2 * f.Hidden() && (k == 0 || f.Hidden() <= m)
    ensures Scale(m as real, k) >= 0.0
    ensures RoundedEncoding(f, mode, zSign, Scale(m as real, k)) == Encode(f, k, m)
    ensures Magnitude(f, Encode(f, k, m)) as real == Scale(m as real, k)
  {
    QuantumOfScaled(f, m as real, k);
    RoundIntBounds(mode, zSign, m as real);
    MagnitudeScaled(f, k, m);
    hide Scale, Quantum, Magnitude, Encode, Mantissa, RoundInt;
  }

  // ---------------------------------------------------------------- normalization

  /** countLeadingZeros32 and countLeadingZeros64. */
  function CountLeadingZeros(width: nat, a: nat): (n: nat)
    requires 0 < width && a < Pow2(width)
    ensures a == 0 ==> n == width
    ensures a > 0 ==> n < width && Pow2(width - 1) <= a * Pow2(n) < Pow2(width)
    decreases Pow2(width) - a
  {
    if a == 0 then width
    else if Pow2(width - 1) <= a then 0
    else
      var n := CountLeadingZeros(width, 2 * a);
      assert (2 * a) * Pow2(n) == a * Pow2(n + 1);
      CountBound(width, a, n + 1);
      n + 1
  }

  lemma CountBound(width: nat, a: nat, n: nat)
    requires 0 < a && a * Pow2(n) < Pow2(width)
    ensures n < width
  {
    if n >= width {
      Pow2Monotone(width, n);
    }
    ProductSign(a - 1, Pow2(n));
    Difference(a, 1, Pow2(n));
  }

  /** What normalizeRoundAndPackFloat64 is given: an exact value, or a jammed one that is at most one
      position short of being normalized. */
  ghost predicate Normalizable(f: Format, zExp: int, zSig: nat, y: real) {
    && -0x7F00 <= zExp < 0x7F00 && zSig < f.SignBit() && y >= 0.0 && Jams(zSig, y)
    && (zSig as real == y || 2 * zSig >= f.Normal())
    && (zSig == 0 ==> zExp < f.MaxExp())
  }

  lemma LeadingZeros(f: Format, zSig: nat)
    requires 0 < zSig < f.SignBit() && f.Word() == Pow2(f.Width())
    ensures var n: int := CountLeadingZeros(f.Width(), zSig) - 1;
      && 0 <= n < f.Width() && f.Normal() <= zSig * Pow2(n) < f.SignBit()
      && (2 * zSig >= f.Normal() ==> n <= 1)
  {
    var zeros := CountLeadingZeros(f.Width(), zSig);
    assert Pow2(f.Width()) == 2 * Pow2(f.Width() - 1);
    assert Pow2(0) == 1;
    if zeros > 0 {
      assert Pow2(zeros) == 2 * Pow2(zeros - 1);
      DoubleMove(zSig, Pow2(zeros - 1));
    }
    if zeros > 2 {
      Pow2Monotone(3, zeros);
      assert Pow2(3) == 8;
      ProductMonotone(zSig, 8, Pow2(zeros));
    }
    hide Pow2, CountLeadingZeros;
    match f case Single => case Double =>
  }

  lemma ShiftedLeft(f: Format, zSig: nat, y: real, n: nat)
    requires Jams(zSig, y) && (zSig as real == y || n <= 1)
    ensures Stands(f, zSig * Pow2(n), Scale(y, n))
  {
    var g: int := f.GuardBits() - 1 - n;
    ScaleNat(zSig, n);
    if zSig as real != y {
      JamIsSame(zSig, y, g);
    }
    SameScaled(zSig as real, y, g, n);
    hide Scale;
  }

  lemma ScaledBack(y: real, n: nat, e: int)
    requires y >= 0.0
    ensures Scale(y, n) >= 0.0 && Scale(Scale(y, n), e - n) == Scale(y, e)
  {
    ScaleMonotone(y, 0, n);
    assert Scale(y, 0) == y;
    ScaleAdd(y, n, e - n);
    hide Scale;
  }

  /** normalizeRoundAndPackFloat64. */
  method NormalizeRoundAndPack(f: Format, st: FloatStatus, zSign: bool, zExp: int, zSig: nat, ghost y: real)
    returns (z: nat)
    requires Normalizable(f, zExp, zSig, y)
    modifies st`flags
    ensures Scale(y, zExp - f.GuardBits()) >= 0.0
    ensures !(zSig == 0 && st.control.flushToZero) ==>
      var r := Deliver(f, st.control, zSign, Scale(y, zExp - f.GuardBits()));
      z == Signed(f, zSign, r.encoding) && st.flags == old(st.flags) + r.flags
    ensures zSig == 0 && st.control.flushToZero ==>
      z == Signed(f, zSign, 0)
      && st.flags == old(st.flags) + (if zExp < f.Width() - 1 then {OutputDenormal} else {})
  {
    WordIsPow2(f);
    assert f.SignBit() < f.Word();
    var shiftCount := CountLeadingZeros(f.Width(), zSig) - 1;
    hide Deliver, Same, Signed, Pow2, Scale, CountLeadingZeros, Subnormal, Stands, Round, Jams;
    NotSubnormal(f, zExp - shiftCount, zSig * Pow2(shiftCount), if zSig == 0 then 0.0 else Scale(y, shiftCount));
    if zSig == 0 {
      ScaleZero(zExp - f.GuardBits());
      ScaleZero(zExp - shiftCount - f.GuardBits());
      z := RoundAndPack(f, st, zSign, zExp - shiftCount, 0, 0.0);
    } else {
      LeadingZeros(f, zSig);
      ShiftedLeft(f, zSig, y, shiftCount);
      ScaledBack(y, shiftCount, zExp - f.GuardBits());
      z := RoundAndPack(f, st, zSign, zExp - shiftCount, zSig * Pow2(shiftCount), Scale(y, shiftCount));
    }
  }
}
