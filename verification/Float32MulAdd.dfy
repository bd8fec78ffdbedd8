/** float32_muladd is a * b + c rounded once, for all negation flags and for the halved result. */
module Float32MulAdd {
  import opened Arithmetic
  import opened Powers
  import opened Words
  import opened Rounding
  import opened Sticky
  import opened RoundPack
  import opened Floats

  /** The float_muladd_* flags. */
  datatype Options = Options(negateC: bool, negateProduct: bool, negateResult: bool, halveResult: bool)

  // ---------------------------------------------------------------- the specification

  /** The exact product in units of 2^-149. */
  ghost function ProductUnits(a: nat, b: nat): real {
    Scale(Times(Units(Single, a), Units(Single, b)) as real, -149)
  }

  ghost function WithSign(negative: bool, x: real): real { if negative then -x else x }

  ghost function Magnify(x: real): (m: real)
    ensures m >= 0.0
  {
    if x < 0.0 then -x else x
  }

  ghost function Halve(halve: bool, x: real): real { if halve then x / 2.0 else x }

  /** The outcome for an exact sum x of a product and an addend with the given signs. */
  ghost function SumOutcome(ctl: Control, pSign: bool, cSign: bool, x: real, flip: bool, halve: bool): Outcome {
    var negative := if x == 0.0 then ZeroSumNegative(ctl.mode, pSign, cSign) else x < 0.0;
    Finite(Single, ctl, negative != flip, Halve(halve, Magnify(x)))
  }

  predicate InfiniteTimesZero(a: nat, b: nat) {
    (IsInfinite(Single, a) && IsZero(Single, b)) || (IsZero(Single, a) && IsInfinite(Single, b))
  }

  /** The ARM rules: infinity times zero plus a quiet NaN is invalid, and the order of the operands is c, a, b. */
  function PropagateMulAddNaN(ctl: Control, a: nat, b: nat, c: nat, infzero: bool): Outcome {
    var operands := [c, a, b];
    var invalid := infzero && IsQuiet(Single, c);
    Outcome(if ctl.defaultNaN || invalid then DefaultNaN(Single) else Silence(Single, FirstOfRank(Single, operands)),
            if invalid || exists x :: x in operands && IsSignaling(Single, x) then {Invalid} else {})
  }

  /**
   What a NaN operand leads to: a quiet NaN; the default one if so configured or for infinity times zero plus a
   quiet NaN, and otherwise that of the chosen operand with its quiet bit set; invalid exactly for that product
   and for signaling operands.
   */
  lemma NaNOfMulAdd(ctl: Control, a: u32, b: u32, c: u32, infzero: bool)
    requires IsNaN(Single, a) || IsNaN(Single, b) || IsNaN(Single, c)
    ensures var r, operands: seq<nat> := PropagateMulAddNaN(ctl, a, b, c, infzero), [c, a, b];
      && IsQuiet(Single, r.bits)
      && (ctl.defaultNaN || (infzero && IsQuiet(Single, c)) ==> r.bits == 0x7FC0_0000)
      && (!ctl.defaultNaN && !(infzero && IsQuiet(Single, c)) ==>
            exists i: nat :: IsChosen(Single, operands, i) && (r.bits == operands[i] || r.bits == operands[i] + 0x40_0000))
      && r.flags <= {Invalid}
      && (Invalid in r.flags <==>
            IsSignaling(Single, a) || IsSignaling(Single, b) || IsSignaling(Single, c) || (infzero && IsQuiet(Single, c)))
  {
    var operands: seq<nat> := [c, a, b];
    assert operands[0] == c && operands[1] == a && operands[2] == b;
    var i := FirstOfRankIsChosen(Single, operands, if IsNaN(Single, c) then 0 else if IsNaN(Single, a) then 1 else 2);
    SilencedIsQuiet(Single, operands[i]);
    hide IsNaN, IsSignaling, FirstOfRank, Silence;
    DefaultIsQuiet(Single);
  }

  lemma FirstOfThree(a: nat, b: nat, c: nat)
    ensures FirstOfRank(Single, [c, a, b]) ==
      if Rank(Single, c) <= Rank(Single, a) && Rank(Single, c) <= Rank(Single, b) then c
      else if Rank(Single, a) <= Rank(Single, b) then a else b
  {
    hide Rank;
    var three: seq<nat>, two: seq<nat>, one: seq<nat> := [c, a, b], [a, b], [b];
    assert three[1..] == two && two[1..] == one;
    assert FirstOfRank(Single, one) == b;
    assert FirstOfRank(Single, two) == if Rank(Single, a) <= Rank(Single, b) then a else b;
  }

  ghost function MulAddOutcome(ctl: Control, a: nat, b: nat, c: nat, o: Options): Outcome {
    var pSign := (Negative(Single, a) != Negative(Single, b)) != o.negateProduct;
    var cSign := Negative(Single, c) != o.negateC;
    var infiniteProduct := IsInfinite(Single, a) || IsInfinite(Single, b);
    if IsNaN(Single, a) || IsNaN(Single, b) || IsNaN(Single, c) then
      PropagateMulAddNaN(ctl, a, b, c, InfiniteTimesZero(a, b))
    else if InfiniteTimesZero(a, b) || (IsInfinite(Single, c) && infiniteProduct && pSign != cSign) then
      Outcome(DefaultNaN(Single), {Invalid})
    else if IsInfinite(Single, c) then
      Outcome(Signed(Single, cSign != o.negateResult, Single.Infinity()), {})
    else if infiniteProduct then
      Outcome(Signed(Single, pSign != o.negateResult, Single.Infinity()), {})
    else
      var x := WithSign(pSign, ProductUnits(a, b)) + WithSign(cSign, Units(Single, c) as real);
      SumOutcome(ctl, pSign, cSign, x, o.negateResult, o.halveResult)
  }

  // ---------------------------------------------------------------- terms

  /** A product or an addend: a significand with its leading bit in position 62, and an exponent. */
  datatype Term = Term(sig: nat, exp: int) {
    predicate Normal() { W62 <= sig < W63 && sig % 4 == 0 && -0x200 < exp < 0x400 }

    ghost function Value(): real { Scale(sig as real, exp - 40) }
  }

  lemma WordIs64()
    ensures Pow2(64) == 2 * W63 && Double.Word() == 2 * W63
  {
    WordIsPow2(Double);
  }

  /** Shifting a jammed value right jams the shifted value. */
  lemma JamOfJam(s: nat, y: real, count: nat)
    requires s < 2 * W63 && Jams(s, y) && count > 0
    ensures Pow2(64) == 2 * W63
    ensures Jams(ShiftRightJam(64, s, count), Scale(y, 0 - count))
  {
    WordIs64();
    var e: int := count;
    JamIsSame(s, y, e);
    SameScaled(s as real, y, e, -e);
    var t, u, v := ShiftRightJam(64, s, count), Scale(s as real, -e), Scale(y, -e);
    assert Jams(t, u);
    hide ShiftRightJam;
    JamsOfSame(t, u, v);
  }

  lemma JamsOfSame(t: int, u: real, v: real)
    requires Jams(t, u) && Same(u, v, 0)
    ensures Jams(t, v)
  {
    assert Scale(u, 0) == u && Scale(v, 0) == v;
    assert u.Floor == v.Floor && (u == u.Floor as real <==> v == v.Floor as real);
    hide Scale, Same;
    SameCell(t, u, v);
  }

  lemma SameCell(t: int, u: real, v: real)
    requires u == t as real || (t % 2 == 1 && (t - 1) as real < u < (t + 1) as real)
    requires u.Floor == v.Floor && (u == u.Floor as real <==> v == v.Floor as real)
    ensures v == t as real || (t % 2 == 1 && (t - 1) as real < v < (t + 1) as real)
  {
    var m := u.Floor;
    if u != t as real {
      assert m == t - 1 || m == t;
      assert m as real < v < (m + 1) as real;
    }
  }

  /** The smaller term, shifted to the exponent of the larger one. */
  function Shifted(s: Term, exp: int): (j: nat)
    requires s.Normal() && s.exp <= exp
  {
    WordIs64();
    ShiftRightJam(64, s.sig, exp - s.exp)
  }

  ghost function ShiftedValue(s: Term, exp: int): real { Scale(s.sig as real, s.exp - exp) }

  lemma ShiftedJams(s: Term, exp: int)
    requires s.Normal() && s.exp <= exp
    ensures Jams(Shifted(s, exp), ShiftedValue(s, exp)) && ShiftedValue(s, exp) >= 0.0
    ensures Scale(ShiftedValue(s, exp), exp - 40) == s.Value()
    ensures 0 <= Shifted(s, exp) < W63
    ensures exp <= s.exp + 1 ==> Shifted(s, exp) as real == ShiftedValue(s, exp)
    ensures exp >= s.exp + 1 ==> Shifted(s, exp) < W62
    ensures exp >= s.exp + 2 ==> Shifted(s, exp) <= W62 / 2
  {
    WordIs64();
    var m := s.sig as real;
    ScaleAdd(m, s.exp - exp, exp - 40);
    ScaleMonotone(m, s.exp - exp, 0);
    if exp >= s.exp + 1 {
      ScaleMonotone(m, s.exp - exp, -1);
    }
    if exp >= s.exp + 2 {
      ScaleMonotone(m, s.exp - exp, -2);
    }
    assert Scale(m, 0) == m && Scale(m, -1) == m / 2.0 && Scale(m, -2) == m / 4.0;
    hide Scale, ShiftRightJam;
    var j, u := Shifted(s, exp), ShiftedValue(s, exp);
    HalfIsExact(s.sig);
    if exp == s.exp {
      assert u == m;
    } else if exp == s.exp + 1 {
      assert u == m / 2.0;
      JamOfInteger(j, s.sig / 2);
    }
  }

  lemma HalfIsExact(n: nat)
    requires n % 4 == 0
    ensures n as real / 2.0 == (n / 2) as real && n as real / 4.0 == (n / 4) as real
  {
    var q := n / 4;
    DivisionUnique(n, 2 * q, 2, 0);
    assert n == 4 * q && n as real == 4.0 * q as real && (2 * q) as real == 2.0 * q as real;
  }

  lemma AlignedSum(l: Term, s: Term, u: real)
    requires Scale(u, l.exp - 40) == s.Value()
    ensures Scale(l.sig as real + u, l.exp - 40) == l.Value() + s.Value()
    ensures Scale(l.sig as real - u, l.exp - 40) == l.Value() - s.Value()
  {
    var m := l.sig as real;
    ScaleSum(m, u, l.exp - 40);
    ScaleSum(m - u, u, l.exp - 40);
    hide Scale;
  }

  // ---------------------------------------------------------------- the significand part

  /** A 64-bit significand, which the last shift and roundAndPackFloat32 turn into the rounding of x. */
  ghost predicate SignificandOf(zSig: nat, zExp: int, x: real) {
    W62 <= zSig < W63 && -0x1000 < zExp < 0x1000 && exists y: real :: StandsFor(zSig, zExp, x, y)
  }

  ghost predicate StandsFor(zSig: nat, zExp: int, x: real, y: real) {
    y >= 0.0 && Same(zSig as real, y, 9) && Scale(y, zExp - 39) == x
  }

  lemma SignificandFrom(zSig: nat, zExp: int, x: real, y: real)
    requires W62 <= zSig < W63 && -0x1000 < zExp < 0x1000
    requires y >= 0.0 && Same(zSig as real, y, 9) && Scale(y, zExp - 39) == x
    ensures SignificandOf(zSig, zExp, x)
  {
    assert StandsFor(zSig, zExp, x, y);
  }

  lemma EvenTerm(t: Term)
    requires t.Normal()
    ensures t.sig % 2 == 0 && W62 <= t.sig < W63 && -0x200 < t.exp < 0x400
  {
    EvenNumber(t.sig);
  }

  lemma EvenNumber(n: nat)
    requires n % 4 == 0
    ensures n % 2 == 0
  {
    DivisionUnique(n, 2 * (n / 4), 2, 0);
  }

  /** The sum of the significands after alignment, l being the term with the larger exponent. */
  lemma SumJams(l: Term, s: Term) returns (y: real)
    requires l.Normal() && s.Normal() && s.exp <= l.exp
    ensures var z := l.sig + Shifted(s, l.exp);
      W62 <= z < 2 * W63 && Jams(z, y) && y >= 0.0 && Scale(y, l.exp - 40) == l.Value() + s.Value()
  {
    ShiftedJams(s, l.exp);
    var u, j := ShiftedValue(s, l.exp), Shifted(s, l.exp);
    AlignedSum(l, s, u);
    y := l.sig as real + u;
    hide Scale, Shifted, ShiftedValue, Term.Value, Jams;
    EvenTerm(l);
    JamShifted(j, u, l.sig);
  }

  lemma SumIs(l: Term, s: Term)
    requires l.Normal() && s.Normal() && s.exp <= l.exp
    ensures Pow2(64) == 2 * W63
    ensures var z := l.sig + Shifted(s, l.exp);
      && W62 <= z < 2 * W63
      && (z < W63 ==> SignificandOf(z, l.exp - 1, l.Value() + s.Value()))
      && (z >= W63 ==> SignificandOf(ShiftRightJam(64, z, 1), l.exp, l.Value() + s.Value()))
  {
    WordIs64();
    var y := SumJams(l, s);
    EvenTerm(l);
    var z, x := l.sig + Shifted(s, l.exp), l.Value() + s.Value();
    hide Scale, Same, ShiftRightJam, Shifted, SignificandOf, Term.Value, Jams, Pow2;
    SumSignificand(z, y, l.exp, x);
  }

  lemma SumSignificand(z: nat, y: real, exp: int, x: real)
    requires W62 <= z < 2 * W63 && Jams(z, y) && y >= 0.0 && Scale(y, exp - 40) == x
    requires Pow2(64) == 2 * W63 && -0x200 < exp < 0x400
    ensures z < W63 ==> SignificandOf(z, exp - 1, x)
    ensures z >= W63 ==> SignificandOf(ShiftRightJam(64, z, 1), exp, x)
  {
    hide Scale, Same, ShiftRightJam, SignificandOf, Jams, Pow2;
    if z < W63 {
      JamIsSame(z, y, 9);
      SignificandFrom(z, exp - 1, x, y);
    } else {
      JamOfJam(z, y, 1);
      HalvedSum(z, y, exp - 40);
      JamIsSame(ShiftRightJam(64, z, 1), Scale(y, -1), 9);
      SignificandFrom(ShiftRightJam(64, z, 1), exp, x, Scale(y, -1));
    }
  }

  lemma HalvedSum(z: nat, y: real, e: int)
    requires W63 <= z < 2 * W63 && Jams(z, y) && y >= 0.0 && Pow2(64) == 2 * W63
    requires Jams(ShiftRightJam(64, z, 1), Scale(y, -1))
    ensures Scale(y, -1) >= 0.0 && Scale(Scale(y, -1), e + 1) == Scale(y, e)
    ensures W62 <= ShiftRightJam(64, z, 1) < W63
  {
    ScaleAdd(y, -1, e + 1);
    assert Scale(y, -1) == y / 2.0;
    hide Scale, ShiftRightJam;
  }

  /** A difference before it is normalized: if bits were lost it has at most one leading zero more. */
  ghost predicate LeftoverFor(z: nat, exp: int, x: real, y: real) {
    && 0 < z < W63 && -0x200 < exp < 0x400 && Jams(z, y) && y >= 0.0
    && (z as real == y || 2 * z >= W62) && Scale(y, exp - 40) == x
  }

  ghost predicate Leftover(z: nat, exp: int, x: real) {
    exists y: real :: LeftoverFor(z, exp, x, y)
  }

  /** The significands subtracted after alignment. */
  lemma DifferenceIs(l: Term, s: Term)
    requires l.Normal() && s.Normal() && s.exp <= l.exp && (s.exp == l.exp ==> s.sig < l.sig)
    ensures Shifted(s, l.exp) < l.sig
    ensures Leftover(l.sig - Shifted(s, l.exp), l.exp, l.Value() - s.Value())
  {
    ShiftedJams(s, l.exp);
    var u, j := ShiftedValue(s, l.exp), Shifted(s, l.exp);
    AlignedSum(l, s, u);
    var z, y := l.sig - j, l.sig as real - u;
    hide Scale, Same, ShiftRightJam, Shifted, ShiftedValue, Term.Value, Jams;
    EvenTerm(l);
    if s.exp == l.exp {
      UnshiftedTerm(s);
    }
    DifferenceBounds(l.sig, j, u, l.exp - s.exp);
    assert LeftoverFor(z, l.exp, l.Value() - s.Value(), y);
  }

  lemma DifferenceBounds(sig: nat, j: nat, u: real, expDiff: nat)
    requires W62 <= sig < W63 && sig % 2 == 0 && Jams(j, u) && u >= 0.0 && j < sig
    requires if expDiff <= 1 then j as real == u else j <= W62 / 2
    ensures var z, y := sig - j, sig as real - u;
      0 < z < W63 && Jams(z, y) && y >= 0.0 && (z as real == y || 2 * z >= W62)
  {
    JamShifted(j, u, sig);
  }

  /** Normalizing a difference keeps what it stands for. */
  lemma ShiftedDifference(z: nat, exp: int, x: real)
    requires Leftover(z, exp, x)
    ensures z < Pow2(64)
    ensures var n: int := CountLeadingZeros(64, z) - 1;
      0 <= n < 64 && SignificandOf(z * Pow2(n), exp - 1 - n, x)
  {
    var y: real :| LeftoverFor(z, exp, x, y);
    WordIs64();
    DoubleConstants();
    var n: int := CountLeadingZeros(64, z) - 1;
    hide Scale, Same, SignificandOf, Pow2, CountLeadingZeros, Jams, Format.Normal, Format.GuardBits, Format.SignBit;
    LeadingZeros(Double, z);
    ShiftedLeft(Double, z, y, n);
    ScaleAdd(y, n, exp - 40 - n);
    ScaleMonotone(y, 0, n);
    assert Scale(y, 0) == y by {
      ScaleZeroShift(y);
    }
    SignificandFrom(z * Pow2(n), exp - 1 - n, x, Scale(y, n));
  }

  lemma DoubleConstants()
    ensures Double.SignBit() == W63 && Double.Width() == 64 && Double.Normal() == W62 && Double.GuardBits() == 10
  {
  }

  lemma ScaleZeroShift(y: real)
    ensures Scale(y, 0) == y
  {
  }

  /** `shift64RightJamming( zSig64, 32, &zSig64 )` narrows the significand to that of a float32. */
  lemma NarrowedRange(zSig: nat, t: nat)
    requires W62 <= zSig < W63 && Jams(t, Scale(zSig as real, -32))
    ensures Single.Normal() <= t < Single.SignBit()
  {
    var u := Scale(zSig as real, -32);
    WordSizes();
    ScaleNat(0x4000_0000, 32);
    ScaleNat(0x8000_0000, 32);
    ScaleAdd(zSig as real, -32, 32);
    assert Scale(zSig as real, 0) == zSig as real;
    hide Scale, Pow2;
    ScaleOrder(0x4000_0000 as real, u, 32);
    ScaleOrder(u, 0x8000_0000 as real, 32);
    assert 0x4000_0000 as real <= u < 0x8000_0000 as real;
  }

  lemma Narrowed(zSig: nat, y: real)
    requires W62 <= zSig < W63 && y >= 0.0 && Same(zSig as real, y, 9)
    ensures Pow2(64) == 2 * W63
    ensures Normalized(Single, ShiftRightJam(64, zSig, 32), Scale(y, -32))
  {
    WordIs64();
    var t, u := ShiftRightJam(64, zSig, 32), Scale(zSig as real, -32);
    assert Jams(t, u);
    hide Scale, ShiftRightJam, Pow2, Same, Jams;
    NarrowedRange(zSig, t);
    ScaleOrder(0.0, y, -32);
    ScaleZero(-32);
    SameScaled(zSig as real, y, 9, -32);
    SameCoarser(u, Scale(y, -32), -23, 6);
    JamIsSame(t, u, 6);
  }

  /** The last shift and the rounding. */
  method Deliver32(st: FloatStatus, zSign: bool, zSig: nat, zExp: int, halve: bool, ghost x: real) returns (z: nat)
    requires SignificandOf(zSig, zExp, x)
    modifies st`flags
    ensures x >= 0.0
    ensures var r := Finite(Single, st.control, zSign, Halve(halve, x));
      z == r.bits && st.flags == old(st.flags) + r.flags
  {
    ghost var y: real :| StandsFor(zSig, zExp, x, y);
    Narrowed(zSig, y);
    var exp := if halve then zExp - 1 else zExp;
    NarrowedValue(y, zExp, exp, x, halve);
    hide Scale, Same, ShiftRightJam, SignificandOf, Deliver, Halve;
    z := RoundAndPack(Single, st, zSign, exp, ShiftRightJam(64, zSig, 32), Scale(y, -32));
  }

  lemma NarrowedValue(y: real, zExp: int, exp: int, x: real, halve: bool)
    requires y >= 0.0 && Scale(y, zExp - 39) == x && exp == if halve then zExp - 1 else zExp
    ensures x >= 0.0 && Single.GuardBits() == 7
    ensures Scale(Scale(y, -32), exp - 7) == Halve(halve, x)
  {
    ScaleAdd(y, -32, exp - 7);
    ScaleStep(y, zExp - 40);
    ScaleOrder(0.0, y, zExp - 39);
    ScaleZero(zExp - 39);
    hide Scale;
  }

  /** The addition branch: the terms have equal signs. */
  method AddTerms(p: Term, c: Term) returns (zSig: nat, zExp: int)
    requires p.Normal() && c.Normal()
    ensures SignificandOf(zSig, zExp, p.Value() + c.Value())
  {
    WordIs64();
    hide SignificandOf, Shifted, ShiftRightJam, Term.Value, Pow2;
    var expDiff := p.exp - c.exp;
    if expDiff > 0 {
      SumIs(p, c);
      zSig, zExp := p.sig + Shifted(c, p.exp), p.exp;
    } else {
      SumIs(c, p);
      zSig, zExp := Shifted(p, c.exp) + c.sig, c.exp;
    }
    if zSig >= W63 {
      zSig := ShiftRightJam(64, zSig, 1);
    } else {
      zExp := zExp - 1;
    }
  }

  /** The subtraction branch; `flipped` says that the addend is the larger magnitude, zSig == 0 that there is
      nothing left. */
  method SubTerms(p: Term, c: Term) returns (flipped: bool, zSig: nat, zExp: int)
    requires p.Normal() && c.Normal()
    ensures zSig == 0 ==> p.Value() == c.Value()
    ensures zSig != 0 && !flipped ==>
      p.Value() > c.Value() && SignificandOf(zSig, zExp, p.Value() - c.Value())
    ensures zSig != 0 && flipped ==>
      c.Value() > p.Value() && SignificandOf(zSig, zExp, c.Value() - p.Value())
  {
    WordIs64();
    hide SignificandOf, Leftover, Shifted, ShiftRightJam, Term.Value, CountLeadingZeros, Pow2;
    var expDiff := p.exp - c.exp;
    if expDiff > 0 {
      DifferenceIs(p, c);
      PositiveSignificand(p, c);
      flipped, zSig, zExp := false, p.sig - Shifted(c, p.exp), p.exp;
    } else if expDiff < 0 {
      DifferenceIs(c, p);
      PositiveSignificand(c, p);
      flipped, zSig, zExp := true, c.sig - Shifted(p, c.exp), c.exp;
    } else if c.sig < p.sig {
      UnshiftedTerm(c);
      DifferenceIs(p, c);
      PositiveSignificand(p, c);
      flipped, zSig, zExp := false, p.sig - c.sig, p.exp;
    } else if p.sig < c.sig {
      UnshiftedTerm(p);
      DifferenceIs(c, p);
      PositiveSignificand(c, p);
      flipped, zSig, zExp := true, c.sig - p.sig, p.exp;
    } else {
      return false, 0, p.exp;
    }
    ghost var x := if flipped then c.Value() - p.Value() else p.Value() - c.Value();
    ShiftedDifference(zSig, zExp, x);
    zExp := zExp - 1;
    var shiftcount := CountLeadingZeros(64, zSig) - 1;
    zSig := zSig * Pow2(shiftcount);
    zExp := zExp - shiftcount;
    NotZero(zSig, zExp, x);
  }

  lemma NotZero(zSig: nat, zExp: int, x: real)
    requires SignificandOf(zSig, zExp, x)
    ensures zSig != 0
  {
  }

  lemma UnshiftedTerm(s: Term)
    requires s.Normal()
    ensures Shifted(s, s.exp) == s.sig
  {
  }

  /** Terms are ordered by exponent, then by significand. */
  lemma PositiveSignificand(l: Term, s: Term)
    requires l.Normal() && s.Normal() && s.exp <= l.exp && (s.exp == l.exp ==> s.sig < l.sig)
    ensures l.Value() > s.Value()
  {
    var m, n := l.sig as real, s.sig as real;
    ScaleOrder(n, m, s.exp - 40);
    ScaleOrder(m, n, s.exp - 40);
    if s.exp < l.exp {
      ScaleMonotone(m, s.exp - 39, l.exp - 40);
      ScaleStep(m, s.exp - 40);
      ScaleSum(m, m, s.exp - 40);
      ScaleOrder(m + m, n, s.exp - 40);
    }
    hide Scale;
  }

  // ---------------------------------------------------------------- the operands

  /** The product of the significands, with its leading bit moved to position 62. */
  function ProductTerm(an: Operand, bn: Operand): Term {
    var pSig := Times(an.significand * 0x80, bn.significand * 0x100);
    var pExp := an.exponent + bn.exponent - 0x7E;
    if (pSig * 2) % (2 * W63) < W63 then Term(pSig * 2, pExp - 1) else Term(pSig, pExp)
  }

  function AddendTerm(cn: Operand): Term {
    Term(cn.significand * 0x80_0000_0000, cn.exponent)
  }

  predicate IsOperand(n: Operand) {
    Single.Hidden() <= n.significand < 2 * Single.Hidden() && -23 < n.exponent < 0xFF
  }

  lemma ProductIsNormal(an: Operand, bn: Operand)
    requires IsOperand(an) && IsOperand(bn)
    ensures ProductTerm(an, bn).Normal()
    ensures var p := Times(an.significand, bn.significand);
      ProductTerm(an, bn) == if p < 0x8000_0000_0000 then Term(p * 0x1_0000, an.exponent + bn.exponent - 0x7F)
                             else Term(p * 0x8000, an.exponent + bn.exponent - 0x7E)
  {
    var p := Times(an.significand, bn.significand);
    ProductRange(an.significand, bn.significand, 0x80_0000, 0x100_0000);
    ShiftFactors(an.significand, bn.significand);
    assert 0x4000_0000_0000 <= p < 0x1_0000_0000_0000;
    hide Times;
    FourDivides(p);
  }

  lemma ShiftFactors(x: nat, y: nat)
    ensures Times(x * 0x80, y * 0x100) == Times(x, y) * 0x8000
  {
  }

  lemma FourDivides(p: nat)
    ensures (p * 0x8000) % 4 == 0 && (p * 0x1_0000) % 4 == 0
  {
    DivisionUnique(p * 0x8000, p * 0x2000, 4, 0);
    DivisionUnique(p * 0x1_0000, p * 0x4000, 4, 0);
  }

  lemma PowersUsed()
    ensures Pow2(7) == 0x80 && Pow2(15) == 0x8000 && Pow2(16) == 0x1_0000 && Pow2(39) == 0x80_0000_0000
  {
    Pow2Shift8(0);
    Pow2Shift8(8);
    Pow2Shift8(16);
    Pow2Shift8(24);
    Pow2Shift8(32);
    assert Pow2(8) == 2 * Pow2(7) && Pow2(16) == 2 * Pow2(15) && Pow2(40) == 2 * Pow2(39);
  }

  lemma ProductValue(a: nat, b: nat, an: Operand, bn: Operand)
    requires IsOperand(an) && IsOperand(bn)
    requires Units(Single, a) as real == Scale(an.significand as real, an.exponent - 1)
    requires Units(Single, b) as real == Scale(bn.significand as real, bn.exponent - 1)
    ensures ProductTerm(an, bn).Value() == ProductUnits(a, b)
  {
    var m, n := an.significand, bn.significand;
    var e, f := an.exponent - 1, bn.exponent - 1;
    var p := Times(m, n);
    ProductIsNormal(an, bn);
    var u := ProductUnits(a, b);
    assert u == Scale(Times(Units(Single, a), Units(Single, b)) as real, -149);
    hide *;
    PowersUsed();
    ScaledTimes(m, e, n, f, Units(Single, a), Units(Single, b));
    ScaleAdd(p as real, e + f, -149);
    ScaleNat(p, 15);
    ScaleNat(p, 16);
    ScaleAdd(p as real, 15, e + f + 2 - 0x7E - 40);
    ScaleAdd(p as real, 16, e + f + 2 - 0x7F - 40);
    TermValue(p * 0x8000, an.exponent + bn.exponent - 0x7E);
    TermValue(p * 0x1_0000, an.exponent + bn.exponent - 0x7F);
  }

  lemma TermValue(sig: nat, exp: int)
    ensures Term(sig, exp).Value() == Scale(sig as real, exp - 40)
  {
  }

  lemma AddendValue(c: nat, cn: Operand)
    requires IsOperand(cn) && Units(Single, c) as real == Scale(cn.significand as real, cn.exponent - 1)
    ensures AddendTerm(cn).Normal() && AddendTerm(cn).Value() == Units(Single, c) as real
  {
    var m := cn.significand;
    DivisionUnique(m * 0x80_0000_0000, m * 0x20_0000_0000, 4, 0);
    hide Scale, Pow2, Units;
    PowersUsed();
    ScaleNat(m, 39);
    ScaleAdd(m as real, 39, cn.exponent - 40);
    TermValue(m * 0x80_0000_0000, cn.exponent);
  }

  lemma OperandFacts(a: u32)
    requires IsFinite(Single, a) && !IsZero(Single, a)
    ensures var an := NormalOperand(Single, a);
      IsOperand(an) && Units(Single, a) as real == Scale(an.significand as real, an.exponent - 1)
  {
    OperandValue(Single, a);
    hide Units, Scale, NormalOperand;
  }

  // ---------------------------------------------------------------- zero operands

  /** An addend that is returned as it is. */
  lemma AddendIsDelivered(ctl: Control, c: u32, negative: bool)
    requires IsFinite(Single, c) && !(ctl.flushToZero && Exp(Single, c) == 0)
    ensures Finite(Single, ctl, negative, Units(Single, c) as real)
         == Outcome(PackFloat(Single, negative, Exp(Single, c), Frac(Single, c)), {})
  {
    Classes(Single, c);
    UnitsOfFields(Single, c);
    EncodeOfFields(Single, Encoding(Single, c));
    var e, m := Exp(Single, c), Frac(Single, c);
    hide Scale, Units, Deliver, Exp, Frac;
    PackIsSigned(Single, negative, e, m);
    if e == 0 {
      ExactIsDelivered(Single, ctl, negative, m, 0);
      ScaleZeroShift(m as real);
    } else {
      ScaleNat(Single.Hidden() + m, e - 1);
      ExactIsDelivered(Single, ctl, negative, Single.Hidden() + m, e - 1);
    }
  }

  lemma SubnormalIsFlushed(ctl: Control, c: u32, negative: bool, halve: bool)
    requires !IsZero(Single, c) && Exp(Single, c) == 0 && ctl.flushToZero
    ensures Finite(Single, ctl, negative, Halve(halve, Units(Single, c) as real))
         == Outcome(Signed(Single, negative, 0), {OutputDenormal})
  {
    UnitsOfFields(Single, c);
    assert 0 < Units(Single, c) < Single.Hidden();
    hide Units;
  }

  /** A zero product plus a number other than zero. */
  method ZeroPlus(st: FloatStatus, c: u32, cSign: bool, halve: bool) returns (z: nat)
    requires IsFinite(Single, c) && !IsZero(Single, c)
    modifies st`flags
    ensures var r := Finite(Single, st.control, cSign, Halve(halve, Units(Single, c) as real));
      z == r.bits && st.flags == old(st.flags) + r.flags
  {
    hide Scale, Units, NormalOperand, Deliver, Same, Subnormal;
    if Exp(Single, c) == 0 && st.control.flushToZero {
      SubnormalIsFlushed(st.control, c, cSign, halve);
      PackZero(Single, cSign);
      st.flags := st.flags + {OutputDenormal};
      return PackFloat(Single, cSign, 0, 0);
    }
    if halve {
      var cn := NormalOperand(Single, c);
      OperandFacts(c);
      HalvedAddend(c, cn);
      NotSubnormal(Single, cn.exponent - 2, cn.significand * 0x80, (cn.significand * 0x80) as real);
      z := RoundAndPack(Single, st, cSign, cn.exponent - 2, cn.significand * 0x80, (cn.significand * 0x80) as real);
    } else {
      AddendIsDelivered(st.control, c, cSign);
      z := PackFloat(Single, cSign, Exp(Single, c), Frac(Single, c));
    }
  }

  lemma HalvedAddend(c: nat, cn: Operand)
    requires IsOperand(cn) && Units(Single, c) as real == Scale(cn.significand as real, cn.exponent - 1)
    ensures var y := (cn.significand * 0x80) as real;
      && Acceptable(Single, cn.exponent - 2, cn.significand * 0x80, y)
      && Scale(y, cn.exponent - 2 - 7) == Units(Single, c) as real / 2.0 && Single.GuardBits() == 7
  {
    var m := cn.significand;
    hide Scale, Pow2, Units;
    PowersUsed();
    ScaleNat(m, 7);
    ScaleAdd(m as real, 7, cn.exponent - 9);
    ScaleStep(m as real, cn.exponent - 2);
  }

  // ---------------------------------------------------------------- the routine

  /** The product of non-zero numbers plus a number other than zero. */
  method SumFinite(st: FloatStatus, a: u32, b: u32, c: u32, pSign: bool, cSign: bool, flip: bool, halve: bool)
    returns (z: nat)
    requires IsFinite(Single, a) && IsFinite(Single, b) && IsFinite(Single, c)
    requires !IsZero(Single, a) && !IsZero(Single, b) && !IsZero(Single, c)
    modifies st`flags
    ensures var x := WithSign(pSign, ProductUnits(a, b)) + WithSign(cSign, Units(Single, c) as real);
      var r := SumOutcome(st.control, pSign, cSign, x, flip, halve);
      z == r.bits && st.flags == old(st.flags) + r.flags
  {
    var an, bn, cn := NormalOperand(Single, a), NormalOperand(Single, b), NormalOperand(Single, c);
    OperandFacts(a);
    OperandFacts(b);
    OperandFacts(c);
    hide Scale, Units, NormalOperand, ProductTerm, AddendTerm, Term.Value, SumOutcome, ProductUnits, IsFinite, IsZero;
    ProductIsNormal(an, bn);
    ProductValue(a, b, an, bn);
    AddendValue(c, cn);
    z := SumTerms(st, ProductTerm(an, bn), AddendTerm(cn), pSign, cSign, flip, halve);
  }

  /** The same for a product and an addend that are normalized to position 62. */
  method SumTerms(st: FloatStatus, p: Term, q: Term, pSign: bool, cSign: bool, flip: bool, halve: bool)
    returns (z: nat)
    requires p.Normal() && q.Normal()
    modifies st`flags
    ensures var x := WithSign(pSign, p.Value()) + WithSign(cSign, q.Value());
      var r := SumOutcome(st.control, pSign, cSign, x, flip, halve);
      z == r.bits && st.flags == old(st.flags) + r.flags
  {
    PositiveTerm(p);
    PositiveTerm(q);
    hide Scale, SignificandOf, Term.Value, Term.Normal, Deliver, Finite, Halve, SumOutcome, PackFloat,
      DifferenceOutcome, WithSign;
    if pSign == cSign {
      var zSig, zExp := AddTerms(p, q);
      SumOfPositive(st.control, p.Value(), q.Value(), pSign, cSign, flip, halve);
      z := Deliver32(st, pSign != flip, zSig, zExp, halve, p.Value() + q.Value());
    } else {
      DifferenceOfPositive(st.control, p.Value(), q.Value(), pSign, cSign, flip, halve);
      z := DifferenceOfTerms(st, p, q, pSign != flip, flip, halve);
    }
  }

  /** The result of a subtraction: nothing, or the difference with the sign of the larger term. */
  ghost function DifferenceOutcome(ctl: Control, p: real, q: real, zSign: bool, flip: bool, halve: bool): Outcome {
    if p > q then Finite(Single, ctl, zSign, Halve(halve, p - q))
    else if p < q then Finite(Single, ctl, !zSign, Halve(halve, q - p))
    else Finite(Single, ctl, flip != (ctl.mode == Down), Halve(halve, 0.0))
  }

  method DifferenceOfTerms(st: FloatStatus, p: Term, q: Term, zSign: bool, flip: bool, halve: bool)
    returns (z: nat)
    requires p.Normal() && q.Normal()
    modifies st`flags
    ensures var r := DifferenceOutcome(st.control, p.Value(), q.Value(), zSign, flip, halve);
      z == r.bits && st.flags == old(st.flags) + r.flags
  {
    hide Scale, SignificandOf, Term.Value, Term.Normal, Deliver, Finite, Halve, PackFloat;
    var flipped, zSig, zExp := SubTerms(p, q);
    if zSig == 0 {
      var sign := flip != (st.control.mode == Down);
      ZeroIsDelivered(st.control, sign, halve);
      return PackFloat(Single, sign, 0, 0);
    }
    if flipped {
      z := Deliver32(st, !zSign, zSig, zExp, halve, q.Value() - p.Value());
    } else {
      z := Deliver32(st, zSign, zSig, zExp, halve, p.Value() - q.Value());
    }
  }

  lemma SumOfPositive(ctl: Control, p: real, q: real, pSign: bool, cSign: bool, flip: bool, halve: bool)
    requires p > 0.0 && q > 0.0 && pSign == cSign
    ensures SumOutcome(ctl, pSign, cSign, WithSign(pSign, p) + WithSign(cSign, q), flip, halve)
         == Finite(Single, ctl, pSign != flip, Halve(halve, p + q))
  {
    hide Finite, Halve;
  }

  lemma DifferenceOfPositive(ctl: Control, p: real, q: real, pSign: bool, cSign: bool, flip: bool, halve: bool)
    requires p > 0.0 && q > 0.0 && pSign != cSign
    ensures SumOutcome(ctl, pSign, cSign, WithSign(pSign, p) + WithSign(cSign, q), flip, halve)
         == DifferenceOutcome(ctl, p, q, pSign != flip, flip, halve)
  {
    hide Finite, Halve;
  }

  lemma ZeroIsDelivered(ctl: Control, zSign: bool, halve: bool)
    ensures Finite(Single, ctl, zSign, Halve(halve, 0.0)) == Outcome(PackFloat(Single, zSign, 0, 0), {})
  {
    PackZero(Single, zSign);
    ZeroResult(Single, ctl, zSign, 0);
    hide Deliver;
  }

  lemma PositiveTerm(t: Term)
    requires t.Normal()
    ensures t.Value() > 0.0
  {
    ScaleOrder(t.sig as real, 0.0, t.exp - 40);
    ScaleZero(t.exp - 40);
    hide Scale;
  }

  method PropagateMulAdd(st: FloatStatus, a: u32, b: u32, c: u32, infzero: bool) returns (z: nat)
    requires IsNaN(Single, a) || IsNaN(Single, b) || IsNaN(Single, c)
    modifies st`flags
    ensures var r := PropagateMulAddNaN(st.control, a, b, c, infzero);
      z == r.bits && st.flags == old(st.flags) + r.flags
  {
    FirstOfThree(a, b, c);
    assert a in [c, a, b] && b in [c, a, b] && c in [c, a, b];
    hide FirstOfRank, Silence, IsSignaling, IsNaN;
    if IsSignaling(Single, a) || IsSignaling(Single, b) || IsSignaling(Single, c) {
      st.flags := st.flags + {Invalid};
    }
    var which := 1;
    if infzero && IsNaN(Single, c) && !IsSignaling(Single, c) {
      st.flags := st.flags + {Invalid};
      which := 3;
    } else if IsSignaling(Single, c) {
      which := 2;
    } else if IsSignaling(Single, a) {
      which := 0;
    } else if IsSignaling(Single, b) {
      which := 1;
    } else if IsNaN(Single, c) {
      which := 2;
    } else if IsNaN(Single, a) {
      which := 0;
    }
    if st.control.defaultNaN || which == 3 {
      return DefaultNaN(Single);
    }
    z := Silence(Single, if which == 0 then a else if which == 1 then b else c);
  }

  lemma ZeroProduct(a: nat, b: nat)
    requires IsZero(Single, a) || IsZero(Single, b)
    ensures ProductUnits(a, b) == 0.0
  {
    assert Units(Single, a) == 0 || Units(Single, b) == 0;
    ScaleZero(-149);
    hide Scale, Units;
  }

  lemma NonZeroUnits(c: u32)
    ensures IsZero(Single, c) <==> Units(Single, c) == 0
  {
    if !IsZero(Single, c) {
      MagnitudeMonotone(Single, 1, Encoding(Single, c));
      assert Magnitude(Single, 1) == 1;
    } else {
      assert Magnitude(Single, 0) == 0;
    }
  }

  /** A zero product: the sum is the addend. */
  method SumWithZero(st: FloatStatus, c: u32, pSign: bool, cSign: bool, flip: bool, halve: bool) returns (z: nat)
    requires IsFinite(Single, c)
    modifies st`flags
    ensures var r := SumOutcome(st.control, pSign, cSign, WithSign(cSign, Units(Single, c) as real), flip, halve);
      z == r.bits && st.flags == old(st.flags) + r.flags
  {
    NonZeroUnits(c);
    hide Units, Finite, Halve, Deliver, IsFinite, IsZero;
    if IsZero(Single, c) {
      var zSign := if pSign == cSign then pSign else if st.control.mode == Down then true else false;
      ZeroIsDelivered(st.control, zSign != flip, halve);
      return PackFloat(Single, zSign != flip, 0, 0);
    }
    z := ZeroPlus(st, c, cSign != flip, halve);
  }

  /** A product of non-zero numbers and a zero addend. */
  method SumWithoutAddend(st: FloatStatus, a: u32, b: u32, pSign: bool, cSign: bool, flip: bool, halve: bool)
    returns (z: nat)
    requires IsFinite(Single, a) && IsFinite(Single, b) && !IsZero(Single, a) && !IsZero(Single, b)
    modifies st`flags
    ensures var r := SumOutcome(st.control, pSign, cSign, WithSign(pSign, ProductUnits(a, b)), flip, halve);
      z == r.bits && st.flags == old(st.flags) + r.flags
  {
    var an, bn := NormalOperand(Single, a), NormalOperand(Single, b);
    OperandFacts(a);
    OperandFacts(b);
    hide Scale, Units, NormalOperand, ProductTerm, Term.Value, ProductUnits, IsFinite, IsZero, Finite, Halve;
    ProductIsNormal(an, bn);
    ProductValue(a, b, an, bn);
    var p := ProductTerm(an, bn);
    PositiveTerm(p);
    TermIsSignificand(p);
    z := Deliver32(st, pSign != flip, p.sig, p.exp - 1, halve, p.Value());
  }

  lemma TermIsSignificand(p: Term)
    requires p.Normal()
    ensures SignificandOf(p.sig, p.exp - 1, p.Value())
  {
    SignificandFrom(p.sig, p.exp - 1, p.Value(), p.sig as real);
  }

  /** float32_muladd. */
  method MulAdd(st: FloatStatus, a: u32, b: u32, c: u32, o: Options) returns (z: nat)
    modifies st`flags
    ensures var ctl := st.control;
      var r := MulAddOutcome(ctl, Squash(Single, ctl, a), Squash(Single, ctl, b), Squash(Single, ctl, c), o);
      z == r.bits
      && st.flags == old(st.flags) + SquashFlags(Single, ctl, a) + SquashFlags(Single, ctl, b)
                     + SquashFlags(Single, ctl, c) + r.flags
  {
    var a' := SquashInputDenormal(Single, st, a);
    var b' := SquashInputDenormal(Single, st, b);
    var c' := SquashInputDenormal(Single, st, c);
    hide Squash, SquashFlags, MulAddOutcome;
    z := MulAddSquashed(st, a', b', c', o);
  }

  /** The part of float32_muladd for finite operands. */
  method MulAddFinite(st: FloatStatus, a: u32, b: u32, c: u32, pSign: bool, cSign: bool, o: Options)
    returns (z: nat)
    requires IsFinite(Single, a) && IsFinite(Single, b) && IsFinite(Single, c)
    modifies st`flags
    ensures var x := WithSign(pSign, ProductUnits(a, b)) + WithSign(cSign, Units(Single, c) as real);
      var r := SumOutcome(st.control, pSign, cSign, x, o.negateResult, o.halveResult);
      z == r.bits && st.flags == old(st.flags) + r.flags
  {
    NonZeroUnits(c);
    hide Units, IsFinite, IsZero, SumOutcome, ProductUnits;
    if IsZero(Single, a) || IsZero(Single, b) {
      ZeroProduct(a, b);
      z := SumWithZero(st, c, pSign, cSign, o.negateResult, o.halveResult);
    } else if IsZero(Single, c) {
      z := SumWithoutAddend(st, a, b, pSign, cSign, o.negateResult, o.halveResult);
    } else {
      z := SumFinite(st, a, b, c, pSign, cSign, o.negateResult, o.halveResult);
    }
  }

  lemma SignedInfinity(negative: bool)
    ensures PackFloat(Single, negative, 0xFF, 0) == Signed(Single, negative, Single.Infinity())
  {
    PackMinusOne(Single, negative);
  }

  lemma ClassFacts(a: u32)
    ensures Exp(Single, a) == 0xFF && Frac(Single, a) != 0 <==> IsNaN(Single, a)
    ensures Exp(Single, a) == 0xFF && Frac(Single, a) == 0 <==> IsInfinite(Single, a)
    ensures Exp(Single, a) == 0 && Frac(Single, a) == 0 <==> IsZero(Single, a)
    ensures Exp(Single, a) != 0xFF <==> IsFinite(Single, a)
  {
    Classes(Single, a);
  }

  method MulAddSquashed(st: FloatStatus, a: u32, b: u32, c: u32, o: Options) returns (z: nat)
    modifies st`flags
    ensures var r := MulAddOutcome(st.control, a, b, c, o);
      z == r.bits && st.flags == old(st.flags) + r.flags
  {
    ClassFacts(a);
    ClassFacts(b);
    ClassFacts(c);
    hide Units, Exp, Frac, IsNaN, IsInfinite, IsFinite, IsZero, Negative, Signed, PackFloat;
    hide Format.MaxExp, Format.Infinity, Format.Hidden, Format.SignBit;
    hide SumOutcome, PropagateMulAddNaN, ProductUnits;
    var aSig, aExp := Frac(Single, a), Exp(Single, a);
    var bSig, bExp := Frac(Single, b), Exp(Single, b);
    var cSig, cExp := Frac(Single, c), Exp(Single, c);
    var infzero := (aExp == 0 && aSig == 0 && bExp == 0xFF && bSig == 0)
                || (aExp == 0xFF && aSig == 0 && bExp == 0 && bSig == 0);
    if (aExp == 0xFF && aSig != 0) || (bExp == 0xFF && bSig != 0) || (cExp == 0xFF && cSig != 0) {
      z := PropagateMulAdd(st, a, b, c, infzero);
      return;
    }
    if infzero {
      st.flags := st.flags + {Invalid};
      return DefaultNaN(Single);
    }
    var cSign := Negative(Single, c) != o.negateC;
    var pSign := (Negative(Single, a) != Negative(Single, b)) != o.negateProduct;
    var pInf := aExp == 0xFF || bExp == 0xFF;
    if cExp == 0xFF {
      if pInf && pSign != cSign {
        st.flags := st.flags + {Invalid};
        return DefaultNaN(Single);
      }
      SignedInfinity(cSign != o.negateResult);
      return PackFloat(Single, cSign != o.negateResult, 0xFF, 0);
    }
    if pInf {
      SignedInfinity(pSign != o.negateResult);
      return PackFloat(Single, pSign != o.negateResult, 0xFF, 0);
    }
    z := MulAddFinite(st, a, b, c, pSign, cSign, o);
  }
}
