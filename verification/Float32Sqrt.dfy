/**
 float32_sqrt is the exact square root rounded once, given the documented bound on its estimate.  The
 root is described by its order with the integers, so that no real root has to be postulated.
 */
module Float32Sqrt {
  import opened Arithmetic
  import opened Powers
  import opened Words
  import opened Rounding
  import opened Sticky
  import opened RoundPack
  import opened Floats

  // ---------------------------------------------------------------- roots

  /** y lies between the same integers as the square root of n, and is an integer when that is one. */
  ghost predicate RootLike(y: real, n: nat) {
    var k := y.Floor;
    y >= 0.0 && k * k <= n < (k + 1) * (k + 1) && (y == k as real <==> k * k == n)
  }

  lemma SquareOrder(s: nat, t: nat)
    ensures s <= t <==> s * s <= t * t
    ensures s == t <==> s * s == t * t
  {
    if s < t {
      ProductMonotone(s, s, t);
      assert s * t < t * t;
    } else if t < s {
      ProductMonotone(t, t, s);
      assert t * s < s * s;
    }
  }

  /** Comparing integers with the root is comparing squares with the radicand. */
  lemma RootOrder(y: real, n: nat, t: nat)
    requires RootLike(y, n)
    ensures t as real <= y <==> t * t <= n
    ensures t as real == y <==> t * t == n
  {
    var k := y.Floor;
    SquareOrder(t, k);
    SquareOrder(t, k + 1);
    SquareOrder(k + 1, t);
  }

  lemma RootLikeFrom(y: real, n: nat)
    requires y >= 0.0
    requires forall t: nat :: (t as real <= y <==> t * t <= n) && (t as real == y <==> t * t == n)
    ensures RootLike(y, n)
  {
    var k: nat := y.Floor;
    assert k as real <= y && !((k + 1) as real <= y);
    assert k * k <= n && !((k + 1) * (k + 1) <= n);
    assert k as real == y <==> k * k == n;
  }

  lemma RealSquareOrder(x: real, y: real)
    requires x >= 0.0 && y >= 0.0
    ensures x <= y <==> x * x <= y * y
    ensures x == y <==> x * x == y * y
  {
    if x < y {
      RealSquareGrows(x, y);
    } else if y < x {
      RealSquareGrows(y, x);
    }
  }

  lemma RealSquareGrows(x: real, y: real)
    requires 0.0 <= x < y
    ensures x * x < y * y
  {
    var t := y - x;
    assert y * y == (x + t) * (x + t) == x * x + 2.0 * (x * t) + t * t;
    assert x * t >= 0.0 && t * t > 0.0;
  }

  /** The square root itself, where the reals have one, is such a number. */
  lemma SquareRootIsRootLike(y: real, n: nat)
    requires y >= 0.0 && y * y == n as real
    ensures RootLike(y, n)
  {
    forall t: nat
      ensures (t as real <= y <==> t * t <= n) && (t as real == y <==> t * t == n)
    {
      assert t as real * t as real == (t * t) as real;
      RealSquareOrder(t as real, y);
    }
    RootLikeFrom(y, n);
  }

  /** Such numbers exist for every radicand. */
  lemma {:induction false} RootLikeExists(n: nat) returns (y: real)
    ensures RootLike(y, n)
  {
    if n == 0 {
      y := 0.0;
    } else {
      y := RootLikeExists(n - 1);
      var k: nat := y.Floor;
      if (k + 1) * (k + 1) == n {
        y := (k + 1) as real;
        assert y.Floor == k + 1;
      } else {
        y := k as real + 0.5;
        assert y.Floor == k;
      }
    }
  }

  /** Radicands that differ by an even power of two have roots that differ by a power of two. */
  lemma ScaledRoot(y: real, d: nat, k: nat)
    requires RootLike(y, (d * Pow2(k)) * Pow2(k))
    ensures RootLike(Scale(y, 0 - k), d)
  {
    var p, r, e: int := Pow2(k), Scale(y, 0 - k), k;
    ScaleAdd(y, -e, e);
    assert Scale(y, 0) == y;
    ScaleOrder(0.0, y, -e);
    ScaleZero(-e);
    forall t: nat
      ensures (t as real <= r <==> t * t <= d) && (t as real == r <==> t * t == d)
    {
      ScaleNat(t, k);
      ScaleOrder(t as real, r, e);
      RootOrder(y, (d * p) * p, t * p);
      hide *;
      ScaledSquares(t, d, p);
    }
    hide Scale;
    RootLikeFrom(r, d);
  }

  lemma ScaledSquares(t: nat, d: nat, p: nat)
    requires p > 0
    ensures (t * p) * (t * p) <= (d * p) * p <==> t * t <= d
    ensures (t * p) * (t * p) == (d * p) * p <==> t * t == d
  {
    var s, q := t * t, t * p;
    hide *;
    Regroup(t, t, p);
    Regroup(q, t, p);
    CancelFactor(s * p, d * p, p);
    CancelFactor(d * p, s * p, p);
    CancelFactor(s, d, p);
    CancelFactor(d, s, p);
  }

  // ---------------------------------------------------------------- the significand

  /** What the comment on estimateSqrt32 promises: strictly within two of the square root of d. */
  predicate GoodEstimate(d: nat, estimate: nat) {
    2 <= estimate < W32 && (estimate - 2) * (estimate - 2) < d < (estimate + 2) * (estimate + 2)
  }

  /** The radicand that the significand part works on. */
  function Radicand(odd: bool, aSig: nat): nat { (if odd then aSig / 2 else aSig) * W32 }

  predicate SqrtOperand(odd: bool, aSig: nat) {
    0x8000_0000 <= aSig < W32 && aSig % 2 == 0
  }

  /** The significand zSig can be rounded in place of half of any root of d. */
  ghost predicate RootSig(d: nat, zSig: nat) {
    forall r: real :: RootLike(r, d) ==> Normalized(Single, zSig, Scale(r, -1))
  }

  lemma RadicandBounds(odd: bool, aSig: nat)
    requires SqrtOperand(odd, aSig)
    ensures 0x8000_0000 * 0x8000_0000 <= Radicand(odd, aSig) < W32 * W32
  {
  }

  /** An integer and a root strictly inside one cell of 128 are rounded alike once halved. */
  lemma CloseRoot(d: nat, z: nat, zSig: nat, m: nat, r: real)
    requires 0x8000_0000 * 0x8000_0000 <= d < W32 * W32 && RootLike(r, d)
    requires (128 * m) as real < r < (128 * m + 128) as real
    requires 64 * m < zSig < 64 * m + 64 && 0x4000_0000 <= zSig < 0x8000_0000
    ensures Normalized(Single, zSig, Scale(r, -1))
  {
    assert Scale(r, -1) == r / 2.0;
    hide Scale;
    StandsInCell(Single, zSig, r / 2.0, m);
  }

  lemma Halved(z: nat)
    requires z < W32
    ensures Pow2(32) == W32
    ensures var h := ShiftRightJam(32, z, 1); 2 * h == z || (2 * h == z + 1 && z % 4 == 1) || (2 * h == z - 1 && z % 4 == 3)
  {
    WordIsPow2(Single);
    assert Scale(z as real, -1) == z as real / 2.0;
    hide Scale, ShiftRightJam;
  }

  lemma InsideCell(z: nat, m: nat, zSig: nat, r: real)
    requires z < W32 && z % 0x80 > 5 && m == z / 0x80 && (z - 4) as real <= r <= z as real && z > 0x8000_0000
    requires 2 * zSig == z || (2 * zSig == z + 1 && z % 4 == 1) || (2 * zSig == z - 1 && z % 4 == 3)
    ensures (128 * m) as real < r < (128 * m + 128) as real
    ensures 64 * m < zSig < 64 * m + 64 && 0x4000_0000 <= zSig < 0x8000_0000
  {
  }

  /** Why the correction can be skipped: the estimate plus two is at most four above the root. */
  lemma UncorrectedRoot(d: nat, z: nat)
    requires 0x8000_0000 * 0x8000_0000 <= d < W32 * W32 && z < W32 && z % 0x80 > 5
    requires z >= 4 && (z - 4) * (z - 4) < d < z * z
    ensures Pow2(32) == W32 && RootSig(d, ShiftRightJam(32, z, 1))
  {
    Halved(z);
    var zSig := ShiftRightJam(32, z, 1);
    var m := z / 0x80;
    SquareOrder(z, 0x8000_0000);
    var low, high := (z - 4) * (z - 4), z * z;
    forall r: real | RootLike(r, d)
      ensures Normalized(Single, zSig, Scale(r, -1))
    {
      RootOrder(r, d, z);
      RootOrder(r, d, z - 4);
      hide *;
      InsideCell(z, m, zSig, r);
      CloseRoot(d, z, zSig, m, r);
    }
  }

  /** An estimate that overflows the word belongs to a root just below 2^32. */
  lemma OverflowedRoot(d: nat, estimate: nat)
    requires d < W32 * W32 && GoodEstimate(d, estimate) && estimate + 2 >= W32
    requires 0x8000_0000 * 0x8000_0000 <= d
    ensures RootSig(d, 0x7FFF_FFFF)
  {
    forall r: real | RootLike(r, d)
      ensures Normalized(Single, 0x7FFF_FFFF, Scale(r, -1))
    {
      RootOrder(r, d, estimate - 2);
      RootOrder(r, d, W32);
      CloseRoot(d, 0, 0x7FFF_FFFF, 0x1FF_FFFF, r);
    }
  }

  /** The integer part of the root, with a sticky bit for the rest. */
  lemma CorrectedRoot(d: nat, z: nat)
    requires 0x8000_0000 * 0x8000_0000 <= d < W32 * W32 && z * z <= d < (z + 1) * (z + 1)
    ensures Pow2(32) == W32 && z < W32
    ensures var s := OrBit(z, z * z != d); s < W32 && RootSig(d, ShiftRightJam(32, s, 1))
  {
    SquareOrder(z, W32);
    SquareOrder(W32, z);
    SquareOrder(0x8000_0000, z + 1);
    SquareOrder(z + 1, 0x8000_0000);
    var s := OrBit(z, z * z != d);
    Halved(s);
    var zSig := ShiftRightJam(32, s, 1);
    assert Jams(zSig, Scale(s as real, -1));
    forall r: real | RootLike(r, d)
      ensures Normalized(Single, zSig, Scale(r, -1))
    {
      RootOrder(r, d, z);
      RootOrder(r, d, z + 1);
      hide ShiftRightJam, RootLike;
      JamOfCell(z, z * z != d, r);
      HalvedJam(s, zSig, r);
      ScaleOrder(0.0, r, -1);
      assert Scale(0.0, -1) == 0.0;
    }
  }

  lemma HalvedJam(s: nat, zSig: nat, r: real)
    requires Jams(s, r) && Jams(zSig, Scale(s as real, -1))
    ensures Stands(Single, zSig, Scale(r, -1))
  {
    JamIsSame(s, r, 7);
    SameScaled(s as real, r, 7, -1);
    JamIsSame(zSig, Scale(s as real, -1), 6);
    hide Scale;
  }

  /** rem holds d - z * z in a 64-bit word, and the root is below z + 1. */
  ghost predicate RootTrial(d: nat, z: nat, rem: nat) {
    && -0x10_0000_0000 < d - z * z && d < (z + 1) * (z + 1) && z < W32
    && rem == (d - z * z) % W64
  }

  lemma FirstTrial(d: nat, estimate: nat)
    requires GoodEstimate(d, estimate) && estimate + 2 < W32
    ensures var z := estimate + 2;
      RootTrial(d, z, RootRemainder(d, z)) && (z - 4) * (z - 4) < d < z * z
  {
    var z := estimate + 2;
    assert (estimate - 2) * (estimate - 2) == z * z - 8 * z + 16;
    assert (z + 1) * (z + 1) == z * z + 2 * z + 1;
  }

  lemma NextTrial(d: nat, z: nat, rem: nat)
    requires RootTrial(d, z, rem) && rem >= 0x8000_0000_0000_0000 && 0 < d
    ensures 0 < z < W32 && RootTrial(d, z - 1, (rem + 2 * (z - 1) + 1) % W64)
  {
    SquareStep(z);
    assert (z + 1) * (z + 1) == z * z + 2 * z + 1;
    var s := z * z;
    if z > 0 {
      var t := (z - 1) * (z - 1);
      hide *;
      WrappedStep(d - s, rem, 2 * (z - 1) + 1);
    }
  }

  lemma SquareStep(z: int)
    ensures (z - 1) * (z - 1) == z * z - 2 * z + 1
  {
  }

  lemma WrappedStep(x: int, rem: nat, c: nat)
    requires rem == x % W64 && -0x10_0000_0000 < x < 0x2_0000_0000 && rem >= 0x8000_0000_0000_0000
    requires c < 0x2_0000_0000
    ensures x < 0 && (rem + c) % W64 == (x + c) % W64
  {
  }

  lemma LastTrial(d: nat, z: nat, rem: nat)
    requires RootTrial(d, z, rem) && rem < 0x8000_0000_0000_0000
    ensures z * z <= d < (z + 1) * (z + 1) && (rem != 0 <==> z * z != d)
  {
    assert (z + 1) * (z + 1) == z * z + 2 * z + 1;
    var s := z * z;
  }

  /** `rem = ( ( (uint64_t) aSig )<<32 ) - term` for the square of z. */
  function RootRemainder(d: nat, z: nat): (rem: nat)
    ensures rem < W64
  {
    (d - z * z) % W64
  }

  /** The correction loop: at its end z is the integer part of the root. */
  method CorrectRoot(d: nat, z0: nat) returns (z: nat, rem: nat)
    requires 0 < d && RootTrial(d, z0, RootRemainder(d, z0)) && z0 < W32
    ensures z * z <= d < (z + 1) * (z + 1) && (rem != 0 <==> z * z != d)
  {
    hide RootTrial, RootRemainder;
    z, rem := z0, RootRemainder(d, z0);
    while rem >= 0x8000_0000_0000_0000
      invariant RootTrial(d, z, rem) && z < W32
      decreases z
    {
      NextTrial(d, z, rem);
      z := z - 1;
      rem := (rem + 2 * z + 1) % W64;
    }
    LastTrial(d, z, rem);
  }

  /** The significand part of float32_sqrt. */
  method RootSignificand(odd: bool, aSig: nat, estimate: nat) returns (zSig: nat)
    requires SqrtOperand(odd, aSig) && GoodEstimate(Radicand(odd, aSig), estimate)
    ensures RootSig(Radicand(odd, aSig), zSig)
  {
    var d := Radicand(odd, aSig);
    RadicandBounds(odd, aSig);
    EstimateWord(d, estimate);
    hide RootSig, ShiftRightJam, RootTrial, RootRemainder, Pow2, GoodEstimate, Radicand;
    zSig := (estimate + 2) % W32;
    if zSig % 0x80 <= 5 {
      if zSig < 2 {
        OverflowedRoot(d, estimate);
        return 0x7FFF_FFFF;
      }
      FirstTrial(d, estimate);
      var rem;
      zSig, rem := CorrectRoot(d, zSig);
      CorrectedRoot(d, zSig);
      zSig := OrBit(zSig, rem != 0);
    } else {
      SkippedTrial(d, estimate);
    }
    zSig := ShiftRightJam(32, zSig, 1);
  }

  lemma EstimateWord(d: nat, estimate: nat)
    requires GoodEstimate(d, estimate)
    ensures 2 <= estimate < W32
  {
  }

  lemma SkippedTrial(d: nat, estimate: nat)
    requires 0x8000_0000 * 0x8000_0000 <= d < W32 * W32 && GoodEstimate(d, estimate)
    requires (estimate + 2) % W32 % 0x80 > 5
    ensures estimate + 2 < W32 && Pow2(32) == W32 && RootSig(d, ShiftRightJam(32, estimate + 2, 1))
  {
    hide Pow2, RootSig, ShiftRightJam, RootTrial;
    NoWrap(estimate);
    hide GoodEstimate;
    FirstTrial(d, estimate);
    UncorrectedRoot(d, estimate + 2);
  }

  lemma NoWrap(estimate: nat)
    requires 2 <= estimate < W32 && (estimate + 2) % W32 % 0x80 > 5
    ensures estimate + 2 < W32 && (estimate + 2) % W32 == estimate + 2
  {
  }

  // ---------------------------------------------------------------- the exact value

  /** Section 5.4.1: with units of 2^-149 the root of a is that of Units(a) * 2^149. */
  function RootArgument(a: nat): nat { Units(Single, a) * Pow2(149) }

  /** `( ( aExp - 0x7F )>>1 ) + 0x7E` */
  function RootExponent(aExp: int): int { (aExp - 0x7F) / 2 + 0x7E }

  lemma ByteScales(m: nat)
    ensures (m * 0x80) as real == Scale(m as real, 7) && (m * 0x100) as real == Scale(m as real, 8)
    ensures (m * W32) as real == Scale(m as real, 32)
  {
    WordIsPow2(Single);
    Pow2Shift8(0);
    assert Pow2(8) == 0x100 && Pow2(8) == 2 * Pow2(7);
    ScaleNat(m, 7);
    ScaleNat(m, 8);
    ScaleNat(m, 32);
    hide Scale, Pow2;
  }

  lemma RadicandValue(m: nat, odd: bool)
    ensures Radicand(odd, m * 0x100) as real == Scale(m as real, if odd then 39 else 40)
  {
    ByteScales(m);
    ByteScales(if odd then m * 0x80 else m * 0x100);
    ScaleAdd(m as real, if odd then 7 else 8, 32);
    hide Scale;
  }

  /** The radicand of the whole number is that of the significand times an even power of two. */
  lemma ArgumentOfOperand(a: nat, m: nat, e: int)
    requires Units(Single, a) as real == Scale(m as real, e - 1) && -23 < e < 0xFF
    ensures RootExponent(e) > 8
    ensures var k: nat := RootExponent(e) - 8;
      RootArgument(a) == (Radicand(e % 2 == 1, m * 0x100) * Pow2(k)) * Pow2(k)
  {
    var k: nat := RootExponent(e) - 8;
    var d := Radicand(e % 2 == 1, m * 0x100);
    RadicandValue(m, e % 2 == 1);
    var top := if e % 2 == 1 then 39 else 40;
    assert top + k + k == e - 1 + 149;
    TwiceScaled(d, m, top, k);
    var u := Units(Single, a);
    assert RootArgument(a) == u * Pow2(149);
    hide *;
    ScaleNat(u, 149);
    ScaleAdd(m as real, e - 1, 149);
    SameNumber(u * Pow2(149), (d * Pow2(k)) * Pow2(k));
  }

  lemma TwiceScaled(d: nat, m: nat, top: int, k: nat)
    requires d as real == Scale(m as real, top)
    ensures ((d * Pow2(k)) * Pow2(k)) as real == Scale(m as real, top + k + k)
  {
    hide *;
    ScaleNat(d, k);
    var t := d * Pow2(k);
    ScaleNat(t, k);
    ScaleAdd(m as real, top, k);
    ScaleAdd(m as real, top + k, k);
  }

  lemma SameNumber(u: nat, v: nat)
    requires u as real == v as real
    ensures u == v
  {
  }

  /** Every root of the operand is delivered as the significand part says. */
  lemma RootDelivered(c: Control, a: nat, m: nat, e: int, zSig: nat, y: real)
    requires Units(Single, a) as real == Scale(m as real, e - 1) && -23 < e < 0xFF
    requires RootSig(Radicand(e % 2 == 1, m * 0x100), zSig) && RootLike(y, RootArgument(a))
    ensures var zExp, n := RootExponent(e), RoundedSig(Single, c.mode, false, zSig);
      && Normalized(Single, zSig, Scale(y, 7 - zExp)) && Scale(Scale(y, 7 - zExp), zExp - 7) == y
      && 0 <= zExp < Single.MaxExp() - 2
      && Finite(Single, c, false, y)
         == Outcome(Encode(Single, zExp, n), if GuardField(Single, zSig) != 0 then {Inexact} else {})
  {
    var zExp := RootExponent(e);
    var k: nat, d := zExp - 8, Radicand(e % 2 == 1, m * 0x100);
    ArgumentOfOperand(a, m, e);
    ScaledRoot(y, d, k);
    ScaleAdd(y, 0 - k, -1);
    ScaleAdd(y, 7 - zExp, zExp - 7);
    assert Scale(y, 0) == y;
    hide Scale, Radicand, RoundedSig, GuardField, Deliver, RootLike, Encode, Normalized, Units, RoundIncrement;
    assert Normalized(Single, zSig, Scale(Scale(y, 0 - k), -1));
    assert Single.GuardBits() == 7;
    InRange(Single, c, false, zExp, zSig, Scale(y, 7 - zExp));
  }

  // ---------------------------------------------------------------- the routine

  /** The estimate that float32_sqrt asks for is within the documented bound. */
  ghost predicate EstimateFor(a: nat, estimate: nat)
    requires a < Single.Word()
  {
    IsFinite(Single, a) && !IsZero(Single, a) ==>
      var an := NormalOperand(Single, a);
      GoodEstimate(Radicand(an.exponent % 2 == 1, an.significand * 0x100), estimate)
  }

  /** The part of float32_sqrt for positive finite numbers. */
  method SqrtFinite(st: FloatStatus, a: nat, estimate: nat) returns (z: nat)
    requires a < Single.Word() && IsFinite(Single, a) && !IsZero(Single, a) && EstimateFor(a, estimate)
    modifies st`flags
    ensures exists y: real :: RootLike(y, RootArgument(a))
    ensures forall y: real :: RootLike(y, RootArgument(a)) ==>
      var r := Finite(Single, st.control, false, y);
      z == r.bits && st.flags == old(st.flags) + r.flags
  {
    var an := NormalOperand(Single, a);
    OperandValue(Single, a);
    ghost var flags := st.flags;
    var e, aSig := an.exponent, an.significand * 0x100;
    SqrtOperandOf(e % 2 == 1, an.significand);
    EstimateOf(a, estimate);
    hide Scale, RootLike, RootSig, Radicand, RootArgument, Units, NormalOperand, Deliver, Finite, GoodEstimate;
    hide Same, IsFinite, IsZero, EstimateFor, SqrtOperand, Normalized;
    var zExp := RootExponent(e);
    var zSig := RootSignificand(e % 2 == 1, aSig, estimate);
    ghost var root := RootLikeExists(RootArgument(a));
    RootDelivered(st.control, a, an.significand, e, zSig, root);
    z := RoundAndPack(Single, st, false, zExp, zSig, Scale(root, 7 - zExp));
    forall y: real | RootLike(y, RootArgument(a))
      ensures Finite(Single, st.control, false, y) == Finite(Single, st.control, false, root)
    {
      RootDelivered(st.control, a, an.significand, e, zSig, y);
    }
    FiniteParts(st.control, root);
  }

  lemma SqrtOperandOf(odd: bool, m: nat)
    requires Single.Hidden() <= m < 2 * Single.Hidden()
    ensures SqrtOperand(odd, m * 0x100)
  {
    assert Single.Hidden() == 0x80_0000;
    hide Format.Hidden;
    DivisionUnique(m * 0x100, m * 0x80, 2, 0);
  }

  lemma EstimateOf(a: nat, estimate: nat)
    requires a < Single.Word() && IsFinite(Single, a) && !IsZero(Single, a) && EstimateFor(a, estimate)
    ensures var an := NormalOperand(Single, a);
      GoodEstimate(Radicand(an.exponent % 2 == 1, an.significand * 0x100), estimate)
  {
  }

  lemma FiniteParts(c: Control, y: real)
    requires y >= 0.0
    ensures var r, d := Finite(Single, c, false, y), Deliver(Single, c, false, y);
      r.bits == Signed(Single, false, d.encoding) && r.flags == d.flags
  {
  }

  /** float32_sqrt, with the result of estimateSqrt32 as a parameter. */
  method Sqrt(st: FloatStatus, a: nat, estimate: nat) returns (z: nat)
    requires a < Single.Word() && EstimateFor(Squash(Single, st.control, a), estimate)
    modifies st`flags
    ensures var c := st.control;
      var a' := Squash(Single, c, a);
      var raised := old(st.flags) + SquashFlags(Single, c, a);
      if IsNaN(Single, a') then
        z == PropagateNaN(Single, c, a', 0).bits && st.flags == raised + PropagateNaN(Single, c, a', 0).flags
      else if IsZero(Single, a') then
        z == a' && st.flags == raised
      else if Negative(Single, a') then
        z == DefaultNaN(Single) && st.flags == raised + {Invalid}
      else if IsInfinite(Single, a') then
        z == a' && st.flags == raised
      else
        && (exists y: real :: RootLike(y, RootArgument(a')))
        && forall y: real :: RootLike(y, RootArgument(a')) ==>
             var r := Finite(Single, c, false, y); z == r.bits && st.flags == raised + r.flags
  {
    var a' := SquashInputDenormal(Single, st, a);
    Classes(Single, a');
    var aSig, aExp := Frac(Single, a'), Exp(Single, a');
    var aSign := Negative(Single, a');
    if aExp == 0xFF {
      if aSig != 0 {
        z := Propagate(Single, st, a', 0);
        return;
      }
      if !aSign {
        return a';
      }
      st.flags := st.flags + {Invalid};
      return DefaultNaN(Single);
    }
    if aSign {
      if aExp == 0 && aSig == 0 {
        return a';
      }
      st.flags := st.flags + {Invalid};
      return DefaultNaN(Single);
    }
    if aExp == 0 && aSig == 0 {
      return 0;
    }
    z := SqrtFinite(st, a', estimate);
  }
}
