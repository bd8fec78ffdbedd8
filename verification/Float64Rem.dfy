/** float64_rem is the exact IEEE remainder: a - b * n with n the integer nearest to a / b, ties to even. */
module Float64Rem {
  import opened Arithmetic
  import opened Powers
  import opened Words
  import opened Rounding
  import opened Sticky
  import opened RoundPack
  import opened Floats

  // ---------------------------------------------------------------- the significand

  function Neg64(a: int): u64 { (0 - a) % W64 }

  function Mul64(a: u64, b: u64): u64 { (a * b) % W64 }

  /** The estimated quotient of a * 2^64 by b, lowered so that it cannot exceed the true one. */
  method LowQuotient(aSig: u64, bSig: u64) returns (q: u64)
    requires bSig >= W63 && aSig < bSig
    ensures q * bSig <= aSig * W64 < (q + 3) * bSig
  {
    var z := EstimateDiv128To64(Pair(aSig, 0), bSig);
    q := if 2 < z then z - 2 else 0;
    LoweredEstimate(aSig, bSig, z);
  }

  lemma LoweredEstimate(aSig: u64, bSig: u64, z: u64)
    requires bSig >= W63 && (z - 2) * bSig <= aSig * W64 < (z + 1) * bSig
    ensures var q := if 2 < z then z - 2 else 0;
      q * bSig <= aSig * W64 < (q + 3) * bSig
  {
    if z <= 2 {
      ProductMonotone(bSig, z + 1, 3);
    }
  }

  /** What is left of the dividend: N = n * b + a * 2^e with a below b, where n is even if digits remain. */
  ghost predicate Reduced(dividend: nat, bSig: u64, n: nat, aSig: u64, e: int) {
    && aSig < bSig && aSig % 4 == 0
    && (e > 0 ==> n % 2 == 0)
    && dividend == n * bSig + aSig * Pow2(if e > 0 then e else 0)
  }

  /** Multiplying modulo 2^64 keeps the remainder of a reduction step, which fits into a word. */
  lemma ReductionWord(aSig: u64, bSig: u64, c: nat, q: u64)
    requires aSig % 4 == 0 && bSig == 16 * c && q * bSig <= aSig * W64 < (q + 3) * bSig
    ensures var rest := Neg64(Mul64(bSig / 4, q));
      4 * rest == aSig * W64 - q * bSig && rest % 4 == 0 && rest < bSig
  {
    var k, w := aSig / 4, c * q;
    WordProducts(c, q);
    assert bSig / 4 == 4 * c;
    var exact := k * W64 - 4 * w;
    NegatedProduct(4 * w, k, exact);
    DivisionUnique(exact, k * 0x4000_0000_0000_0000 - w, 4, 0);
  }

  lemma WordProducts(c: nat, q: nat)
    ensures q * (16 * c) == 16 * (c * q) && (q + 3) * (16 * c) == 16 * (c * q) + 48 * c
    ensures (4 * c) * q == 4 * (c * q)
  {
  }

  lemma NegatedProduct(p: nat, k: nat, exact: nat)
    requires exact == k * W64 - p && exact < W64
    ensures Neg64(p % W64) == exact
  {
    assert p == k * W64 - exact;
    if exact == 0 {
      DivisionUnique(p, k, W64, 0);
    } else {
      DivisionUnique(p, k - 1, W64, W64 - exact);
    }
  }

  lemma ReductionStep(dividend: nat, bSig: u64, n: nat, aSig: u64, e: nat, q: u64, rest: u64)
    requires Reduced(dividend, bSig, n, aSig, e) && e > 64 && rest < bSig && rest % 4 == 0
    requires 4 * rest == aSig * W64 - q * bSig
    ensures Reduced(dividend, bSig, n + q * Pow2(e - 64), rest, e - 62)
  {
    var p := Pow2(e - 64);
    WordIsPow2(Double);
    Pow2Add(64, e - 64);
    assert Pow2(e - 62) == 4 * p;
    assert p == 2 * Pow2(e - 65);
    hide Pow2;
    StepSum(n, bSig, aSig, q, rest, p);
    EvenSum(n, q, p / 2);
  }

  lemma StepSum(n: nat, b: nat, a: nat, q: nat, rest: nat, p: nat)
    requires 4 * rest == a * W64 - q * b
    ensures n * b + a * (W64 * p) == (n + q * p) * b + rest * (4 * p)
  {
    assert a * (W64 * p) == (a * W64) * p == (q * b + 4 * rest) * p;
    assert (q * b + 4 * rest) * p == (q * p) * b + rest * (4 * p);
    assert (n + q * p) * b == n * b + (q * p) * b;
  }

  lemma EvenSum(n: nat, q: nat, half: nat)
    requires n % 2 == 0
    ensures (n + q * (2 * half)) % 2 == 0
  {
    DivisionUnique(n + q * (2 * half), n / 2 + q * half, 2, 0);
  }

  /** The last partial quotient, of e bits. */
  lemma LastQuotient(aSig: u64, bSig: u64, qe: u64, e: nat)
    requires 0 < e <= 64 && bSig > 0 && qe * bSig <= aSig * W64 < (qe + 3) * bSig
    ensures var q := Shr(qe, 64 - e);
      q * bSig <= aSig * Pow2(e) < (q + 3) * bSig
  {
    hide *;
    var p, w := Pow2(64 - e), Pow2(e);
    WordIsPow2(Double);
    DoubleWord();
    Pow2Add(e, 64 - e);
    var r := ShrParts(qe, 64 - e);
    Regroup(aSig, w, p);
    LastBounds(aSig * w, bSig, Shr(qe, 64 - e), r, p, qe);
  }

  lemma DoubleWord()
    ensures Double.Word() == W64 && Double.Width() == 64
  {
  }

  lemma LastBounds(n: nat, b: nat, q: nat, r: nat, p: nat, qe: nat)
    requires qe == q * p + r && r < p && b > 0 && qe * b <= n * p < (qe + 3) * b
    ensures q * b <= n < (q + 3) * b
  {
    var x := q * b;
    assert qe * b == x * p + r * b by {
      SplitProduct(q, p, r, b);
    }
    assert (qe + 3) * b == x * p + (r + 3) * b by {
      SplitProduct(q, p, r + 3, b);
    }
    ProductMonotone(b, r + 3, 3 * p);
    ProductMonotone(b, 0, r);
    assert b * (3 * p) == (3 * b) * p && (x + 3 * b) * p == x * p + (3 * b) * p;
    CancelFactor(x, n, p);
    CancelFactor(x + 3 * b, n, p);
    assert (q + 3) * b == x + 3 * b;
  }

  lemma SplitProduct(q: int, p: int, r: int, b: int)
    ensures (q * p + r) * b == (q * b) * p + r * b
  {
  }

  /** dividend = n * b + 4 * s with s, possibly negative, kept in a word, and the parity of n in q. */
  ghost predicate Residue(dividend: nat, bSig: u64, n: nat, aSig: u64, s: int, q: u64) {
    && dividend == n * bSig + 4 * s
    && aSig == (if s < 0 then s + W64 else s)
    && q % 2 == n % 2
  }

  lemma SubtractOnce(dividend: nat, bSig: u64, n: nat, aSig: u64, s: int, q: u64)
    requires Residue(dividend, bSig, n, aSig, s, q) && bSig % 4 == 0 && 0 <= s < W64
    ensures Residue(dividend, bSig, n + 1, Sub64(aSig, bSig / 4), s - bSig / 4, Add64(q, 1))
  {
    NextMultiple(n, bSig);
    StepWords(n, aSig, s, q, bSig / 4);
    hide Sub64, Add64;
  }

  lemma NextMultiple(n: nat, d: nat)
    ensures (n + 1) * d == n * d + d
  {
  }

  lemma StepWords(n: nat, aSig: u64, s: int, q: u64, c: u64)
    requires aSig == s && q % 2 == n % 2
    ensures Sub64(aSig, c) == (if s - c < 0 then s - c + W64 else s - c)
    ensures Add64(q, 1) % 2 == (n + 1) % 2
  {
  }

  /** The alternate remainder, one divisor more, belongs to the quotient before the last step. */
  lemma TakeAlternate(dividend: nat, bSig: u64, n: nat, s: int)
    requires dividend == n * bSig + 4 * s && bSig % 4 == 0 && n > 0
    ensures dividend == (n - 1) * bSig + 4 * (s + bSig / 4)
  {
    assert (n - 1) * bSig == n * bSig - bSig;
  }

  function SignedInt(negative: bool, n: int): int { if negative then 0 - n else n }

  /** How the significand part ends: a signed remainder r for the quotient n, at most half the divisor. */
  ghost predicate NearestRemainder(dividend: nat, bSig: u64, n: nat, r: int) {
    && dividend == n * bSig + 4 * r
    && 0 <= 8 * r + bSig <= 2 * bSig
    && (8 * r == bSig || 8 * r + bSig == 0 ==> n % 2 == 0)
  }

  /** The last part of float64_rem: step below zero, then take the closer of the last two remainders. */
  method Finish(ghost dividend: nat, bSig: u64, ghost n0: nat, aSig0: u64, q0: u64)
    returns (zSign: bool, zSig: u64, ghost n: nat)
    requires bSig >= W63 && bSig % 4 == 0 && 4 * aSig0 < 3 * bSig
    requires Residue(dividend, bSig, n0, aSig0, aSig0, q0)
    ensures NearestRemainder(dividend, bSig, n, SignedInt(zSign, zSig))
    ensures zSign ==> zSig > 0
  {
    var b4 := bSig / 4;
    var alternateASig := aSig0;
    var q, aSig := Add64(q0, 1), Sub64(aSig0, b4);
    SubtractOnce(dividend, bSig, n0, aSig0, aSig0, q0);
    n := n0 + 1;
    ghost var s := aSig0 - b4;
    while !Negative64(aSig)
      invariant n > 0 && -b4 <= s < 2 * b4 && alternateASig == s + b4
      invariant Residue(dividend, bSig, n, aSig, s, q)
      decreases s + b4
    {
      SubtractOnce(dividend, bSig, n, aSig, s, q);
      alternateASig := aSig;
      q := Add64(q, 1);
      aSig := Sub64(aSig, b4);
      n := n + 1;
      s := s - b4;
    }
    ChooseNearest(dividend, bSig, n, s);
    var sigMean := Add64(aSig, alternateASig);
    assert Negative64(sigMean) <==> 2 * s + b4 < 0;
    assert sigMean == 0 <==> 2 * s + b4 == 0;
    hide NearestRemainder;
    if Negative64(sigMean) || (sigMean == 0 && q % 2 == 1) {
      aSig := alternateASig;
      n := n - 1;
    }
    zSign := Negative64(aSig);
    zSig := if zSign then Sub64(0, aSig) else aSig;
  }

  /** Of the last two remainders the one nearer to zero is right, the even quotient for a tie. */
  lemma ChooseNearest(dividend: nat, bSig: u64, n: nat, s: int)
    requires dividend == n * bSig + 4 * s && bSig % 4 == 0 && n > 0 && -(bSig as int / 4) <= s < 0
    ensures var mean := 2 * s + bSig / 4;
      if mean < 0 || (mean == 0 && n % 2 == 1) then NearestRemainder(dividend, bSig, n - 1, s + bSig / 4)
      else NearestRemainder(dividend, bSig, n, s)
  {
    TakeAlternate(dividend, bSig, n, s);
  }

  /** The dividend as a significand and a non-negative difference of exponents. */
  ghost predicate IsDividend(dividend: nat, aSig: nat, expDiff: int) {
    dividend == aSig * Pow2(if expDiff > 0 then expDiff else 0)
  }

  lemma StartReduced(dividend: nat, aSig: u64, bSig: u64, expDiff: int) returns (n: nat)
    requires aSig < 2 * bSig && aSig % 4 == 0 && bSig % 4 == 0 && -1 <= expDiff
    requires (expDiff == -1 ==> aSig < bSig) && IsDividend(dividend, aSig, expDiff)
    ensures Reduced(dividend, bSig, n, if bSig <= aSig then aSig - bSig else aSig, expDiff)
    ensures expDiff <= 0 ==> n == if bSig <= aSig then 1 else 0
  {
    assert Pow2(0) == 1;
    var p := Pow2(if expDiff > 0 then expDiff else 0);
    if expDiff > 0 {
      EvenSum(0, 1, Pow2(expDiff - 1));
    }
    n := if bSig <= aSig then p else 0;
    hide Pow2;
    if bSig <= aSig {
      FirstBit(aSig, bSig, p);
    }
  }

  lemma FirstBit(aSig: u64, bSig: u64, p: nat)
    requires bSig <= aSig && aSig % 4 == 0 && bSig % 4 == 0
    ensures aSig * p == (1 * p) * bSig + (aSig - bSig) * p && (aSig - bSig) % 4 == 0
  {
    Difference(aSig, bSig, p);
  }

  /** One iteration of the reduction loop. */
  lemma ReduceOnce(dividend: nat, bSig: u64, n: nat, aSig: u64, e: nat, q: u64)
    requires Reduced(dividend, bSig, n, aSig, e) && e > 64 && bSig >= W63 && bSig % 16 == 0
    requires q * bSig <= aSig * W64 < (q + 3) * bSig
    ensures Reduced(dividend, bSig, n + q * Pow2(e - 64), Neg64(Mul64(bSig / 4, q)), e - 62)
  {
    hide Pow2, Neg64, Mul64;
    ReductionWord(aSig, bSig, bSig / 16, q);
    ReductionStep(dividend, bSig, n, aSig, e, q, Neg64(Mul64(bSig / 4, q)));
  }

  /** The loop that takes 62 bits of the quotient at a time. */
  method Reduce(aSig0: u64, bSig: u64, q0: u64, expDiff0: int, ghost dividend: nat, ghost n0: nat)
    returns (aSig: u64, q: u64, expDiff: int, ghost n: nat)
    requires bSig >= W63 && bSig % 16 == 0 && -65 <= expDiff0
    requires Reduced(dividend, bSig, n0, aSig0, expDiff0 + 64) && (expDiff0 + 64 <= 0 ==> n0 == q0)
    ensures expDiff <= 0 && Reduced(dividend, bSig, n, aSig, expDiff + 64)
    ensures expDiff + 64 <= 0 ==> n == q
  {
    aSig, q, expDiff, n := aSig0, q0, expDiff0, n0;
    while 0 < expDiff
      invariant -65 <= expDiff && Reduced(dividend, bSig, n, aSig, expDiff + 64)
      invariant expDiff + 64 <= 0 ==> n == q
      decreases expDiff
    {
      hide Reduced, Pow2, Neg64, Mul64;
      BelowDivisor(dividend, bSig, n, aSig, expDiff + 64);
      q := LowQuotient(aSig, bSig);
      ReduceOnce(dividend, bSig, n, aSig, expDiff + 64, q);
      n := n + q * Pow2(expDiff);
      aSig := Neg64(Mul64(bSig / 4, q));
      expDiff := expDiff - 62;
    }
  }

  lemma BelowDivisor(dividend: nat, bSig: u64, n: nat, aSig: u64, e: int)
    requires Reduced(dividend, bSig, n, aSig, e)
    ensures aSig < bSig
  {
  }

  /** The significand part of float64_rem: the dividend is aSig * 2^expDiff. */
  method RemSignificand(aSig0: u64, bSig: u64, expDiff0: int, ghost dividend: nat)
    returns (zSign: bool, zSig: u64, ghost n: nat)
    requires bSig >= W63 && bSig % 16 == 0 && aSig0 % 4 == 0 && -1 <= expDiff0
    requires (expDiff0 == -1 ==> aSig0 < bSig) && IsDividend(dividend, aSig0, expDiff0)
    ensures NearestRemainder(dividend, bSig, n, SignedInt(zSign, zSig))
    ensures zSign ==> zSig > 0
  {
    hide Reduced, Residue, Pow2, NearestRemainder, IsDividend;
    n := StartReduced(dividend, aSig0, bSig, expDiff0);
    var aSig, expDiff := aSig0, expDiff0;
    var q: u64 := if bSig <= aSig then 1 else 0;
    if q != 0 {
      aSig := aSig - bSig;
    }
    aSig, q, expDiff, n := Reduce(aSig, bSig, q, expDiff - 64, dividend, n);
    aSig, q, n := LastDigits(aSig, bSig, q, expDiff + 64, dividend, n);
    zSign, zSig, n := Finish(dividend, bSig, n, aSig, q);
  }

  /** The digits that remain, fewer than 65. */
  method LastDigits(aSig0: u64, bSig: u64, q0: u64, expDiff: int, ghost dividend: nat, ghost n0: nat)
    returns (aSig: u64, q: u64, ghost n: nat)
    requires bSig >= W63 && bSig % 16 == 0 && expDiff <= 64
    requires Reduced(dividend, bSig, n0, aSig0, expDiff) && (expDiff <= 0 ==> n0 == q0)
    ensures 4 * aSig < 3 * bSig && Residue(dividend, bSig, n, aSig, aSig, q)
  {
    BelowDivisor(dividend, bSig, n0, aSig0, expDiff);
    hide Reduced, Residue, Pow2, Shr, ShiftLeft, Mul64, Sub64;
    if 0 < expDiff {
      q := LowQuotient(aSig0, bSig);
      LastQuotient(aSig0, bSig, q, expDiff);
      q := ShiftRight(q, 64 - expDiff);
      LastWord(dividend, bSig, n0, aSig0, expDiff, q);
      aSig := Sub64(ShiftLeft(aSig0 / 2, expDiff - 1), Mul64(bSig / 4, q));
      n := n0 + q;
    } else {
      QuarterResidue(dividend, bSig, n0, aSig0, expDiff, q0);
      aSig, q, n := aSig0 / 4, q0, n0;
    }
  }

  function ShiftLeft(a: u64, count: nat): u64 { (a * Pow2(count)) % W64 }

  function ShiftRight(a: u64, count: nat): (z: u64)
    ensures z == Shr(a, count)
  {
    QuotientSmaller(a, count);
    Shr(a, count)
  }

  lemma QuarterResidue(dividend: nat, bSig: u64, n: nat, aSig: u64, e: int, q: u64)
    requires Reduced(dividend, bSig, n, aSig, e) && e <= 0 && n == q
    ensures Residue(dividend, bSig, n, aSig / 4, aSig / 4, q)
  {
    assert Pow2(0) == 1;
  }

  lemma WrappedDifference(x: nat, y: nat)
    requires 0 <= x - y < W64
    ensures Sub64(x % W64, y % W64) == x - y
  {
  }

  lemma LastWord(dividend: nat, bSig: u64, n: nat, aSig: u64, e: nat, q: u64)
    requires Reduced(dividend, bSig, n, aSig, e) && 0 < e && bSig % 16 == 0 && bSig >= W63
    requires q * bSig <= aSig * Pow2(e) < (q + 3) * bSig
    ensures var s := Sub64(ShiftLeft(aSig / 2, e - 1), Mul64(bSig / 4, q));
      4 * s < 3 * bSig && Residue(dividend, bSig, n + q, s, s, q)
  {
    var p, c := Pow2(e - 1), bSig / 4;
    var x, y := (aSig / 2) * p, c * q;
    hide *;
    ReducedIs(dividend, bSig, n, aSig, e);
    PartsOfWords(aSig, bSig, e);
    WordsOfProducts(aSig / 2, e - 1, c, q);
    ScaledDivisor(c, q, n, bSig);
    DifferenceFits(x, y, bSig, c);
    WrappedDifference(x, y);
    ParityOfSum(n, q);
    ResidueIs(dividend, bSig, n + q, x - y, q);
  }

  lemma PartsOfWords(aSig: u64, bSig: u64, e: nat)
    requires aSig % 4 == 0 && bSig % 16 == 0 && e > 0
    ensures aSig * Pow2(e) == 4 * ((aSig / 2) * Pow2(e - 1)) && bSig == 4 * (bSig / 4)
  {
    Halves(aSig, bSig);
    assert Pow2(e) == 2 * Pow2(e - 1);
    hide Pow2;
    QuadrupleProduct(aSig / 2, Pow2(e - 1), aSig);
  }

  lemma Halves(a: nat, b: nat)
    requires a % 4 == 0 && b % 16 == 0
    ensures a == 2 * (a / 2) && b == 4 * (b / 4)
  {
    DivisionUnique(a, 2 * (a / 4), 2, 0);
    DivisionUnique(b, 4 * (b / 16), 4, 0);
  }

  lemma WordsOfProducts(a: u64, count: nat, c: u64, q: u64)
    ensures ShiftLeft(a, count) == (a * Pow2(count)) % W64 && Mul64(c, q) == (c * q) % W64
    ensures a * Pow2(count) >= 0 && c * q >= 0
  {
    hide Pow2;
  }

  lemma ReducedIs(dividend: nat, bSig: u64, n: nat, aSig: u64, e: nat)
    requires Reduced(dividend, bSig, n, aSig, e) && e > 0
    ensures dividend == n * bSig + aSig * Pow2(e) && aSig % 4 == 0 && n % 2 == 0
  {
  }

  lemma ResidueIs(dividend: nat, bSig: u64, n: nat, s: u64, q: u64)
    requires dividend == n * bSig + 4 * s && q % 2 == n % 2
    ensures Residue(dividend, bSig, n, s, s, q)
  {
  }

  lemma DifferenceFits(x: int, y: int, b: u64, c: int)
    requires b == 4 * c && 4 * y <= 4 * x < 4 * y + 3 * b
    ensures 0 <= x - y < W64 && 4 * (x - y) < 3 * b
  {
  }

  lemma QuadrupleProduct(h: nat, p: nat, a: nat)
    requires a == 2 * h
    ensures a * (2 * p) == 4 * (h * p)
  {
  }

  lemma ScaledDivisor(c: nat, q: nat, n: nat, b: nat)
    requires b == 4 * c
    ensures q * b == 4 * (c * q) && (q + 3) * b == 4 * (c * q) + 3 * b && (n + q) * b == n * b + 4 * (c * q)
  {
  }

  lemma ParityOfSum(n: nat, q: nat)
    requires n % 2 == 0
    ensures (n + q) % 2 == q % 2
  {
  }

  // ---------------------------------------------------------------- the value

  /** Section 5.3.1: r = a - b * n for the integer n nearest to a / b, an even n if two are equally near. */
  ghost predicate IsRemainderFor(a: nat, b: nat, n: nat, r: int) {
    && r == a - n * b
    && 0 <= 2 * r + b <= 2 * b
    && (2 * r == b || 2 * r + b == 0 ==> n % 2 == 0)
  }

  ghost predicate IsRemainder(a: nat, b: nat, r: int) {
    exists n: nat :: IsRemainderFor(a, b, n, r)
  }

  /** The remainder is unique. */
  lemma RemainderUnique(a: nat, b: nat, r: int, r': int)
    requires b > 0 && IsRemainder(a, b, r) && IsRemainder(a, b, r')
    ensures r == r'
  {
    var n: nat :| IsRemainderFor(a, b, n, r);
    var n': nat :| IsRemainderFor(a, b, n', r');
    Difference(n', n, b);
    ProductSign(n' - n, b);
    ProductSign(n' - n - 1, b);
    ProductSign(n' - n + 1, b);
    Difference(n' - n, 1, b);
    Difference(n' - n, -1, b);
    assert (n' - n) * b == r - r';
  }

  /** The significand part read in units: u = 2^e is the weight of one of its quarters. */
  lemma DividendIs(dividend: nat, bSig: u64, n: nat, r: int)
    requires NearestRemainder(dividend, bSig, n, r)
    ensures dividend as real == (n * bSig) as real + (4 * r) as real
  {
  }

  lemma RemainderValue(dividend: nat, bSig: u64, n: nat, r: int, e: int, a: nat, b: nat)
    requires NearestRemainder(dividend, bSig, n, r)
    requires a as real == Scale(dividend as real, e) && b as real == Scale(bSig as real, e)
    ensures (a - n * b) as real == Scale(r as real, e + 2)
    ensures IsRemainderFor(a, b, n, a - n * b)
  {
    hide *;
    MultipleValue(n, b, bSig, e);
    DividendIs(dividend, bSig, n, r);
    var p, d := n * bSig, a - n * b;
    ScaleSum(p as real, (4 * r) as real, e);
    QuarterScale(r, e);
    assert d as real == Scale((4 * r) as real, e);
    HalfTest(r, bSig, e, d, b);
    NearestInUnits(dividend, bSig, n, r, a, b);
  }

  lemma MultipleValue(n: nat, b: nat, bSig: nat, e: int)
    requires b as real == Scale(bSig as real, e)
    ensures (n * b) as real == Scale((n * bSig) as real, e)
  {
    hide *;
    ScaledMultiple(n, bSig, e, b as real);
    assert (n * b) as real == n as real * b as real;
  }

  lemma NearestInUnits(dividend: nat, bSig: u64, n: nat, r: int, a: nat, b: nat)
    requires NearestRemainder(dividend, bSig, n, r)
    requires var d := a - n * b;
      && (8 * r <= bSig <==> 2 * d <= b) && (8 * r == bSig <==> 2 * d == b)
      && (8 * r + bSig >= 0 <==> 2 * d + b >= 0) && (8 * r + bSig == 0 <==> 2 * d + b == 0)
    ensures IsRemainderFor(a, b, n, a - n * b)
  {
  }

  lemma QuarterScale(r: int, e: int)
    ensures Scale((4 * r) as real, e) == Scale(r as real, e + 2)
    ensures Scale((8 * r) as real, e) == 2.0 * Scale((4 * r) as real, e)
  {
    assert Scale(r as real, 2) == (4 * r) as real && Scale((4 * r) as real, 1) == (8 * r) as real;
    ScaleAdd(r as real, 2, e);
    ScaleAdd((4 * r) as real, 1, e);
    ScaleStep((4 * r) as real, e);
  }

  lemma HalfTest(r: int, bSig: nat, e: int, d: int, b: nat)
    requires d as real == Scale((4 * r) as real, e) && b as real == Scale(bSig as real, e)
    ensures 8 * r <= bSig <==> 2 * d <= b
    ensures 8 * r == bSig <==> 2 * d == b
    ensures 8 * r + bSig >= 0 <==> 2 * d + b >= 0
    ensures 8 * r + bSig == 0 <==> 2 * d + b == 0
  {
    QuarterScale(r, e);
    ScaleOrder((8 * r) as real, bSig as real, e);
    ScaleSum((8 * r) as real, bSig as real, e);
    ScaleOrder(0.0, (8 * r + bSig) as real, e);
    ScaleZero(e);
    hide Scale;
    assert (8 * r) as real + bSig as real == (8 * r + bSig) as real;
  }

  /** The dividend and the divisor of the significand part are the operands in the same unit. */
  lemma DividendValue(an: Operand, bn: Operand, aSig: nat, expDiff: int, a: nat, b: nat)
    requires a as real == Scale(an.significand as real, an.exponent - 1)
    requires b as real == Scale(bn.significand as real, bn.exponent - 1)
    requires expDiff == an.exponent - bn.exponent >= -1
    requires aSig == an.significand * (if expDiff < 0 then 0x400 else 0x800)
    ensures var e := bn.exponent - 12;
      && a as real == Scale((aSig * Pow2(if expDiff > 0 then expDiff else 0)) as real, e)
      && b as real == Scale((bn.significand * 0x800) as real, e)
  {
    var m, n, e := an.significand as real, bn.significand as real, bn.exponent - 12;
    var top, d: int := (if expDiff < 0 then 10 else 11), if expDiff > 0 then expDiff else 0;
    PositionEleven(an.significand);
    PositionEleven(bn.significand);
    ScaleNat(aSig, d);
    ScaleAdd(m, top, d);
    ScaleAdd(m, top + d, e);
    ScaleAdd(n, 11, e);
    hide Scale, Pow2;
  }

  lemma PositionEleven(n: nat)
    ensures (n * 0x400) as real == Scale(n as real, 10) && (n * 0x800) as real == Scale(n as real, 11)
  {
    Pow2Shift8(0);
    assert Pow2(10) == 0x400 && Pow2(11) == 2 * Pow2(10);
    ScaleNat(n, 10);
    ScaleNat(n, 11);
    hide Scale, Pow2;
  }

  // ---------------------------------------------------------------- the remainder is representable

  /** A number of fewer than 54 significant bits is its own rounding. */
  lemma RepresentableIsExact(f: Format, mode: Mode, negative: bool, j: nat, t: nat)
    requires j < 2 * f.Hidden()
    ensures Scale(j as real, t) >= 0.0
    ensures Magnitude(f, RoundedEncoding(f, mode, negative, Scale(j as real, t))) as real == Scale(j as real, t)
  {
    ScaleMonotone(j as real, 0, t);
    var x := Scale(j as real, t);
    MantissaBounds(f, x);
    var k: int := Quantum(f, x);
    ScaleAdd(j as real, t, -k);
    assert Scale(j as real, -1) == j as real / 2.0;
    if k > t {
      ScaleMonotone(j as real, t - k, -1);
      assert false;
    } else {
      ScaleNat(j, t - k);
    }
    ExactIffInteger(f, mode, negative, x);
    hide Scale, Quantum, Magnitude, RoundedEncoding;
  }

  /** The remainder is a multiple of the smaller spacing and no larger than either operand. */
  lemma RemainderFits(fa: nat, ea: nat, fb: nat, eb: nat, a: nat, b: nat, n: nat, r: int)
    returns (j: nat, t: nat)
    requires fa < 2 * Double.Hidden() && fb < 2 * Double.Hidden()
    requires a == fa * Pow2(ea) && b == fb * Pow2(eb) && IsRemainderFor(a, b, n, r)
    ensures j < 2 * Double.Hidden() && Abs(r) == j * Pow2(t)
  {
    RemainderSmall(a, b, n, r);
    assert r == a - n * b;
    hide Pow2, IsRemainderFor;
    t := if ea <= eb then ea else eb;
    CoarserSpacing(fa, ea, t);
    CoarserSpacing(fb, eb, t);
    j := CommonFactor(fa * Pow2(ea - t), fb * Pow2(eb - t), n, Pow2(t), a, b, r);
    CancelFactor(j, if ea <= eb then fa else fb, Pow2(t));
  }

  lemma CoarserSpacing(f: nat, e: nat, t: nat)
    requires t <= e
    ensures f * Pow2(e) == (f * Pow2(e - t)) * Pow2(t)
  {
    hide *;
    Pow2Add(e - t, t);
    Regroup(f, Pow2(e - t), Pow2(t));
  }

  lemma RemainderSmall(a: nat, b: nat, n: nat, r: int)
    requires IsRemainderFor(a, b, n, r)
    ensures Abs(r) <= a && Abs(r) <= b
  {
    if n > 0 {
      ProductMonotone(b, 1, n);
    } else {
      assert n * b == 0;
    }
  }

  lemma CommonFactor(x: nat, y: nat, n: nat, p: nat, a: nat, b: nat, r: int) returns (j: nat)
    requires a == x * p && b == y * p && r == a - n * b
    ensures Abs(r) == j * p
  {
    j := Abs(x - n * y);
    assert r == (x - n * y) * p;
  }

  lemma StoredUnits(a: nat)
    requires a < Double.Word() && IsFinite(Double, a)
    ensures FullSig(Double, a) < 2 * Double.Hidden() && EffectiveExp(Double, a) >= 1
    ensures Units(Double, a) == FullSig(Double, a) * Pow2(EffectiveExp(Double, a) - 1)
  {
    Classes(Double, a);
    UnitsOfFields(Double, a);
    assert Pow2(0) == 1;
    hide Units, Exp, Frac, Pow2;
  }

  /** Delivering the remainder does not round. */
  lemma DeliveredRemainder(c: Control, negative: bool, a: u64, b: u64, n: nat, r: int)
    requires IsFinite(Double, a) && IsFinite(Double, b) && !c.flushToZero
    requires IsRemainderFor(Units(Double, a), Units(Double, b), n, r)
    ensures var d := Deliver(Double, c, negative, Abs(r) as real);
      d.flags == {} && d.encoding < Double.Infinity() && Magnitude(Double, d.encoding) == Abs(r)
  {
    StoredUnits(a);
    StoredUnits(b);
    RemainderSmall(Units(Double, a), Units(Double, b), n, r);
    var j, t := RemainderFits(FullSig(Double, a), EffectiveExp(Double, a) - 1, FullSig(Double, b),
                              EffectiveExp(Double, b) - 1, Units(Double, a), Units(Double, b), n, r);
    ScaleNat(j, t);
    RepresentableIsExact(Double, c.mode, negative, j, t);
    var e := RoundedEncoding(Double, c.mode, negative, Abs(r) as real);
    if e > Encoding(Double, a) {
      MagnitudeStep(Double, Encoding(Double, a));
      MagnitudeMonotone(Double, Encoding(Double, a) + 1, e);
    }
    hide Scale, Magnitude, RoundedEncoding, FullSig, EffectiveExp, IsRemainderFor, Pow2;
  }

  /** z is the remainder of a and b, with the sign of a when it is zero. */
  ghost predicate IsRemOf(a: nat, b: nat, z: nat) {
    && z < Double.Word() && IsFinite(Double, z)
    && IsRemainder(Units(Double, a), Units(Double, b),
                   SignedInt(Negative(Double, z) != Negative(Double, a), Units(Double, z)))
    && (IsZero(Double, z) ==> Negative(Double, z) == Negative(Double, a))
  }

  /** The dividend is returned as it is because its exponent is at least two below that of the divisor. */
  predicate ReturnsDividend(a: u64, b: u64)
    requires IsFinite(Double, a) && IsFinite(Double, b)
  {
    IsZero(Double, a)
    || (!IsZero(Double, b) && NormalOperand(Double, a).exponent + 1 < NormalOperand(Double, b).exponent)
  }

  /**
   What float64_rem delivers for an exact remainder e.  With flush_to_zero a subnormal remainder becomes a zero
   of its sign, unless the dividend is returned, and a zero remainder of small operands reports a denormal output.
   */
  predicate IsDelivered(c: Control, a: u64, b: u64, e: nat, z: nat, flags: set<Flag>)
    requires IsFinite(Double, a) && IsFinite(Double, b) && !IsZero(Double, b)
  {
    if !c.flushToZero || ReturnsDividend(a, b) then z == e && flags == {}
    else if IsZero(Double, e) then
      z == e && flags == if NormalOperand(Double, b).exponent < 63 then {OutputDenormal} else {}
    else if Units(Double, e) < Double.Hidden() then
      z == Signed(Double, Negative(Double, e), 0) && flags == {OutputDenormal}
    else z == e && flags == {}
  }

  /** The same in terms of the remainder. */
  lemma FlushedRemainder(c: Control, a: u64, b: u64, e: nat, z: nat, flags: set<Flag>)
    requires IsFinite(Double, a) && IsFinite(Double, b) && !IsZero(Double, b)
    requires IsRemOf(a, b, e) && IsDelivered(c, a, b, e, z, flags) && c.flushToZero
    ensures Outcome(z, flags) == Finite(Double, c, Negative(Double, e), Units(Double, e) as real)
       <==> if ReturnsDividend(a, b) then IsZero(Double, e) || Units(Double, e) >= Double.Hidden()
            else !IsZero(Double, e) || NormalOperand(Double, b).exponent >= 63
  {
    var x := Units(Double, e);
    hide NormalOperand, IsRemainder, Scale, RoundedEncoding, Negative;
    FiniteParts(e);
    NumberIsDelivered(c, Negative(Double, e), Encoding(Double, e));
    hide Deliver, Encoding, Units, Signed, Magnitude;
    if 0 < x < Double.Hidden() {
      FlushedIs(c, Negative(Double, e), x);
      SignedIsOneToOne(Negative(Double, e), Encoding(Double, e));
    }
  }

  lemma SignedIsOneToOne(negative: bool, w: nat)
    ensures Signed(Double, negative, w) == Signed(Double, negative, 0) <==> w == 0
  {
  }

  lemma FiniteParts(e: nat)
    requires e < Double.Word() && IsFinite(Double, e)
    ensures e == Signed(Double, Negative(Double, e), Encoding(Double, e)) && Encoding(Double, e) < Double.Infinity()
    ensures Units(Double, e) == Magnitude(Double, Encoding(Double, e))
    ensures IsZero(Double, e) <==> Units(Double, e) == 0
  {
    if !IsZero(Double, e) {
      MagnitudeStep(Double, 0);
      MagnitudeMonotone(Double, 1, Encoding(Double, e));
    }
    assert Magnitude(Double, 0) == 0;
    hide Magnitude;
  }

  /** A finite number that is not flushed is delivered as it is. */
  lemma NumberIsDelivered(c: Control, negative: bool, w: nat)
    requires w < Double.Infinity()
    ensures var x := Magnitude(Double, w);
      !(c.flushToZero && 0 < x < Double.Hidden()) ==> Deliver(Double, c, negative, x as real) == Rounded(w, {})
  {
    var k, m := Normalize(Double, w);
    MagnitudeOfSum(Double, k, m);
    ExactEncoding(Double, c.mode, negative, m, k);
    hide Scale, Magnitude, RoundedEncoding, Encode, Pow2;
  }

  lemma FlushedIs(c: Control, negative: bool, x: nat)
    requires c.flushToZero && 0 < x < Double.Hidden()
    ensures Deliver(Double, c, negative, x as real) == Rounded(0, {OutputDenormal})
  {
  }

  /** The remainder is zero exactly for multiples of the divisor. */
  lemma ZeroRemainder(a: u64, b: u64, e: nat)
    requires IsRemOf(a, b, e) && Units(Double, b) > 0
    ensures Units(Double, e) == 0 <==> Units(Double, a) % Units(Double, b) == 0
  {
    var x, y := Units(Double, a), Units(Double, b);
    var r := SignedInt(Negative(Double, e) != Negative(Double, a), Units(Double, e));
    hide Units, Negative;
    ZeroOfMultiple(x, y, r);
  }

  lemma ZeroOfMultiple(x: nat, y: nat, r: int)
    requires y > 0 && IsRemainder(x, y, r)
    ensures r == 0 <==> x % y == 0
  {
    var n: nat :| IsRemainderFor(x, y, n, r);
    if r == 0 {
      DivisionUnique(x, n, y, 0);
    }
    if x % y == 0 {
      var q := x / y;
      assert x == q * y;
      assert IsRemainderFor(x, y, q, 0);
      RemainderUnique(x, y, r, 0);
    }
  }

  /** A dividend that is returned is the remainder. */
  lemma DividendIsRemainder(a: u64, b: u64, e: nat)
    requires IsFinite(Double, a) && IsFinite(Double, b) && !IsZero(Double, b)
    requires ReturnsDividend(a, b) && IsRemOf(a, b, e) && Units(Double, b) > 0
    ensures Units(Double, e) == Units(Double, a) && Negative(Double, e) == Negative(Double, a)
  {
    if IsZero(Double, a) {
      ZeroDividend(a, b);
    } else {
      OperandValue(Double, a);
      OperandValue(Double, b);
      hide Units, NormalOperand, Scale, IsRemainder;
      SmallDividend(a, b, NormalOperand(Double, a), NormalOperand(Double, b));
    }
    hide Units, IsRemainder;
    RemainderUnique(Units(Double, a), Units(Double, b), Units(Double, a),
                    SignedInt(Negative(Double, e) != Negative(Double, a), Units(Double, e)));
  }

  /**
   The delivered remainder and its flags are those that flush_to_zero asks for if and only if a dividend that is
   returned is not subnormal, and a dividend that is divided is no multiple of a small divisor.
   */
  lemma RemFlushesExactly(c: Control, a: u64, b: u64, e: nat, z: nat, flags: set<Flag>)
    requires IsFinite(Double, a) && IsFinite(Double, b) && !IsZero(Double, b) && c.flushToZero
    requires IsRemOf(a, b, e) && IsDelivered(c, a, b, e, z, flags)
    ensures Units(Double, b) > 0
    ensures Outcome(z, flags) == Finite(Double, c, Negative(Double, e), Units(Double, e) as real)
       <==> if ReturnsDividend(a, b) then IsZero(Double, a) || Units(Double, a) >= Double.Hidden()
            else Units(Double, a) % Units(Double, b) != 0 || NormalOperand(Double, b).exponent >= 63
  {
    FiniteParts(a);
    FiniteParts(b);
    hide *;
    RemIsFinite(a, b, e);
    FiniteParts(e);
    FlushedRemainder(c, a, b, e, z, flags);
    if ReturnsDividend(a, b) {
      DividendIsRemainder(a, b, e);
    } else {
      ZeroRemainder(a, b, e);
    }
  }

  lemma RemIsFinite(a: nat, b: nat, e: nat)
    requires IsRemOf(a, b, e)
    ensures e < Double.Word() && IsFinite(Double, e)
  {
  }

  /** The smallest subnormal comes back as its own remainder by one, though results are flushed. */
  lemma SubnormalIsReturned(c: Control, e: nat, z: nat, flags: set<Flag>)
    requires c.flushToZero
    ensures var a, one := 1, 0x3FF0_0000_0000_0000;
      && IsFinite(Double, a) && IsFinite(Double, one) && !IsZero(Double, one)
      && (IsRemOf(a, one, e) && IsDelivered(c, a, one, e, z, flags) ==>
            z == a && flags == {})
      && Finite(Double, c, false, Units(Double, a) as real) == Outcome(0, {OutputDenormal})
  {
    var a: u64, one: u64 := 1, 0x3FF0_0000_0000_0000;
    SmallestSubnormal();
    One();
    hide *;
    FiniteParts(one);
    FlushedIs(c, false, 1);
    FinishedAs(c, Rounded(0, {OutputDenormal}), 1);
    if IsRemOf(a, one, e) && IsDelivered(c, a, one, e, z, flags) {
      DividendIsRemainder(a, one, e);
      RemIsFinite(a, one, e);
      FiniteParts(e);
      SmallestUnit(Encoding(Double, e));
      ReturnedAsItIs(c, a, one, e, z, flags);
      SignedPositive(1);
    }
  }

  lemma SmallestSubnormal()
    ensures IsFinite(Double, 1) && !IsZero(Double, 1) && Units(Double, 1) == 1 && !Negative(Double, 1)
    ensures NormalOperand(Double, 1).exponent <= 0
  {
    SmallestExponent();
    hide NormalizeSubnormal, Pow2;
  }

  lemma SmallestExponent()
    ensures NormalizeSubnormal(Double, 1).exponent <= 0
  {
    WordIsPow2(Double);
    hide NormalizeSubnormal, Pow2, Scale;
    SubnormalValue(Double, 1);
  }

  lemma One()
    ensures var one := 0x3FF0_0000_0000_0000;
      && one < Double.Word() && IsFinite(Double, one) && !IsZero(Double, one)
      && NormalOperand(Double, one).exponent == 0x3FF
      && (NormalOperand(Double, 1).exponent <= 0 && IsFinite(Double, 1) && !IsZero(Double, 1) ==> ReturnsDividend(1, one))
  {
    hide NormalizeSubnormal;
  }

  lemma FinishedAs(c: Control, r: Rounded, x: nat)
    requires Deliver(Double, c, false, x as real) == r
    ensures Finite(Double, c, false, x as real) == Outcome(r.encoding, r.flags)
  {
    hide Deliver;
  }

  lemma ReturnedAsItIs(c: Control, a: u64, b: u64, e: nat, z: nat, flags: set<Flag>)
    requires IsFinite(Double, a) && IsFinite(Double, b) && !IsZero(Double, b)
    requires ReturnsDividend(a, b) && IsDelivered(c, a, b, e, z, flags)
    ensures z == e && flags == {}
  {
  }

  lemma SignedPositive(w: nat)
    ensures Signed(Double, false, w) == w
  {
  }

  lemma SmallestUnit(w: nat)
    requires Magnitude(Double, w) == 1
    ensures w == 1
  {
    assert Magnitude(Double, 0) == 0 && Magnitude(Double, 1) == 1;
    if w > 1 {
      MagnitudeStep(Double, 1);
      MagnitudeMonotone(Double, 2, w);
    }
    hide Magnitude;
  }

  /** The smallest normal number by itself leaves a zero that reports a denormal output. */
  lemma ZeroReportsDenormal(c: Control, e: nat, z: nat, flags: set<Flag>)
    requires c.flushToZero
    ensures var a := 0x10_0000_0000_0000;
      && IsFinite(Double, a) && !IsZero(Double, a)
      && (IsRemOf(a, a, e) && IsDelivered(c, a, a, e, z, flags) ==> z == 0 && flags == {OutputDenormal})
      && Finite(Double, c, false, 0.0) == Outcome(0, {})
  {
    var a: u64 := 0x10_0000_0000_0000;
    assert NormalOperand(Double, a).exponent == 1;
    hide NormalOperand, Pow2;
    FiniteParts(a);
    ZeroResult(Double, c, false, 0);
    if IsRemOf(a, a, e) && IsDelivered(c, a, a, e, z, flags) {
      ZeroRemainder(a, a, e);
      RemIsFinite(a, a, e);
      hide Units, IsRemainder;
      FiniteParts(e);
    }
  }

  /** A dividend at least four times smaller in exponent is its own remainder. */
  lemma SmallDividend(a: u64, b: u64, an: Operand, bn: Operand)
    requires IsFinite(Double, a) && an.exponent - bn.exponent < -1
    requires an.significand < 2 * Double.Hidden() && Double.Hidden() <= bn.significand
    requires Units(Double, a) as real == Scale(an.significand as real, an.exponent - 1)
    requires Units(Double, b) as real == Scale(bn.significand as real, bn.exponent - 1)
    ensures IsRemOf(a, b, a)
  {
    var e := bn.exponent - 1;
    ScaleMonotone(an.significand as real, an.exponent - 1, e - 2);
    ScaleAdd(an.significand as real, -2, e);
    assert Scale(an.significand as real, -2) == an.significand as real / 4.0;
    ScaleStep(an.significand as real / 4.0, e);
    ScaleAdd(an.significand as real / 4.0, 1, e);
    assert Scale(an.significand as real / 4.0, 1) == an.significand as real / 2.0;
    ScaleOrder(an.significand as real / 2.0, bn.significand as real, e);
    hide Scale;
    assert 2 * Units(Double, a) < Units(Double, b);
    assert IsRemainderFor(Units(Double, a), Units(Double, b), 0, Units(Double, a));
  }

  /** The exact remainder, delivered: no rounding and no flag. */
  lemma RemDelivered(c: Control, a: u64, b: u64, n: nat, zSign: bool, zSig: nat, e: int, x: real)
    requires IsFinite(Double, a) && IsFinite(Double, b) && !c.flushToZero && (zSign ==> zSig > 0)
    requires x >= 0.0 && x == Scale(zSig as real, e)
    requires var d := Units(Double, a) - n * Units(Double, b);
      IsRemainderFor(Units(Double, a), Units(Double, b), n, d) && d as real == Scale(SignedInt(zSign, zSig) as real, e)
    ensures var negative := Negative(Double, a) != zSign;
      var d := Deliver(Double, c, negative, x);
      var z := Signed(Double, negative, d.encoding);
      && IsRemOf(a, b, z) && d.flags == {}
      && Units(Double, z) as real == x && Negative(Double, z) == negative && z == Signed(Double, negative, Encoding(Double, z))
      && (IsZero(Double, z) <==> x == 0.0)
  {
    var d := Units(Double, a) - n * Units(Double, b);
    var negative := Negative(Double, a) != zSign;
    SignOfRemainder(zSign, zSig, e, d, x);
    hide Scale, Deliver, IsRemainderFor, Magnitude, Units, IsFinite, SignedInt;
    DeliveredRemainder(c, negative, a, b, n, d);
    var w := Deliver(Double, c, negative, x).encoding;
    RemainderHas(a, b, n, d, zSign, w);
    PartsOfSigned(negative, w);
    FiniteParts(Signed(Double, negative, w));
  }

  lemma PartsOfSigned(negative: bool, w: nat)
    requires w < Double.Infinity()
    ensures var z := Signed(Double, negative, w);
      && z < Double.Word() && IsFinite(Double, z) && Negative(Double, z) == negative && Encoding(Double, z) == w
      && Units(Double, z) == Magnitude(Double, w)
  {
    hide Magnitude;
  }

  lemma SignOfRemainder(zSign: bool, zSig: nat, e: int, d: int, x: real)
    requires d as real == Scale(SignedInt(zSign, zSig) as real, e) && x == Scale(zSig as real, e)
    requires x >= 0.0 && (zSign ==> zSig > 0)
    ensures x == Abs(d) as real && d == SignedInt(zSign, Abs(d)) && (zSign ==> d < 0)
  {
    NegatedScale(zSig, e);
    ScaleOrder(0.0, zSig as real, e);
    ScaleZero(e);
    hide Scale;
    if zSign {
      assert d as real == -x;
    }
  }

  /** An encoding of the remainder with the sign that goes with it. */
  lemma RemainderHas(a: u64, b: u64, n: nat, d: int, zSign: bool, w: nat)
    requires w < Double.Infinity() && Magnitude(Double, w) == Abs(d)
    requires IsRemainderFor(Units(Double, a), Units(Double, b), n, d)
    requires d == SignedInt(zSign, Abs(d)) && (zSign ==> d < 0)
    ensures IsRemOf(a, b, Signed(Double, Negative(Double, a) != zSign, w))
  {
    var negative := Negative(Double, a) != zSign;
    SignedParts(Double, negative, w);
    if w == 0 {
      assert Magnitude(Double, 0) == 0;
    }
    hide IsRemainderFor, Magnitude;
    var z := Signed(Double, negative, w);
    assert Units(Double, z) == Abs(d);
    assert Negative(Double, z) != Negative(Double, a) <==> zSign;
    assert IsRemainder(Units(Double, a), Units(Double, b), d);
  }

  lemma JamsItself(zSign: bool, zSig: nat, dividend: nat, bSig: u64, n: nat, bExp: int)
    requires NearestRemainder(dividend, bSig, n, SignedInt(zSign, zSig)) && -0x7F00 <= bExp < 0x7FF
    ensures Normalizable(Double, bExp, zSig, zSig as real) && Double.GuardBits() == 10
  {
  }

  lemma NegatedScale(m: nat, e: int)
    ensures Scale((0 - m) as real, e) == -Scale(m as real, e)
  {
    ScaleSum(m as real, (0 - m) as real, e);
    ScaleZero(e);
  }

  lemma ShiftedOperands(am: nat, bm: nat, aSig: nat, bSig: nat, expDiff: int)
    requires Double.Hidden() <= am < 2 * Double.Hidden() && Double.Hidden() <= bm < 2 * Double.Hidden()
    requires aSig == (if expDiff < 0 then (am * 0x800) / 2 else am * 0x800) && bSig == bm * 0x800
    ensures aSig < W64 && W63 <= bSig < W64 && bSig % 16 == 0 && aSig % 4 == 0 && (expDiff < 0 ==> aSig < bSig)
    ensures aSig == am * (if expDiff < 0 then 0x400 else 0x800)
  {
    DivisionUnique(am * 0x800, am * 0x400, 2, 0);
    DivisionUnique(bSig, bm * 0x80, 16, 0);
    DivisionUnique(aSig, am * (if expDiff < 0 then 0x100 else 0x200), 4, 0);
  }

  /** The part of float64_rem for finite non-zero operands. */
  method RemFinite(st: FloatStatus, a: u64, b: u64) returns (z: nat, ghost exact: nat, ghost raised: set<Flag>)
    requires IsFinite(Double, a) && !IsZero(Double, a) && IsFinite(Double, b) && !IsZero(Double, b)
    modifies st`flags
    ensures IsRemOf(a, b, exact) && IsDelivered(st.control, a, b, exact, z, raised) && st.flags == old(st.flags) + raised
  {
    var an, bn := NormalOperand(Double, a), NormalOperand(Double, b);
    OperandValue(Double, a);
    OperandValue(Double, b);
    hide Scale, Units, NormalOperand, IsRemOf, Pow2, IsFinite, IsZero, Signed;
    var expDiff := an.exponent - bn.exponent;
    var aSig, bSig := an.significand * 0x800, bn.significand * 0x800;
    if expDiff < 0 {
      if expDiff < -1 {
        SmallDividend(a, b, an, bn);
        return a, a, {};
      }
      aSig := aSig / 2;
    }
    ShiftedOperands(an.significand, bn.significand, aSig, bSig, expDiff);
    DividendValue(an, bn, aSig, expDiff, Units(Double, a), Units(Double, b));
    z, exact, raised := RemScaled(st, a, b, aSig, bSig, expDiff, bn.exponent);
  }

  /** The same for operands that are scaled to a common exponent. */
  method RemScaled(st: FloatStatus, a: u64, b: u64, aSig: u64, bSig: u64, expDiff: int, bExp: int)
    returns (z: nat, ghost exact: nat, ghost raised: set<Flag>)
    requires IsFinite(Double, a) && IsFinite(Double, b) && -0x7F00 <= bExp < 0x7FF
    requires !IsZero(Double, b) && !ReturnsDividend(a, b) && bExp == NormalOperand(Double, b).exponent
    requires bSig >= W63 && bSig % 16 == 0 && aSig % 4 == 0 && -1 <= expDiff
    requires expDiff == -1 ==> aSig < bSig
    requires Units(Double, a) as real
          == Scale((aSig * Pow2(if expDiff > 0 then expDiff else 0)) as real, bExp - 12)
    requires Units(Double, b) as real == Scale(bSig as real, bExp - 12)
    modifies st`flags
    ensures IsRemOf(a, b, exact) && IsDelivered(st.control, a, b, exact, z, raised) && st.flags == old(st.flags) + raised
  {
    hide Scale, Units, Deliver, Same, Normalizable, NearestRemainder, IsRemainderFor, Pow2, IsRemOf, ReturnsDividend,
      NormalOperand, IsFinite, IsZero, Signed, Encoding, IsDelivered;
    ghost var dividend := aSig * Pow2(if expDiff > 0 then expDiff else 0);
    ghost var n;
    var zSign: bool, zSig: u64;
    zSign, zSig, n := RemSignificand(aSig, bSig, expDiff, dividend);
    RemainderValue(dividend, bSig, n, SignedInt(zSign, zSig), bExp - 12, Units(Double, a), Units(Double, b));
    JamsItself(zSign, zSig, dividend, bSig, n, bExp);
    z := NormalizeRoundAndPack(Double, st, Negative(Double, a) != zSign, bExp, zSig, zSig as real);
    ghost var negative, x, c := Negative(Double, a) != zSign, Scale(zSig as real, bExp - 10), st.control;
    ghost var c' := c.(flushToZero := false);
    RemDelivered(c', a, b, n, zSign, zSig, bExp - 10, x);
    exact := Signed(Double, negative, Deliver(Double, c', negative, x).encoding);
    ScaleZero(bExp - 10);
    ScaleOrder(0.0, zSig as real, bExp - 10);
    raised := if zSig == 0 && c.flushToZero then (if bExp < 63 then {OutputDenormal} else {})
              else Deliver(Double, c, negative, x).flags;
    DeliveredOrFlushed(c, a, b, negative, x, exact, z, raised);
  }

  lemma DeliveredOrFlushed(c: Control, a: u64, b: u64, negative: bool, x: real, exact: nat, z: nat, raised: set<Flag>)
    requires IsFinite(Double, a) && IsFinite(Double, b) && !IsZero(Double, b) && !ReturnsDividend(a, b) && x >= 0.0
    requires var d := Deliver(Double, c.(flushToZero := false), negative, x);
      && d.flags == {} && exact == Signed(Double, negative, d.encoding) && Units(Double, exact) as real == x
      && Negative(Double, exact) == negative && exact == Signed(Double, negative, Encoding(Double, exact))
      && (IsZero(Double, exact) <==> x == 0.0)
    requires if x == 0.0 && c.flushToZero then
        z == Signed(Double, negative, 0)
        && raised == if NormalOperand(Double, b).exponent < 63 then {OutputDenormal} else {}
      else var d := Deliver(Double, c, negative, x); z == Signed(Double, negative, d.encoding) && raised == d.flags
    ensures IsDelivered(c, a, b, exact, z, raised)
  {
    hide Round, Units, Signed, NormalOperand, ReturnsDividend;
  }

  /** float64_rem: exact whenever it is defined, up to flush_to_zero. */
  method Rem(st: FloatStatus, a: u64, b: u64) returns (z: nat, ghost exact: nat, ghost raised: set<Flag>)
    modifies st`flags
    ensures var c := st.control;
      var a', b' := Squash(Double, c, a), Squash(Double, c, b);
      var before := old(st.flags) + SquashFlags(Double, c, a) + SquashFlags(Double, c, b);
      if IsNaN(Double, a') || IsNaN(Double, b') then
        z == PropagateNaN(Double, c, a', b').bits
        && st.flags == before + PropagateNaN(Double, c, a', b').flags
      else if IsInfinite(Double, a') || IsZero(Double, b') then
        z == DefaultNaN(Double) && st.flags == before + {Invalid}
      else if IsInfinite(Double, b') then
        z == a' && st.flags == before
      else
        IsRemOf(a', b', exact) && IsDelivered(c, a', b', exact, z, raised) && st.flags == before + raised
  {
    var a' := SquashInputDenormal(Double, st, a);
    var b' := SquashInputDenormal(Double, st, b);
    Classes(Double, a');
    Classes(Double, b');
    hide Units, Exp, Frac, PropagateNaN, Squash, SquashFlags, IsNaN, IsInfinite, IsFinite, IsZero, IsRemOf, NormalOperand, Signed;
    exact, raised := 0, {};
    var aSig, aExp := Frac(Double, a'), Exp(Double, a');
    var bSig, bExp := Frac(Double, b'), Exp(Double, b');
    if aExp == 0x7FF {
      if aSig != 0 || (bExp == 0x7FF && bSig != 0) {
        z := Propagate(Double, st, a', b');
        return;
      }
      st.flags := st.flags + {Invalid};
      return DefaultNaN(Double), 0, {};
    }
    if bExp == 0x7FF {
      if bSig != 0 {
        z := Propagate(Double, st, a', b');
        return;
      }
      return a', 0, {};
    }
    if bExp == 0 && bSig == 0 {
      st.flags := st.flags + {Invalid};
      return DefaultNaN(Double), 0, {};
    }
    if aExp == 0 && aSig == 0 {
      ZeroDividend(a', b');
      return a', a', {};
    }
    z, exact, raised := RemFinite(st, a', b');
  }

  lemma ZeroDividend(a: u64, b: u64)
    requires IsZero(Double, a)
    ensures IsRemOf(a, b, a)
  {
    assert Units(Double, a) == 0;
    assert IsRemainderFor(0, Units(Double, b), 0, 0);
    hide Units;
  }
}
