/** The multi-word arithmetic of softfloat-macros.h: words are naturals modulo 2^64. */
module Words {
  import opened Arithmetic

  const W32: nat := 0x1_0000_0000
  const W62: nat := 0x4000_0000_0000_0000
  const W63: nat := 0x8000_0000_0000_0000
  const W64: nat := 0x1_0000_0000_0000_0000

  type u32 = n: nat | n < 0x1_0000_0000

  type u64 = x: int | 0 <= x < 0x1_0000_0000_0000_0000

  /** A 128-bit value as its high and low words. */
  datatype Pair = Pair(hi: u64, lo: u64) {
    function Value(): nat { hi * W64 + lo }
  }

  function Add64(a: u64, b: u64): (z: u64)
    ensures z == if a + b < W64 then a + b else a + b - W64
  {
    (a + b) % W64
  }

  function Sub64(a: u64, b: u64): (z: u64)
    ensures z == if a < b then a - b + W64 else a - b
  {
    (a - b) % W64
  }

  /** `a<<32` and `a>>32`. */
  function High32(a: u64): (z: u64)
    ensures z < W32 && z * W32 <= a < z * W32 + W32
  {
    a / W32
  }

  function Shl32(a: u64): (z: u64)
    ensures z == (a - High32(a) * W32) * W32 && z % W32 == 0
  {
    (a * W32) % W64
  }

  /** The sign test `(int64_t) a < 0`. */
  predicate Negative64(a: u64) { a >= W63 }

  function Add128(a: Pair, b: Pair): (z: Pair)
    ensures z.Value() == a.Value() + b.Value() || z.Value() == a.Value() + b.Value() - W64 * W64
  {
    var z1 := Add64(a.lo, b.lo);
    Pair(Add64(Add64(a.hi, b.hi), if z1 < a.lo then 1 else 0), z1)
  }

  function Sub128(a: Pair, b: Pair): (z: Pair)
    ensures z.Value() == a.Value() - b.Value() || z.Value() == a.Value() - b.Value() + W64 * W64
  {
    Pair(Sub64(Sub64(a.hi, b.hi), if a.lo < b.lo then 1 else 0), Sub64(a.lo, b.lo))
  }

  /** The exact 128-bit product from four 32-bit products. */
  function Mul64To128(a: u64, b: u64): (z: Pair)
    ensures z.Value() == a * b
  {
    var aLow, aHigh, bLow, bHigh := a % W32, a / W32, b % W32, b / W32;
    CrossTerms(aHigh, aLow, bHigh, bLow);
    SmallProduct(aLow, bLow);
    SmallProduct(aLow, bHigh);
    SmallProduct(aHigh, bLow);
    SmallProduct(aHigh, bHigh);
    FromParts(aLow * bLow, aLow * bHigh, aHigh * bLow, aHigh * bHigh)
  }

  /** `x | y` for words without a common bit: the low half of x is clear and y fits into it. */
  function OrLow(x: u64, y: u64): u64
    requires x % W32 == 0 && y < W32
  {
    x + y
  }

  /** The part of mul64To128 after its four multiplications. */
  function FromParts(low: u64, middleA: u64, middleB: u64, high: u64): (z: Pair)
    requires low <= (W32 - 1) * (W32 - 1) && middleA <= (W32 - 1) * (W32 - 1)
    requires middleB <= (W32 - 1) * (W32 - 1) && high <= (W32 - 1) * (W32 - 1)
    ensures z.Value() == high * W64 + (middleA + middleB) * W32 + low
  {
    var zMiddleA := Add64(middleA, middleB);
    var z0 := Add64(high, Add64(if zMiddleA < middleB then W32 else 0, High32(zMiddleA)));
    var z1 := Add64(low, Shl32(zMiddleA));
    Pair(Add64(z0, if z1 < Shl32(zMiddleA) then 1 else 0), z1)
  }

  lemma SmallProduct(x: nat, y: nat)
    requires x < W32 && y < W32
    ensures 0 <= x * y <= (W32 - 1) * (W32 - 1)
  {
    ProductMonotone(x, y, W32 - 1);
    ProductMonotone(W32 - 1, x, W32 - 1);
  }

  lemma CrossTerms(aHigh: int, aLow: int, bHigh: int, bLow: int)
    ensures (aHigh * W32 + aLow) * (bHigh * W32 + bLow)
         == aHigh * bHigh * W64 + (aLow * bHigh + aHigh * bLow) * W32 + aLow * bLow
  {
  }

  datatype Triple = Triple(z0: u64, z1: u64, z2: u64) {
    function Value(): nat { (z0 * W64 + z1) * W64 + z2 }
  }

  function Mul128By64To192(a: Pair, b: u64): (z: Triple)
    ensures z.Value() == a.Value() * b
  {
    var low, high := Mul64To128(a.lo, b), Mul64To128(a.hi, b);
    var sum := Add128(high, Pair(0, low.hi));
    PartialProducts(a.hi, a.lo, b);
    ProductFits(a.hi, b);
    Triple(sum.hi, sum.lo, low.lo)
  }

  lemma PartialProducts(aHi: int, aLo: int, b: int)
    ensures (aHi * W64 + aLo) * b == (aHi * b) * W64 + aLo * b
  {
  }

  lemma ProductFits(x: u64, y: u64)
    ensures x * y <= (W64 - 1) * (W64 - 1)
  {
    ProductMonotone(x, y, W64 - 1);
    ProductMonotone(W64 - 1, x, W64 - 1);
  }

  datatype Quad = Quad(high: Pair, low: Pair) {
    function Value(): nat { high.Value() * (W64 * W64) + low.Value() }
  }

  /** mul128To256: four partial products whose carries are all taken along. */
  function Mul128To256(a: Pair, b: Pair): (z: Quad)
    ensures z.Value() == a.Value() * b.Value()
  {
    hide Mul64To128, MulPlus, Add128, Quad.Value;
    var low := Mul64To128(a.lo, b.lo);
    var second := MulPlus(a.lo, b.hi, low.hi);
    var third := MulPlus(a.hi, b.hi, second.hi);
    var fourth := MulPlus(a.hi, b.lo, second.lo);
    var high := Add128(third, Pair(0, fourth.hi));
    Assembled(a, b, low, second, third, fourth, high);
    Quad(high, Pair(fourth.lo, low.lo))
  }

  /** A product and the carry word added to it, which cannot overflow. */
  function MulPlus(x: u64, y: u64, carry: u64): (z: Pair)
    ensures z.Value() == x * y + carry
  {
    ProductFits(x, y);
    Add128(Mul64To128(x, y), Pair(0, carry))
  }

  lemma Assembled(a: Pair, b: Pair, low: Pair, second: Pair, third: Pair, fourth: Pair, high: Pair)
    requires low.Value() == a.lo * b.lo && second.Value() == a.lo * b.hi + low.hi
    requires third.Value() == a.hi * b.hi + second.hi && fourth.Value() == a.hi * b.lo + second.lo
    requires high.Value() == third.Value() + fourth.hi || high.Value() == third.Value() + fourth.hi - W64 * W64
    ensures Quad(high, Pair(fourth.lo, low.lo)).Value() == a.Value() * b.Value()
  {
    ProductOfPairs(a, b);
    PairProductFits(a, b);
    hide Pair.Value;
    var product, hh, hl, lh, ll := a.Value() * b.Value(), a.hi * b.hi, a.hi * b.lo, a.lo * b.hi, a.lo * b.lo;
    SumOfParts(product, hh, hl, lh, ll, low, second, third, fourth, high);
  }

  lemma ProductOfPairs(a: Pair, b: Pair)
    ensures a.Value() * b.Value()
         == a.hi * b.hi * (W64 * W64) + (a.lo * b.hi + a.hi * b.lo) * W64 + a.lo * b.lo
  {
    FourProducts(a.hi, a.lo, b.hi, b.lo);
  }

  lemma FourProducts(aHi: int, aLo: int, bHi: int, bLo: int)
    ensures (aHi * W64 + aLo) * (bHi * W64 + bLo)
         == aHi * bHi * (W64 * W64) + (aLo * bHi + aHi * bLo) * W64 + aLo * bLo
  {
  }

  lemma PairProductFits(a: Pair, b: Pair)
    ensures a.Value() * b.Value() < W64 * W64 * (W64 * W64)
  {
    PairRange(a);
    PairRange(b);
    var x, y := a.Value(), b.Value();
    hide *;
    BelowProduct(x, y, W64 * W64);
  }

  lemma PairRange(a: Pair)
    ensures a.Value() < W64 * W64
  {
  }

  lemma BelowProduct(x: nat, y: nat, n: nat)
    requires x < n && y < n
    ensures x * y < n * n
  {
    ProductMonotone(x, y, n - 1);
    ProductMonotone(n - 1, x, n - 1);
    assert x * (n - 1) == (n - 1) * x;
    assert (n - 1) * (n - 1) == n * n - 2 * n + 1;
  }

  lemma SumOfParts(product: nat, hh: int, hl: int, lh: int, ll: int, low: Pair, second: Pair, third: Pair, fourth: Pair, high: Pair)
    requires product == hh * (W64 * W64) + (lh + hl) * W64 + ll && product < W64 * W64 * (W64 * W64)
    requires low.Value() == ll && second.Value() == lh + low.hi
    requires third.Value() == hh + second.hi && fourth.Value() == hl + second.lo
    requires high.Value() == third.Value() + fourth.hi || high.Value() == third.Value() + fourth.hi - W64 * W64
    ensures Quad(high, Pair(fourth.lo, low.lo)).Value() == product
  {
    var sum := third.Value() + fourth.hi;
    assert sum * (W64 * W64) + fourth.lo * W64 + low.lo == product;
    assert sum < W64 * W64;
  }

  // ---------------------------------------------------------------- the quotient estimate

  /** One 32-bit quotient digit of n / b, guessed from the high half of the divisor. */
  function GuessDigit(n: u64, bHigh: u64): (digit: u64)
    requires 0 < bHigh < W32
    ensures digit < W32 && digit * bHigh <= n
    ensures digit == W32 - 1 || n < (digit + 1) * bHigh
  {
    if bHigh * W32 <= n then
      W32 - 1
    else
      DivisionFacts(n, bHigh);
      n / bHigh
  }

  lemma DivisionFacts(n: nat, d: nat)
    requires 0 < d < W32 && n < d * W32
    ensures 0 <= n / d < W32 && n / d * d <= n < (n / d + 1) * d
  {
    assert n == n / d * d + n % d;
    QuotientRange(n, d, n / d, n % d);
  }

  lemma QuotientRange(n: nat, d: nat, q: int, r: nat)
    requires n == q * d + r && r < d && n < d * W32
    ensures 0 <= q < W32 && q * d <= n < (q + 1) * d
  {
    ProductSign(q, d);
    ProductSign(q - W32, d);
    Difference(q, W32, d);
  }

  /** The guess is the true digit of n / b or exceeds it by at most two, for every n < 2^32 * b. */
  lemma DigitProducts(digit: int, b: int, bHigh: int, bLow: int)
    requires b == bHigh * W32 + bLow
    ensures digit * b == (digit * bHigh) * W32 + digit * bLow
    ensures (digit - 2) * b == digit * b - 2 * b && (digit + 1) * b == digit * b + b
    ensures (digit + 1) * bHigh == digit * bHigh + bHigh
  {
  }

  lemma DigitBounds(n: nat, b: u64, digit: u64)
    requires b >= W63 && n < b * W32 && n / W32 < W64 && digit == GuessDigit(n / W32, High32(b))
    ensures (digit - 2) * b <= n < (digit + 1) * b
  {
    var bHigh := High32(b);
    var bLow, top := b - bHigh * W32, n / W32;
    SmallProduct(digit, bLow);
    DigitProducts(digit, b, bHigh, bLow);
  }

  /** After `rounds` corrections z is a multiple of the unit whose remainder, possibly negative and then
      wrapped modulo 2^128, is kept in `rem`. */
  ghost predicate Trial(a: Pair, b: u64, unit: int, z: u64, rem: Pair, rounds: nat) {
    var exact := a.Value() - b * z;
    && unit > 0 && z % unit == 0 && b * unit < W64 * W32
    && (rounds - 2) * (b * unit) <= exact < b * unit
    && rem.Value() == if exact < 0 then exact + W64 * W64 else exact
  }

  lemma FirstDigit(a: Pair, b: u64)
    requires b >= W63 && a.hi < b
    ensures var z := GuessDigit(a.hi, High32(b)) * W32;
      Trial(a, b, W32, z, Sub128(a, Mul64To128(b, z)), 0)
  {
    var n, digit := a.hi * W32 + High32(a.lo), GuessDigit(a.hi, High32(b));
    DigitBounds(n, b, digit);
    FirstRemainder(digit, b, n, a.Value());
    StartTrial(a, b, W32, digit * W32);
  }

  /** An estimate that is at most two units too large starts the correction loop. */
  lemma StartTrial(a: Pair, b: u64, unit: int, z: u64)
    requires unit > 0 && z % unit == 0 && b * unit < W64 * W32
    requires -2 * (b * unit) <= a.Value() - b * z < b * unit
    ensures Trial(a, b, unit, z, Sub128(a, Mul64To128(b, z)), 0)
  {
    var rem := Sub128(a, Mul64To128(b, z));
    hide Mul64To128, Sub128;
    assert (0 - 2) * (b * unit) == -2 * (b * unit);
  }

  lemma FirstRemainder(digit: nat, b: nat, n: nat, a: nat)
    requires (digit - 2) * b <= n < (digit + 1) * b && n * W32 <= a < n * W32 + W32
    ensures -2 * (b * W32) <= a - b * (digit * W32) < b * W32
  {
    Difference(digit, 2, b);
    Difference(digit, -1, b);
    assert b * (digit * W32) == (digit * b) * W32;
  }

  /** While the remainder looks negative it is, and there is room to take one unit off the quotient. */
  lemma NextRound(a: Pair, b: u64, unit: int, z: u64, rem: Pair, rounds: nat, step: Pair)
    requires b >= W63 && Trial(a, b, unit, z, rem, rounds) && Negative64(rem.hi) && step.Value() == b * unit
    ensures rounds < 2 && z >= unit
    ensures Trial(a, b, unit, z - unit, Add128(rem, step), rounds + 1)
  {
    var exact := a.Value() - b * z;
    assert exact < 0;
    assert z == 0 ==> b * z == 0;
    OneUnitLess(z, unit);
    assert b * (z - unit) == b * z - b * unit;
    RoundsLeft(rounds, b * unit, exact);
  }

  lemma OneUnitLess(z: nat, unit: int)
    requires unit > 0 && z % unit == 0 && z > 0
    ensures z >= unit && (z - unit) % unit == 0
  {
    var k := z / unit;
    assert z == k * unit;
    Difference(k, 1, unit);
    ProductSign(k, unit);
    DivisionUnique(z - unit, k - 1, unit, 0);
  }

  lemma QuotientFound(a: Pair, b: u64, unit: int, z: u64, rem: Pair, rounds: nat)
    requires b >= W63 && Trial(a, b, unit, z, rem, rounds) && !Negative64(rem.hi)
    ensures rem.Value() == a.Value() - b * z && rem.Value() < b * unit
  {
    var exact := a.Value() - b * z;
    if exact < 0 {
      RoundsLeft(rounds, b * unit, exact);
      assert false;
    }
  }

  lemma RoundsLeft(rounds: nat, step: nat, exact: int)
    requires (rounds - 2) * step <= exact < 0
    ensures rounds < 2 && -2 * step <= exact && (rounds + 1 - 2) * step <= exact + step
  {
    assert (rounds + 1 - 2) * step == (rounds - 2) * step + step;
    assert 0 <= rounds * step;
    assert (rounds - 2) * step == rounds * step - 2 * step;
    if rounds > 2 {
      ProductSign(rounds - 2, step + 1);
    }
  }

  lemma StepIsUnit(b: u64)
    ensures Pair(High32(b), Shl32(b)).Value() == b * W32
  {
  }

  /** The remainder after the high digit fits into 96 bits, and its high 64 bits are put together. */
  lemma ShiftedRemainder(b: u64, rem: Pair)
    requires rem.Value() < b * W32
    ensures rem.hi < W32 && OrLow(Shl32(rem.hi), High32(rem.lo)) == rem.Value() / W32
  {
  }

  lemma LowDigit(a: nat, b: u64, z: u64, rem: nat, low: u64)
    requires b >= W63 && rem < b * W32 && rem == a - b * z
    requires rem / W32 < W64 && low == GuessDigit(rem / W32, High32(b))
    ensures (z + low - 2) * b <= a < (z + low + 1) * b
    ensures z * b <= a < (z + W32) * b
  {
    DigitBounds(rem, b, low);
    hide *;
    AddMultiple(z, low, b);
  }

  lemma HighPart(z: u64, low: u64)
    requires z % W32 == 0 && low < W32
    ensures High32(OrLow(z, low)) * W32 == z
  {
  }

  lemma AddMultiple(z: int, low: int, b: int)
    ensures (z + low - 2) * b == b * z + (low - 2) * b && (z + low + 1) * b == b * z + (low + 1) * b
    ensures (z + W32) * b == b * z + b * W32 && z * b == b * z
  {
  }

  /**
   estimateDiv128To64: an approximation z of the quotient q of a and b with q <= z <= q + 2, stated
   without division; its high half is exact.
   */
  method EstimateDiv128To64(a: Pair, b: u64) returns (z: u64)
    requires b >= W63
    ensures b <= a.hi ==> z == W64 - 1
    ensures a.hi < b ==> (z - 2) * b <= a.Value() < (z + 1) * b
    ensures a.hi < b ==> High32(z) * W32 * b <= a.Value() < (High32(z) * W32 + W32) * b
  {
    if b <= a.hi {
      return W64 - 1;
    }
    var b0 := High32(b);
    assert 0 < b0 < W32;
    z := GuessDigit(a.hi, b0) * W32;
    FirstDigit(a, b);
    var rem := Sub128(a, Mul64To128(b, z));
    ghost var rounds := 0;
    while Negative64(rem.hi)
      invariant Trial(a, b, W32, z, rem, rounds)
      invariant 0 <= rounds <= 2
      decreases 2 - rounds
    {
      StepIsUnit(b);
      hide *;
      NextRound(a, b, W32, z, rem, rounds, Pair(b0, Shl32(b)));
      z := Sub64(z, W32);
      rem := Add128(rem, Pair(b0, Shl32(b)));
      rounds := rounds + 1;
    }
    QuotientFound(a, b, W32, z, rem, rounds);
    ShiftedRemainder(b, rem);
    assert z % W32 == 0;
    hide Trial, Sub128, Add128, Mul64To128;
    var rem0 := OrLow(Shl32(rem.hi), High32(rem.lo));
    var low := GuessDigit(rem0, b0);
    LowDigit(a.Value(), b, z, rem.Value(), low);
    HighPart(z, low);
    z := OrLow(z, low);
  }
}
