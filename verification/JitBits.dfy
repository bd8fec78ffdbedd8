/** What 64-bit machine operations do to the low bits of their operands. */
module JitBits {
  import opened Arithmetic
  import opened Powers
  import opened Words
  import opened JitIr

  /** The low bits of a register. */
  function Low(w: Width, x: int): (v: nat)
    ensures v < w.Size()
  {
    x % w.Size()
  }

  /** The 64-bit forms of the arithmetic and logical instructions. */
  function Alu(op: Op, x: nat, y: nat): int {
    match op
    case Add => (x + y) % W64
    case Sub => (x - y) % W64
    case _ => Bitwise(op, x, y, 64)
  }

  /** shl, shr and sar of a 64-bit register by a count below 64. */
  function Shift(op: Op, x: nat, count: nat): int {
    match op
    case Shl => (x * Pow2(count)) % W64
    case Shr => Quotient(x, Pow2(count))
    case _ => Floored(AsSigned(I64, x), Pow2(count)) % W64
  }

  /** A write to the low bits of a register: 8 and 16-bit writes leave the rest, 32-bit writes clear it. */
  function Merge(w: Width, old_: nat, v: nat): int {
    if w == I8 || w == I16 then old_ - old_ % w.Size() + v else v
  }

  function RotateCount(w: Width, cl: nat): nat {
    cl % (if w == I64 then 64 else 32) % w.Bits()
  }

  /** ror of the low bits of a register. */
  function RotateRight(w: Width, x: nat, cl: nat): int {
    Merge(w, x, Rotated(Low(w, x), RotateCount(w, cl), w.Bits()))
  }

  /** What the code of a binary operation leaves in its destination before the result is masked. */
  function Unmasked(op: Op, w: Width, x: nat, y: nat): int {
    match op
    case Shl => Shift(op, x, y % 64)
    case Shr => Shift(op, x, y % 64)
    case Asr => Shift(op, x, y % 64)
    case Ror => RotateRight(w, x, y)
    case CmpEq => if x == y then W64 - 1 else 0
    case CmpNe => if x != y then W64 - 1 else 0
    case _ => Alu(op, x, y)
  }

  /** The result after masking. */
  function Native(op: Op, w: Width, x: nat, y: nat): nat { Low(w, Unmasked(op, w, x, y)) }

  function NativeCast(c: Cast, x: nat): nat {
    if c.SignExtend? then
      var k := 64 - c.from.Bits();
      Low(I64, Shift(Asr, Low(I64, Shift(Shl, x, k)), k))
    else Low(if c.ZeroExtend? then c.from else c.to, x)
  }

  // ---------------------------------------------------------------- low bits

  lemma LowOfWord(w: Width, n: int)
    ensures Low(w, n % W64) == Low(w, n) && Low(w, Low(w, n)) == Low(w, n)
  {
    var q, r := n / W64, n % W64;
    match w
    case I8 => LowUnique(w, n, q * 0x100_0000_0000_0000 + r / 0x100, r % 0x100);
    case I16 => LowUnique(w, n, q * 0x1_0000_0000_0000 + r / 0x1_0000, r % 0x1_0000);
    case I32 => LowUnique(w, n, q * 0x1_0000_0000 + r / 0x1_0000_0000, r % 0x1_0000_0000);
    case I64 =>
  }

  lemma LowUnique(w: Width, n: int, q: int, r: int)
    requires n == q * w.Size() + r && 0 <= r < w.Size()
    ensures Low(w, n) == r
  {
    DivisionUnique(n, q, w.Size(), r);
  }

  lemma LowParts(w: Width, x: int) returns (q: int)
    ensures x == q * w.Size() + Low(w, x)
  {
    q := x / w.Size();
  }

  lemma SumLow(w: Width, x: int, y: int)
    ensures Low(w, x + y) == Low(w, Low(w, x) + Low(w, y))
    ensures Low(w, x - y) == Low(w, Low(w, x) - Low(w, y))
  {
    var p := LowParts(w, x);
    var q := LowParts(w, y);
    var a: int, b: int := Low(w, x), Low(w, y);
    var r := LowParts(w, a + b);
    var s := LowParts(w, a - b);
    hide Low;
    LowUnique(w, x + y, p + q + r, Low(w, a + b));
    LowUnique(w, x - y, p - q + s, Low(w, a - b));
  }

  lemma ProductLow(w: Width, x: int, y: int)
    ensures Low(w, x * y) == Low(w, Low(w, x) * y)
  {
    var p := LowParts(w, x);
    var a := Low(w, x);
    var r := LowParts(w, a * y);
    hide Low, Width.Size;
    var s := w.Size();
    MoveFactor(p, s, y);
    assert x * y == (p * y) * s + a * y by {
      SumTimes(p * s, a, y);
    }
    SumTimes(p * y, r, s);
    LowUnique(w, x * y, p * y + r, Low(w, a * y));
  }

  lemma MoveFactor(p: int, s: int, y: int)
    ensures (p * s) * y == (p * y) * s
  {
  }

  lemma SumTimes(a: int, b: int, y: int)
    ensures (a + b) * y == a * y + b * y
  {
  }

  lemma LowOfSmall(w: Width, x: nat)
    requires x < w.Size()
    ensures Low(w, x) == x
  {
    LowUnique(w, x, 0, x);
  }

  // ---------------------------------------------------------------- bitwise operations

  /** The low n bits of the result only depend on the low n bits of the operands. */
  lemma {:induction false} BitwiseLow(op: Op, x: nat, y: nat, n: nat, m: nat)
    requires n <= m
    ensures Rest(Bitwise(op, x, y, m), Pow2(n)) == Bitwise(op, Rest(x, Pow2(n)), Rest(y, Pow2(n)), n)
  {
    assert Pow2(0) == 1;
    if n > 0 {
      BitwiseLow(op, x / 2, y / 2, n - 1, m - 1);
      BitwiseLowStep(op, x, y, n, m, x / 2, y / 2, Pow2(n - 1));
    }
  }

  lemma BitwiseLowStep(op: Op, x: nat, y: nat, n: nat, m: nat, x': nat, y': nat, p: nat)
    requires 0 < n <= m && x' == x / 2 && y' == y / 2 && p == Pow2(n - 1)
    requires Rest(Bitwise(op, x', y', m - 1), p) == Bitwise(op, Rest(x', p), Rest(y', p), n - 1)
    ensures Rest(Bitwise(op, x, y, m), Pow2(n)) == Bitwise(op, Rest(x, Pow2(n)), Rest(y, Pow2(n)), n)
  {
    assert Pow2(n) == 2 * p;
    hide *;
    var t := Bit(op, x % 2, y % 2);
    var b := Bitwise(op, x', y', m - 1);
    BitwiseStep(op, x, y, m, x', y', t);
    RestOfDouble(x, p);
    RestOfDouble(y, p);
    RestOfDouble(2 * b + t, p);
    BitBound(op, x % 2, y % 2);
    LastBit(b, t);
    BitwiseStep(op, Rest(x, 2 * p), Rest(y, 2 * p), n, Rest(x', p), Rest(y', p), t);
  }

  lemma BitBound(op: Op, x: nat, y: nat)
    requires x < 2 && y < 2
    ensures Bit(op, x, y) < 2
  {
  }

  lemma LastBit(b: nat, t: nat)
    requires t < 2
    ensures (2 * b + t) / 2 == b && (2 * b + t) % 2 == t
  {
  }

  lemma BitwiseStep(op: Op, x: nat, y: nat, m: nat, x': nat, y': nat, t: nat)
    requires m > 0 && x' == x / 2 && y' == y / 2 && t == Bit(op, x % 2, y % 2)
    ensures Bitwise(op, x, y, m) == 2 * Bitwise(op, x', y', m - 1) + t
  {
  }

  /** Taking the remainder by 2 * p leaves the last bit and takes the remainder of the half by p. */
  lemma RestOfDouble(x: nat, p: nat)
    requires p > 0
    ensures Rest(x, 2 * p) == 2 * Rest(x / 2, p) + x % 2
    ensures Rest(x, 2 * p) / 2 == Rest(x / 2, p) && Rest(x, 2 * p) % 2 == x % 2
  {
    var q, r := (x / 2) / p, (x / 2) % p;
    assert x / 2 == q * p + r;
    assert q * (2 * p) == 2 * (q * p);
    DivisionUnique(x, q, 2 * p, 2 * r + x % 2);
  }

  /** And with a mask of ones takes the low bits. */
  lemma {:induction false} MaskIsLow(x: nat, n: nat, m: nat)
    requires n <= m
    ensures Bitwise(And, x, Pow2(n) - 1, m) == Rest(x, Pow2(n))
    decreases m
  {
    assert Pow2(0) == 1 && Rest(x, 1) == Rest(x / 2, 1) == 0;
    hide Rest, Bit;
    if m > 0 && n == 0 {
      MaskIsLow(x / 2, 0, m - 1);
      ZeroBit(x % 2);
      BitwiseStep(And, x, 0, m, x / 2, 0, 0);
    } else if m > 0 {
      MaskIsLow(x / 2, n - 1, m - 1);
      MaskStep(x, x / 2, m, n, Pow2(n - 1));
    }
  }

  lemma ZeroBit(x: nat)
    requires x < 2
    ensures Bit(And, x, 0) == 0
  {
  }

  lemma MaskStep(x: nat, x': nat, m: nat, n: nat, p: nat)
    requires 0 < n <= m && x' == x / 2 && p == Pow2(n - 1) && p > 0
    requires Bitwise(And, x', p - 1, m - 1) == Rest(x', p)
    ensures Bitwise(And, x, Pow2(n) - 1, m) == Rest(x, Pow2(n))
  {
    assert Pow2(n) == 2 * p;
    assert x % 2 == Bit(And, x % 2, 1);
    hide *;
    HalfOfMask(p);
    BitwiseStep(And, x, 2 * p - 1, m, x', p - 1, x % 2);
    RestOfDouble(x, p);
  }

  lemma HalfOfMask(p: nat)
    requires p > 0
    ensures (2 * p - 1) / 2 == p - 1 && (2 * p - 1) % 2 == 1
  {
  }

  lemma LowIsRest(w: Width, x: nat)
    ensures Low(w, x) == Rest(x, Pow2(w.Bits()))
  {
    SizeIsPow2(w);
  }

  lemma MaskedLow(w: Width, x: nat)
    ensures Bitwise(And, x, w.Size() - 1, 64) == Low(w, x)
  {
    SizeIsPow2(w);
    MaskIsLow(x, w.Bits(), 64);
    hide Pow2, Bitwise;
  }

  lemma BitwiseOfLow(op: Op, w: Width, x: nat, y: nat)
    ensures Low(w, Bitwise(op, x, y, 64)) == Bitwise(op, Low(w, x), Low(w, y), w.Bits())
  {
    LowIsRest(w, x);
    LowIsRest(w, y);
    LowIsRest(w, Bitwise(op, x, y, 64));
    BitwiseLow(op, x, y, w.Bits(), 64);
    hide Low, Pow2, Bitwise;
  }

  // ---------------------------------------------------------------- the operations

  /** A register holds a value of width w: the low bits agree. */
  predicate Holds(w: Width, x: nat, a: nat) {
    x < W64 && Low(w, x) == a
  }

  lemma NativeAlu(op: Op, w: Width, x: nat, y: nat, a: nat, b: nat)
    requires !op.IsShift() && op != CmpEq && op != CmpNe && Holds(w, x, a) && Holds(w, y, b)
    ensures Native(op, w, x, y) == Apply(op, w, a, b)
  {
    match op
    case Add =>
      SumLow(w, x, y);
      LowOfWord(w, x + y);
    case Sub =>
      SumLow(w, x, y);
      LowOfWord(w, x - y);
    case _ => BitwiseOfLow(op, w, x, y);
  }

  // ---------------------------------------------------------------- shifts

  /** What x86 makes of a shift: it takes the count modulo 64, that of a narrow rotation modulo the width. */
  function Shifted(op: Op, w: Width, a: nat, b: nat): nat {
    match op
    case Shl => (a * Pow2(b % 64)) % w.Size()
    case Shr => Quotient(a, Pow2(b % 64))
    case Asr => Floored(AsSigned(w, a), Pow2(b % 64)) % w.Size()
    case _ => Rotated(a, RotateCount(w, b), w.Bits())
  }

  /** The host on which the IR has the results that x86 gives where it leaves them open. */
  function OnX86<W>(h: Host<W>): Host<W> { h.(over := Shifted) }

  /** Shifts by less than the width have the result of the IR. */
  lemma ShiftedInRange(op: Op, w: Width, a: nat, b: nat)
    requires op.IsShift() && b < w.Bits()
    ensures Shifted(op, w, a, b) == Apply(op, w, a, b)
  {
    assert b % 64 == b;
    assert RotateCount(w, b) == b by {
      match w case I8 => case I16 => case I32 => case I64 =>
    }
  }

  lemma ShiftedBound(op: Op, w: Width, a: nat, b: nat)
    requires op.IsShift() && a < w.Size()
    ensures Shifted(op, w, a, b) < w.Size()
  {
    if op == Shr {
      QuotientSmaller(a, Pow2(b % 64));
    } else if op == Ror {
      RotatedBound(w, a, RotateCount(w, b));
    }
    hide Pow2, Quotient, Rotated;
  }

  lemma ResultOnX86<W>(h: Host<W>, op: Op, w: Width, a: nat, b: nat)
    requires a < w.Size() && h.over == Shifted
    ensures Result(h, op, w, a, b) == if op.IsShift() then Shifted(op, w, a, b) else Apply(op, w, a, b)
  {
    if op.IsShift() {
      if b < w.Bits() {
        ShiftedInRange(op, w, a, b);
      } else {
        ShiftedBound(op, w, a, b);
        LowOfSmall(w, Shifted(op, w, a, b));
      }
    }
    hide Shifted, Apply;
  }

  /** The upper bits of cl take no part in a shift. */
  lemma CountOfRegister(w: Width, y: nat, b: nat)
    requires Holds(I8, y, b)
    ensures y % 64 == b % 64 && RotateCount(w, y) == RotateCount(w, b)
  {
    var q := y / 0x100;
    DivisionUnique(y, 4 * q + b / 64, 64, b % 64);
    DivisionUnique(y, 8 * q + b / 32, 32, b % 32);
  }

  lemma NativeShl(w: Width, x: nat, y: nat, a: nat, b: nat)
    requires Holds(w, x, a) && Holds(I8, y, b)
    ensures Native(Shl, w, x, y) == Shifted(Shl, w, a, b)
  {
    CountOfRegister(w, y, b);
    ProductLow(w, x, Pow2(b % 64));
    LowOfWord(w, x * Pow2(b % 64));
    hide Pow2;
  }

  /** The upper bits of a register that a right shift by b brings down into the low bits. */
  function BroughtDown(w: Width, x: nat, b: nat): nat
  {
    Low(w, Quotient(x - Low(w, x), Pow2(b % 64)))
  }

  /** shr brings down upper bits; its result is right exactly if they are zero. */
  lemma NativeShr(w: Width, x: nat, y: nat, a: nat, b: nat)
    requires Holds(w, x, a) && Holds(I8, y, b)
    ensures Native(Shr, w, x, y) == Shifted(Shr, w, a, b) <==> BroughtDown(w, x, b) == 0
  {
    CountOfRegister(w, y, b);
    var p := Pow2(b % 64);
    var u: nat := UpperPart(w, x, a);
    QuotientOfSum(w, x, a, b % 64);
    QuotientSmaller(a, p);
    ZeroIfSame(w, Quotient(u, p), Quotient(a, p));
    assert Native(Shr, w, x, y) == Low(w, Quotient(x, p));
    hide Quotient, Pow2, Low;
  }

  lemma UpperPart(w: Width, x: nat, a: nat) returns (u: nat)
    requires Holds(w, x, a)
    ensures u == x - Low(w, x) && x == u + a && u == Quotient(x, w.Size()) * w.Size() && a < w.Size()
  {
    u := x - a;
  }

  lemma QuotientOfSum(w: Width, x: nat, a: nat, c: nat)
    requires Holds(w, x, a) && c < 64
    ensures x >= a && Quotient(x, Pow2(c)) == Quotient(x - a, Pow2(c)) + Quotient(a, Pow2(c))
  {
    var u := UpperPart(w, x, a);
    var high, size, p, bits := Quotient(x, w.Size()), w.Size(), Pow2(c), w.Bits();
    SizeIsPow2(w);
    hide *;
    if c <= bits {
      Pow2Add(bits - c, c);
      FewerPlaces(u, a, high, p, Pow2(bits - c));
    } else {
      Pow2Add(c - bits, bits);
      MorePlaces(u, a, high, size, Pow2(c - bits));
    }
  }

  lemma FewerPlaces(u: nat, a: nat, high: nat, p: nat, q: nat)
    requires u == high * (q * p) && p > 0
    ensures Quotient(u + a, p) == Quotient(u, p) + Quotient(a, p)
  {
    hide *;
    QuotientParts(a, p);
    assert u == (high * q) * p;
    SumTimes(high * q, Quotient(a, p), p);
    ProductIsNat(high, q);
    QuotientIs(u, high * q, p, 0);
    QuotientIs(u + a, high * q + Quotient(a, p), p, Rest(a, p));
  }

  lemma ProductIsNat(x: nat, y: nat)
    ensures x * y >= 0
  {
  }

  lemma MorePlaces(u: nat, a: nat, high: nat, size: nat, r: nat)
    requires u == high * size && a < size && r > 0
    ensures r * size > 0 && Quotient(u + a, r * size) == Quotient(u, r * size) + Quotient(a, r * size)
  {
    hide *;
    QuotientParts(high, r);
    var s, rest, p := Quotient(high, r), Rest(high, r), r * size;
    ProductMonotone(size, rest, r - 1);
    assert (r - 1) * size == p - size by {
      Difference(r, 1, size);
    }
    SumTimes(s * r, rest, size);
    assert s * r * size == s * p;
    ProductIsNat(rest, size);
    QuotientIs(u, s, p, rest * size);
    QuotientIs(u + a, s, p, rest * size + a);
    QuotientIs(a, 0, p, a);
  }

  lemma QuotientIs(x: nat, n: nat, p: nat, rest: nat)
    requires x == n * p + rest && rest < p
    ensures Quotient(x, p) == n
  {
    DivisionUnique(x, n, p, rest);
  }

  /** Adding a value below the size does not change the low bits of a sum exactly if the rest has none. */
  lemma ZeroIfSame(w: Width, n: nat, t: nat)
    requires t < w.Size()
    ensures Low(w, n + t) == t <==> Low(w, n) == 0
  {
    var q := LowParts(w, n);
    if Low(w, n) == 0 {
      LowUnique(w, n + t, q, t);
    }
    if Low(w, n + t) == t {
      var k := LowParts(w, n + t);
      LowUnique(w, n, k, 0);
    }
  }

  lemma QuotientSmaller(a: nat, d: nat)
    requires d > 0
    ensures Quotient(a, d) <= a
  {
    var q := Quotient(a, d);
    assert a == q * d + a % d;
    ProductMonotone(q, 1, d);
  }

  lemma RotatedBound(w: Width, a: nat, b: nat)
    requires a < w.Size() && b <= w.Bits()
    ensures Rotated(a, b, w.Bits()) < w.Size()
  {
    SizeIsPow2(w);
    Pow2Add(b, w.Bits() - b);
    var p, q := Pow2(b), Pow2(w.Bits() - b);
    assert Rotated(a, b, w.Bits()) == Quotient(a, p) + Rest(a, p) * q;
    hide *;
    QuotientParts(a, p);
    RotatedSum(Quotient(a, p), Rest(a, p), p, q);
  }

  lemma QuotientParts(a: nat, d: nat)
    requires d > 0
    ensures a == Quotient(a, d) * d + Rest(a, d) && Rest(a, d) < d
  {
  }

  lemma RotatedSum(high: nat, low: nat, p: nat, q: nat)
    requires low < p && q > 0 && high * p + low < p * q
    ensures high + low * q < p * q
  {
    if high >= q {
      ProductMonotone(p, q, high);
    }
    ProductMonotone(q, low, p - 1);
    assert q * (p - 1) == p * q - q;
  }

  lemma NativeRor(w: Width, x: nat, y: nat, a: nat, b: nat)
    requires Holds(w, x, a) && Holds(I8, y, b)
    ensures Native(Ror, w, x, y) == Shifted(Ror, w, a, b)
  {
    CountOfRegister(w, y, b);
    RotatedBound(w, a, RotateCount(w, b));
    var v := Rotated(a, RotateCount(w, b), w.Bits());
    LowOfSmall(w, v);
    hide Rotated;
    if w == I8 || w == I16 {
      var q := LowParts(w, x);
      var r := LowParts(w, v);
      LowUnique(w, x - a + v, q + r, Low(w, v));
    }
  }

  /** A shift left and an arithmetic shift back extend the sign of the low bits. */
  lemma SignExtended(w: Width, x: nat, a: nat)
    requires Holds(w, x, a)
    ensures var k := 64 - w.Bits();
      Low(I64, Shift(Asr, Low(I64, Shift(Shl, x, k)), k)) == Low(I64, AsSigned(w, a))
  {
    var k := 64 - w.Bits();
    var p := Pow2(k);
    SizeIsPow2(w);
    SizeIsPow2(I64);
    Pow2Add(w.Bits(), k);
    assert w.Size() * p == W64;
    var q := LowParts(w, x);
    hide Pow2, Width.Size, Low;
    ShiftedOut(q, w.Size(), a, p, x);
    LowUnique(I64, x * p, q, a * p);
    SignMoves(w, a, p);
    DivisionUnique(AsSigned(w, a) * p, AsSigned(w, a), p, 0);
    LowOfWord(I64, x * p);
    LowOfWord(I64, AsSigned(w, a));
    assert Low(I64, Shift(Shl, x, k)) == a * p;
  }

  lemma ShiftedOut(q: int, s: nat, a: nat, p: nat, x: int)
    requires x == q * s + a && a < s && p > 0
    ensures x * p == q * (s * p) + a * p && 0 <= a * p < s * p
  {
    MoveFactor(q, s, p);
    SumTimes(q * s, a, p);
    ProductMonotone(p, a, s - 1);
    assert p * (s - 1) == s * p - p;
  }

  lemma SignMoves(w: Width, a: nat, p: nat)
    requires w.Size() * p == W64 && a < w.Size() && p > 0
    ensures AsSigned(I64, a * p) == AsSigned(w, a) * p
  {
    var s := w.Size();
    assert I64.Size() == W64;
    hide Width.Size;
    Difference(2 * a, s, p);
    assert (2 * a) * p == 2 * (a * p);
    assert (a - s) * p == a * p - s * p by {
      Difference(a, s, p);
    }
    if 2 * a >= s {
      ProductSign(1, p);
      assert (2 * a - s) * p >= 0;
    } else {
      assert (2 * a - s) * p < 0;
    }
  }

  lemma SignedOfWord(w: Width, a: nat)
    requires a < w.Size()
    ensures AsSigned(I64, Low(I64, AsSigned(w, a))) == AsSigned(w, a)
  {
    match w case I8 => case I16 => case I32 => case I64 =>
  }

  /** The last step of an arithmetic shift works on the sign-extended operand. */
  lemma NativeAsr(w: Width, y: nat, a: nat, b: nat)
    requires a < w.Size() && Holds(I8, y, b)
    ensures Native(Asr, w, Low(I64, AsSigned(w, a)), y) == Shifted(Asr, w, a, b)
  {
    CountOfRegister(w, y, b);
    SignedOfWord(w, a);
    LowOfWord(w, Floored(AsSigned(w, a), Pow2(b % 64)));
    hide Pow2, Floored, AsSigned;
  }

  lemma NativeCasts(c: Cast, x: nat, a: nat)
    requires c.Valid() && Holds(c.from, x, a)
    ensures Low(c.to, NativeCast(c, x)) == ApplyCast(c, a)
    ensures !c.SignExtend? || c.to == I64 ==> NativeCast(c, x) == ApplyCast(c, a)
    ensures NativeCast(c, x) < W64
  {
    match c
    case SignExtend(from, to) =>
      SignExtended(from, x, a);
      LowOfWord(to, AsSigned(from, a));
    case ZeroExtend(from, to) => LowOfSmall(to, a);
    case Truncate(from, to) => LowOfLow(from, to, x);
  }

  lemma LowOfLow(from: Width, to: Width, x: nat)
    requires to.Bits() < from.Bits()
    ensures Low(to, Low(from, x)) == Low(to, x)
  {
    LowIsRest(from, x);
    var q := LowParts(from, x);
    var a := Low(from, x);
    var r := LowParts(to, a);
    SizeIsPow2(from);
    SizeIsPow2(to);
    Pow2Add(to.Bits(), from.Bits() - to.Bits());
    var p := Pow2(from.Bits() - to.Bits());
    hide Pow2, Low, Width.Size;
    assert q * (to.Size() * p) == (q * p) * to.Size() by {
      MoveFactor(q, p, to.Size());
      MoveFactor(q, to.Size(), p);
      Reorder(q, to.Size(), p);
    }
    SumTimes(q * p, r, to.Size());
    LowUnique(to, x, q * p + r, Low(to, a));
  }

  lemma Reorder(q: int, s: int, p: int)
    ensures q * (s * p) == (q * p) * s
  {
  }
}
