/** What the operators of the IR compute, in terms of integers and of bits. */
module JitOperators {
  import opened Arithmetic
  import opened Powers
  import opened JitIr
  import opened JitBits

  // ---------------------------------------------------------------- bits

  function BitAt(x: nat, i: nat): (b: nat)
    ensures b < 2
  {
    (x / Pow2(i)) % 2
  }

  lemma HalvedBit(x: nat, i: nat)
    requires i > 0
    ensures BitAt(x, i) == BitAt(x / 2, i - 1)
  {
    var p := Pow2(i - 1);
    assert Pow2(i) == 2 * p;
    hide Pow2;
    HalfThenQuotient(x, p);
  }

  lemma HalfThenQuotient(x: nat, p: nat)
    requires p > 0
    ensures x / (2 * p) == (x / 2) / p
  {
    RestOfDouble(x, p);
    var q, r := (x / 2) / p, (x / 2) % p;
    assert q * (2 * p) == 2 * (q * p);
    DivisionUnique(x, q, 2 * p, 2 * r + x % 2);
  }

  lemma FirstBit(x: nat)
    ensures BitAt(x, 0) == x % 2
  {
    assert Pow2(0) == 1;
  }

  /** Bits below k come from the low part, the others from the high part. */
  lemma {:induction false} BitOfParts(high: nat, low: nat, k: nat, i: nat)
    requires low < Pow2(k)
    ensures BitAt(Times(high, Pow2(k)) + low, i) == if i < k then BitAt(low, i) else BitAt(high, i - k)
  {
    assert Pow2(0) == 1;
    if k > 0 {
      assert Pow2(k) == 2 * Pow2(k - 1);
      hide Pow2, BitAt;
      HalfOfParts(high, low, Pow2(k - 1));
      var x := Times(high, Pow2(k)) + low;
      if i == 0 {
        FirstBit(x);
        FirstBit(low);
      } else {
        HalvedBit(x, i);
        BitOfParts(high, low / 2, k - 1, i - 1);
        if i < k {
          HalvedBit(low, i);
        }
      }
    }
  }

  lemma HalfOfParts(high: nat, low: nat, p: nat)
    ensures var x := Times(high, 2 * p) + low;
      x / 2 == Times(high, p) + low / 2 && x % 2 == low % 2
  {
    assert Times(high, 2 * p) == 2 * Times(high, p);
  }

  /** Bitwise operations work bit by bit. */
  lemma {:induction false} BitwiseAt(op: Op, x: nat, y: nat, n: nat, i: nat)
    requires i < n
    ensures BitAt(Bitwise(op, x, y, n), i) == Bit(op, BitAt(x, i), BitAt(y, i))
  {
    var t, b := Bit(op, x % 2, y % 2), Bitwise(op, x / 2, y / 2, n - 1);
    assert Bitwise(op, x, y, n) == 2 * b + t;
    BitBound(op, x % 2, y % 2);
    LastBit(b, t);
    hide Bitwise, BitAt, Bit;
    if i == 0 {
      FirstBit(2 * b + t);
      FirstBit(x);
      FirstBit(y);
    } else {
      HalvedBit(2 * b + t, i);
      HalvedBit(x, i);
      HalvedBit(y, i);
      BitwiseAt(op, x / 2, y / 2, n - 1, i - 1);
    }
  }

  /** The sum of powers that n bits make up is below 2^n. */
  lemma {:induction false} BitwiseBound(op: Op, x: nat, y: nat, n: nat)
    ensures Bitwise(op, x, y, n) < Pow2(n)
  {
    if n > 0 {
      BitwiseBound(op, x / 2, y / 2, n - 1);
      BitBound(op, x % 2, y % 2);
    }
  }

  lemma RotatedAt(a: nat, b: nat, bits: nat, i: nat)
    requires b <= bits && i < bits && a < Pow2(bits)
    ensures BitAt(Rotated(a, b, bits), i) == BitAt(a, if i < bits - b then i + b else i + b - bits)
  {
    var p, q := Pow2(b), Pow2(bits - b);
    var high, low := Quotient(a, p), Rest(a, p);
    assert Rotated(a, b, bits) == Times(low, q) + high;
    Pow2Add(bits - b, b);
    HighPart(a, p, q);
    hide *;
    BitOfParts(low, high, bits - b, i);
    BitOfParts(high, low, b, if i < bits - b then i + b else i + b - bits);
  }

  lemma HighPart(a: nat, p: nat, q: nat)
    requires p > 0 && a < q * p
    ensures Quotient(a, p) < q && a == Times(Quotient(a, p), p) + Rest(a, p) && Rest(a, p) < p
  {
    assert a == (a / p) * p + a % p;
    CancelFactor(q, a / p, p);
  }

  // ---------------------------------------------------------------- operators

  /** The number of values of a width. */
  function Values(w: Width): (n: nat)
    ensures n > 0
  {
    match w
    case I8 => 0x100
    case I16 => 0x1_0000
    case I32 => 0x1_0000_0000
    case I64 => 0x1_0000_0000_0000_0000
  }

  function Places(w: Width): nat {
    match w case I8 => 8 case I16 => 16 case I32 => 32 case I64 => 64
  }

  /** The integer that x stands for in two's complement. */
  function Signed(w: Width, x: nat): int { if x < Values(w) / 2 then x else x - Values(w) }

  /** z is the and, the or or the exclusive or of two bits. */
  predicate IsBitOf(op: Op, z: nat, x: nat, y: nat) {
    z == if op == And then x * y else if op == Or then x + y - x * y else (x + y) % 2
  }

  /** r is what the operator makes of operands a and b of width w, shifts being by less than the width. */
  ghost predicate IsResult(op: Op, w: Width, a: nat, b: nat, r: nat) {
    && r < Values(w)
    && match op
       case Add => r == (a + b) % Values(w)
       case Sub => (r + b) % Values(w) == a % Values(w)
       case And => forall i: nat :: i < Places(w) ==> IsBitOf(op, BitAt(r, i), BitAt(a, i), BitAt(b, i))
       case Or => forall i: nat :: i < Places(w) ==> IsBitOf(op, BitAt(r, i), BitAt(a, i), BitAt(b, i))
       case Xor => forall i: nat :: i < Places(w) ==> IsBitOf(op, BitAt(r, i), BitAt(a, i), BitAt(b, i))
       case Shl => r == (a * Pow2(b)) % Values(w)
       case Shr => r * Pow2(b) <= a < (r + 1) * Pow2(b)
       case Asr => Signed(w, r) * Pow2(b) <= Signed(w, a) < (Signed(w, r) + 1) * Pow2(b)
       case Ror => forall i: nat :: i < Places(w) ==> BitAt(r, i) == BitAt(a, (i + b) % Places(w))
       case CmpEq => r == if a == b then Values(w) - 1 else 0
       case CmpNe => r == if a == b then 0 else Values(w) - 1
  }

  lemma ApplyIsResult(op: Op, w: Width, a: nat, b: nat)
    requires a < Values(w) && b < if op.IsShift() then Places(w) else Values(w)
    ensures IsResult(op, w, a, b, Apply(op, w, a, b))
  {
    match op
    case Sub => Difference(w, a, b);
    case And => BitwiseIs(op, w, a, b);
    case Or => BitwiseIs(op, w, a, b);
    case Xor => BitwiseIs(op, w, a, b);
    case Shr => QuotientBounds(w, a, Pow2(b));
    case Asr => FloorIs(w, a, Pow2(b));
    case Ror => RotationIs(w, a, b);
    case _ =>
  }

  lemma Difference(w: Width, a: nat, b: nat)
    requires a < Values(w) && b < Values(w)
    ensures ((a - b) % Values(w) + b) % Values(w) == a % Values(w)
  {
  }

  lemma BitwiseIs(op: Op, w: Width, a: nat, b: nat)
    requires op == And || op == Or || op == Xor
    ensures IsResult(op, w, a, b, Bitwise(op, a, b, w.Bits()))
  {
    SizesAre(w);
    SizeIsPow2(w);
    hide Bitwise, BitAt, Pow2, Values, Places, Width.Size, Width.Bits;
    BitwiseBound(op, a, b, w.Bits());
    forall i: nat | i < Places(w)
      ensures IsBitOf(op, BitAt(Bitwise(op, a, b, w.Bits()), i), BitAt(a, i), BitAt(b, i))
    {
      BitwiseAt(op, a, b, w.Bits(), i);
      BitIs(op, BitAt(a, i), BitAt(b, i));
    }
  }

  lemma BitIs(op: Op, x: nat, y: nat)
    requires (op == And || op == Or || op == Xor) && x < 2 && y < 2
    ensures IsBitOf(op, Bit(op, x, y), x, y)
  {
  }

  lemma QuotientBounds(w: Width, a: nat, p: nat)
    requires a < Values(w) && p > 0
    ensures var r := Quotient(a, p); r < Values(w) && r * p <= a < (r + 1) * p
  {
    QuotientSmaller(a, p);
    assert a == (a / p) * p + a % p;
  }

  lemma FloorIs(w: Width, a: nat, p: nat)
    requires a < Values(w) && p > 0
    ensures var s := Signed(w, a);
      var r := Floored(AsSigned(w, a), p) % w.Size();
      AsSigned(w, a) == s && r < Values(w) && Signed(w, r) * p <= s < (Signed(w, r) + 1) * p
  {
    SignedIs(w, a);
    var s := Signed(w, a);
    var f := Floored(s, p);
    FloorParts(s, p);
    hide *;
    FloorBounds(s, f, p, Values(w) / 2);
    WrappedIs(w, f);
  }

  lemma SignedIs(w: Width, a: nat)
    requires a < Values(w)
    ensures AsSigned(w, a) == Signed(w, a) && 0 - Values(w) / 2 <= Signed(w, a) < Values(w) / 2
  {
  }

  lemma FloorParts(s: int, p: nat)
    requires p > 0
    ensures Floored(s, p) * p <= s < (Floored(s, p) + 1) * p
  {
    assert s == (s / p) * p + s % p;
  }

  lemma FloorBounds(s: int, f: int, p: nat, half: nat)
    requires p > 0 && f * p <= s < (f + 1) * p && 0 - half <= s < half
    ensures 0 - half <= f < half
  {
    ProductMonotone(half, 1, p);
    assert (0 - half) * p == 0 - half * p;
    CancelFactor(half, f, p);
    CancelFactor(f + 1, 0 - half, p);
  }

  lemma WrappedIs(w: Width, f: int)
    requires 0 - Values(w) / 2 <= f < Values(w) / 2
    ensures 0 <= f % w.Size() < Values(w) && Signed(w, f % w.Size()) == f
  {
  }

  lemma RotationIs(w: Width, a: nat, b: nat)
    requires a < Values(w) && b < Places(w)
    ensures IsResult(Ror, w, a, b, Rotated(a, b, w.Bits()))
  {
    SizesAre(w);
    SizeIsPow2(w);
    RotatedBound(w, a, b);
    hide Rotated, BitAt, Pow2, Values, Places, Width.Size, Width.Bits;
    forall i: nat | i < Places(w)
      ensures BitAt(Rotated(a, b, w.Bits()), i) == BitAt(a, (i + b) % Places(w))
    {
      RotatedAt(a, b, w.Bits(), i);
      WrappedIndex(i, b, Places(w));
    }
  }

  lemma SizesAre(w: Width)
    ensures w.Size() == Values(w) && w.Bits() == Places(w)
  {
  }

  lemma WrappedIndex(i: nat, b: nat, n: nat)
    requires i < n && b < n
    ensures (i + b) % n == if i < n - b then i + b else i + b - n
  {
    DivisionUnique(i + b, if i < n - b then 0 else 1, n, if i < n - b then i + b else i + b - n);
  }
}
