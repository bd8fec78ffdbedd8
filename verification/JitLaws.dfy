/**
 What generated code computes for each kind of instruction.  The laws here name none of the functions by which
 the IR and the machine are described, so that they say what those functions compute.
 */
module JitLaws {
  import opened Wrappers
  import opened JitIr
  import opened JitBits
  import opened JitLower
  import opened JitMachine
  import opened JitCompile
  import opened JitOperators
  import opened JitBlocks

  // ---------------------------------------------------------------- operators in generated code

  /** Two values are read from the guest context, brought to the width of the operator, combined, and returned. */
  datatype OperatorBlock = OperatorBlock(op: Op, width: Width, first: int, second: int) {
    function SecondWidth(): Width { if op.IsShift() then I8 else I64 }

    function Ir(): seq<IrInsn> {
      if width == I64 then
        [Read(I64, 0, first), Read(SecondWidth(), 1, second), Binop(op, I64, 2, 0, 1), Exit(2, None)]
      else if op.IsShift() then
        [Read(I64, 0, first), Read(I8, 1, second), CastTo(Truncate(I64, width), 2, 0),
         Binop(op, width, 3, 2, 1), CastTo(ZeroExtend(width, I64), 4, 3), Exit(4, None)]
      else
        [Read(I64, 0, first), Read(I64, 1, second), CastTo(Truncate(I64, width), 2, 0), CastTo(Truncate(I64, width), 3, 1),
         Binop(op, width, 4, 2, 3), CastTo(ZeroExtend(width, I64), 5, 4), Exit(5, None)]
    }

    function Types(): seq<Width> {
      if width == I64 then [I64, SecondWidth(), I64]
      else if op.IsShift() then [I64, I8, width, width, I64]
      else [I64, I64, width, width, width, I64]
    }
  }

  lemma OperatorIsBlock(p: OperatorBlock)
    ensures IsBlock(p.Ir(), p.Types(), if p.op.IsShift() then 3 else 9)
  {
    OperatorInOrder(p);
    OperatorReadsClean(p);
    hide InOrder, ReadsClean;
  }

  lemma OperatorInOrder(p: OperatorBlock)
    ensures InOrder(p.Ir(), p.Types())
  {
    hide *;
    if p.width == I64 {
      WideInOrder(p);
    } else if p.op.IsShift() {
      ShiftInOrder(p);
    } else {
      NarrowInOrder(p);
    }
  }

  lemma WideInOrder(p: OperatorBlock)
    requires p.width == I64
    ensures InOrder(p.Ir(), p.Types())
  {
  }

  lemma ShiftInOrder(p: OperatorBlock)
    requires p.width != I64 && p.op.IsShift()
    ensures InOrder(p.Ir(), p.Types())
  {
  }

  lemma NarrowInOrder(p: OperatorBlock)
    requires p.width != I64 && !p.op.IsShift()
    ensures InOrder(p.Ir(), p.Types())
  {
  }

  lemma OperatorReadsClean(p: OperatorBlock)
    ensures forall i :: 0 <= i < |p.Ir()| ==> ReadsClean(p.Ir(), i)
  {
  }

  /** The operands: the values read, in the width of the operator; the count of a shift is a byte. */
  function First<W>(p: OperatorBlock, h: Host<W>, ctx: nat, w: W): nat {
    FieldOf(h, ctx, w, Field(I64, p.first)) % Values(p.width)
  }

  function Second<W>(p: OperatorBlock, h: Host<W>, ctx: nat, w: W): nat {
    if p.op.IsShift() then FieldOf(h, ctx, w, Field(I8, p.second))
    else FieldOf(h, ctx, w, Field(I64, p.second)) % Values(p.width)
  }

  lemma OperatorMeans<W>(p: OperatorBlock, h: Host<W>, ctx: nat, w: W)
    requires p.op.IsShift() ==> Second(p, h, ctx, w) < p.width.Bits()
    ensures |p.Ir()| > 0
    ensures RunIr(h, ctx, p.Ir(), 0, map[], w)
         == Exited(Apply(p.op, p.width, First(p, h, ctx, w), Second(p, h, ctx, w)), w, |p.Ir()| - 1)
  {
    var a, b := First(p, h, ctx, w), Second(p, h, ctx, w);
    hide RunIr, Apply, OperatorBlock.Ir;
    ApplyBound(p.op, p.width, a, b);
    if p.width == I64 {
      WideMeans(p, h, ctx, w, a, b);
    } else if p.op.IsShift() {
      ShiftedMeans(p, h, ctx, w, a, b);
    } else {
      NarrowMeans(p, h, ctx, w, a, b);
    }
    hide *;
  }

  lemma ApplyBound(op: Op, w: Width, a: nat, b: nat)
    requires a < Values(w) && b < if op.IsShift() then Places(w) else Values(w)
    ensures Apply(op, w, a, b) < Values(w)
  {
    ApplyIsResult(op, w, a, b);
    hide Apply, BitAt, Values, Places;
  }

  lemma WideMeans<W>(p: OperatorBlock, h: Host<W>, ctx: nat, w: W, a: nat, b: nat)
    requires p.width == I64 && a == FieldOf(h, ctx, w, Field(I64, p.first))
    requires b == FieldOf(h, ctx, w, Field(p.SecondWidth(), p.second)) && (p.op.IsShift() ==> b < 64)
    ensures |p.Ir()| == 4 && RunIr(h, ctx, p.Ir(), 0, map[], w) == Exited(Apply(p.op, I64, a, b), w, 3)
  {
    var ir := p.Ir();
    assert |ir| == 4 && ir[0] == Read(I64, 0, p.first) && ir[1] == Read(p.SecondWidth(), 1, p.second)
      && ir[2] == Binop(p.op, I64, 2, 0, 1) && ir[3] == Exit(2, None);
    var r := Apply(p.op, I64, a, b);
    hide OperatorBlock.Ir, RunIr, Apply, OperatorBlock.SecondWidth, Op.IsShift, FieldOf, StepIr;
    var e1: Env := map[0 := a];
    var e2 := e1[1 := b];
    var e3 := e2[2 := r];
    FieldIr(h, ctx, ir, 0, map[], w, 0, Field(I64, p.first));
    FieldIr(h, ctx, ir, 1, e1, w, 1, Field(p.SecondWidth(), p.second));
    BinopIr(h, ctx, ir, 2, e2, w, p.op, I64, 2, 0, 1);
    ExitIr(h, ctx, ir, 3, e3, w, 2);
  }

  lemma ShiftedIr(p: OperatorBlock)
    requires p.width != I64 && p.op.IsShift()
    ensures var ir := p.Ir();
      |ir| == 6 && ir[0] == Read(I64, 0, p.first) && ir[1] == Read(I8, 1, p.second)
      && ir[2] == CastTo(Truncate(I64, p.width), 2, 0) && ir[3] == Binop(p.op, p.width, 3, 2, 1)
      && ir[4] == CastTo(ZeroExtend(p.width, I64), 4, 3) && ir[5] == Exit(4, None)
  {
  }

  lemma ShiftedMeans<W>(p: OperatorBlock, h: Host<W>, ctx: nat, w: W, a: nat, b: nat)
    requires p.width != I64 && p.op.IsShift() && b < p.width.Bits() && Apply(p.op, p.width, a, b) < Values(p.width)
    requires a == FieldOf(h, ctx, w, Field(I64, p.first)) % Values(p.width) && b == FieldOf(h, ctx, w, Field(I8, p.second))
    ensures |p.Ir()| == 6 && RunIr(h, ctx, p.Ir(), 0, map[], w) == Exited(Apply(p.op, p.width, a, b), w, 5)
  {
    var ir := p.Ir();
    ShiftedIr(p);
    var x, r := FieldOf(h, ctx, w, Field(I64, p.first)), Apply(p.op, p.width, a, b);
    hide OperatorBlock.Ir, RunIr, Apply, Op.IsShift, Values, FieldOf, StepIr, Width.Bits;
    var e1: Env := map[0 := x];
    var e2 := e1[1 := b];
    var e3 := e2[2 := a];
    var e4 := e3[3 := r];
    var e5 := e4[4 := r];
    FieldIr(h, ctx, ir, 0, map[], w, 0, Field(I64, p.first));
    FieldIr(h, ctx, ir, 1, e1, w, 1, Field(I8, p.second));
    TruncateIr(h, ctx, ir, 2, e2, w, p.width, 2, 0);
    BinopIr(h, ctx, ir, 3, e3, w, p.op, p.width, 3, 2, 1);
    ExtendIr(h, ctx, ir, 4, e4, w, p.width, 4, 3);
    ExitIr(h, ctx, ir, 5, e5, w, 4);
  }

  lemma NarrowIr(p: OperatorBlock)
    requires p.width != I64 && !p.op.IsShift()
    ensures var ir := p.Ir();
      |ir| == 7 && ir[0] == Read(I64, 0, p.first) && ir[1] == Read(I64, 1, p.second)
      && ir[2] == CastTo(Truncate(I64, p.width), 2, 0) && ir[3] == CastTo(Truncate(I64, p.width), 3, 1)
      && ir[4] == Binop(p.op, p.width, 4, 2, 3) && ir[5] == CastTo(ZeroExtend(p.width, I64), 5, 4) && ir[6] == Exit(5, None)
  {
  }

  lemma NarrowMeans<W>(p: OperatorBlock, h: Host<W>, ctx: nat, w: W, a: nat, b: nat)
    requires p.width != I64 && !p.op.IsShift() && Apply(p.op, p.width, a, b) < Values(p.width)
    requires a == FieldOf(h, ctx, w, Field(I64, p.first)) % Values(p.width)
    requires b == FieldOf(h, ctx, w, Field(I64, p.second)) % Values(p.width)
    ensures |p.Ir()| == 7 && RunIr(h, ctx, p.Ir(), 0, map[], w) == Exited(Apply(p.op, p.width, a, b), w, 6)
  {
    var ir := p.Ir();
    NarrowIr(p);
    var x, y := FieldOf(h, ctx, w, Field(I64, p.first)), FieldOf(h, ctx, w, Field(I64, p.second));
    var r := Apply(p.op, p.width, a, b);
    hide OperatorBlock.Ir, RunIr, Apply, Op.IsShift, Values, FieldOf, StepIr;
    var e1: Env := map[0 := x];
    var e2 := e1[1 := y];
    var e3 := e2[2 := a];
    var e4 := e3[3 := b];
    var e5 := e4[4 := r];
    var e6 := e5[5 := r];
    FieldIr(h, ctx, ir, 0, map[], w, 0, Field(I64, p.first));
    FieldIr(h, ctx, ir, 1, e1, w, 1, Field(I64, p.second));
    TruncateIr(h, ctx, ir, 2, e2, w, p.width, 2, 0);
    TruncateIr(h, ctx, ir, 3, e3, w, p.width, 3, 1);
    BinopIr(h, ctx, ir, 4, e4, w, p.op, p.width, 4, 2, 3);
    ExtendIr(h, ctx, ir, 5, e5, w, p.width, 5, 4);
    ExitIr(h, ctx, ir, 6, e6, w, 5);
  }

  /**
   The code of every operator in every width, from every state of the machine: it returns the result of the
   operator on the operands that it has read, and changes nothing.
   */
  lemma OperatorLaw<W>(p: OperatorBlock, h: Host<W>, m: Machine<W>)
    requires p.op.IsShift() ==> Second(p, h, m.regs[RDI], m.world) < Places(p.width)
    ensures WellFormed(p.Ir(), p.Types()) && JitCompile.Fits(p.Ir(), p.Types())
    ensures exists r: nat ::
      && Run(h, Compile(p.Ir(), p.Types()), 0, m) == Returned(r, 0, m.world)
      && IsResult(p.op, p.width, First(p, h, m.regs[RDI], m.world), Second(p, h, m.regs[RDI], m.world), r)
  {
    var ctx := m.regs[RDI];
    var a, b := First(p, h, ctx, m.world), Second(p, h, ctx, m.world);
    SizesAre(p.width);
    SameReads(p, h, ctx, m.world);
    OperandBounds(p, h, ctx, m.world);
    hide *;
    OperatorIsBlock(p);
    OperatorMeans(p, OnX86(h), ctx, m.world);
    var r := Apply(p.op, p.width, a, b);
    ApplyIsResult(p.op, p.width, a, b);
    BlockReturns(h, p.Ir(), p.Types(), if p.op.IsShift() then 3 else 9, m, r, m.world);
  }

  lemma SameReads<W>(p: OperatorBlock, h: Host<W>, ctx: nat, w: W)
    ensures First(p, OnX86(h), ctx, w) == First(p, h, ctx, w) && Second(p, OnX86(h), ctx, w) == Second(p, h, ctx, w)
  {
  }

  lemma OperandBounds<W>(p: OperatorBlock, h: Host<W>, ctx: nat, w: W)
    ensures First(p, h, ctx, w) < Values(p.width) && (!p.op.IsShift() ==> Second(p, h, ctx, w) < Values(p.width))
  {
  }

  // ---------------------------------------------------------------- casts, memory, context and calls

  /** A value is read, cut to the width of the cast, cast and returned. */
  datatype CastBlock = CastBlock(cast: Cast, offset: int) {
    predicate Valid() { cast.Valid() && cast.from != I64 }

    function Ir(): seq<IrInsn> {
      [Read(I64, 0, offset), CastTo(Truncate(I64, cast.from), 1, 0), CastTo(cast, 2, 1)]
      + if cast.to == I64 then [Exit(2, None)] else [CastTo(ZeroExtend(cast.to, I64), 3, 2), Exit(3, None)]
    }

    function Types(): seq<Width> { [I64, cast.from, cast.to, I64] }
  }

  /** Extensions keep the value, unsigned or signed, and truncations its remainder. */
  predicate IsCast(c: Cast, a: nat, r: nat) {
    match c
    case ZeroExtend(_, _) => r == a
    case SignExtend(from, to) => r < Values(to) && Signed(to, r) == Signed(from, a)
    case Truncate(_, to) => r == a % Values(to)
  }

  lemma ApplyIsCast(c: Cast, a: nat)
    requires c.Valid() && a < Values(c.from)
    ensures IsCast(c, a, ApplyCast(c, a)) && ApplyCast(c, a) < Values(c.to)
  {
    SignedIs(c.from, a);
    if c.SignExtend? {
      WrappedIs(c.to, Signed(c.from, a));
    }
  }

  lemma CastInOrder(p: CastBlock)
    requires p.Valid()
    ensures InOrder(p.Ir(), p.Types())
  {
  }

  lemma CastIsBlock(p: CastBlock)
    requires p.Valid()
    ensures IsBlock(p.Ir(), p.Types(), 9)
  {
    CastInOrder(p);
    forall i | 0 <= i < |p.Ir()|
      ensures ReadsClean(p.Ir(), i)
    {
    }
    hide InOrder, ReadsClean;
  }

  lemma CastMeans<W>(p: CastBlock, h: Host<W>, ctx: nat, w: W)
    requires p.Valid()
    ensures |p.Ir()| > 0
    ensures RunIr(h, ctx, p.Ir(), 0, map[], w)
         == Exited(ApplyCast(p.cast, FieldOf(h, ctx, w, Field(I64, p.offset)) % Values(p.cast.from)), w, |p.Ir()| - 1)
  {
    var ir, c := p.Ir(), p.cast;
    var x := FieldOf(h, ctx, w, Field(I64, p.offset));
    var a := x % Values(c.from);
    ApplyIsCast(c, a);
    var r := ApplyCast(c, a);
    assert ir[0] == Read(I64, 0, p.offset) && ir[1] == CastTo(Truncate(I64, c.from), 1, 0) && ir[2] == CastTo(c, 2, 1);
    var e1: Env := map[0 := x];
    var e2 := e1[1 := a];
    var e3 := e2[2 := r];
    var e4 := e3[3 := r];
    hide RunIr, ApplyCast, Values, FieldOf, StepIr, IsCast;
    FieldIr(h, ctx, ir, 0, map[], w, 0, Field(I64, p.offset));
    TruncateIr(h, ctx, ir, 1, e1, w, c.from, 1, 0);
    CastIr(h, ctx, ir, 2, e2, w, c, 2, 1);
    if c.to == I64 {
      ExitIr(h, ctx, ir, 3, e3, w, 2);
    } else {
      ExtendIr(h, ctx, ir, 3, e3, w, c.to, 3, 2);
      ExitIr(h, ctx, ir, 4, e4, w, 3);
    }
  }

  lemma CastLaw<W>(p: CastBlock, h: Host<W>, m: Machine<W>)
    requires p.Valid()
    ensures WellFormed(p.Ir(), p.Types()) && JitCompile.Fits(p.Ir(), p.Types())
    ensures exists r: nat ::
      && Run(h, Compile(p.Ir(), p.Types()), 0, m) == Returned(r, 0, m.world)
      && IsCast(p.cast, FieldOf(h, m.regs[RDI], m.world, Field(I64, p.offset)) % Values(p.cast.from), r)
  {
    var ctx := m.regs[RDI];
    var a := FieldOf(h, ctx, m.world, Field(I64, p.offset)) % Values(p.cast.from);
    assert FieldOf(OnX86(h), ctx, m.world, Field(I64, p.offset)) == FieldOf(h, ctx, m.world, Field(I64, p.offset));
    ApplyIsCast(p.cast, a);
    hide *;
    CastIsBlock(p);
    CastMeans(p, OnX86(h), ctx, m.world);
    BlockReturns(h, p.Ir(), p.Types(), 9, m, ApplyCast(p.cast, a), m.world);
  }

  /** A value is loaded from the address in one field of the context and stored at that in another one; then the
      context is written and read. */
  datatype MemoryBlock = MemoryBlock(width: Width, from: int, to: int) {
    function Ir(): seq<IrInsn> {
      [Read(I64, 0, from), Read(I64, 1, to), Load(width, 2, 0), Store(width, 2, 1), Write(width, 2, to),
       Read(I64, 5, from), Exit(5, None)]
    }

    function Types(): seq<Width> { [I64, I64, width, I64, I64, I64] }
  }

  lemma MemoryInOrder(p: MemoryBlock)
    ensures InOrder(p.Ir(), p.Types())
  {
  }

  lemma MemoryIsBlock(p: MemoryBlock)
    ensures IsBlock(p.Ir(), p.Types(), 9)
  {
    MemoryInOrder(p);
    forall i | 0 <= i < |p.Ir()|
      ensures ReadsClean(p.Ir(), i)
    {
    }
    hide InOrder, ReadsClean;
  }

  lemma MemoryLaw<W>(p: MemoryBlock, h: Host<W>, m: Machine<W>)
    ensures WellFormed(p.Ir(), p.Types()) && JitCompile.Fits(p.Ir(), p.Types())
    ensures var ctx := m.regs[RDI];
      var source, target := FieldOf(h, ctx, m.world, Field(I64, p.from)), FieldOf(h, ctx, m.world, Field(I64, p.to));
      var v := h.load(m.world, p.width, source) % Values(p.width);
      var w := h.write(h.store(m.world, p.width, target, v), p.width, ctx, p.to, v);
      Run(h, Compile(p.Ir(), p.Types()), 0, m) == Returned(FieldOf(h, ctx, w, Field(I64, p.from)), 0, w)
  {
    var ctx := m.regs[RDI];
    MemoryMeans(p, OnX86(h), ctx, m.world);
    MemoryIsBlock(p);
    hide RunIr, Run, Compile, WellFormed, JitCompile.Fits, IsBlock, MemoryBlock.Types, MemoryBlock.Ir, Values;
    var source, target := FieldOf(h, ctx, m.world, Field(I64, p.from)), FieldOf(h, ctx, m.world, Field(I64, p.to));
    var v := h.load(m.world, p.width, source) % Values(p.width);
    var w := h.write(h.store(m.world, p.width, target, v), p.width, ctx, p.to, v);
    BlockReturns(h, p.Ir(), p.Types(), 9, m, FieldOf(h, ctx, w, Field(I64, p.from)), w);
  }

  lemma MemoryIr(p: MemoryBlock)
    ensures var ir := p.Ir();
      |ir| == 7 && ir[0] == Read(I64, 0, p.from) && ir[1] == Read(I64, 1, p.to) && ir[2] == Load(p.width, 2, 0)
      && ir[3] == Store(p.width, 2, 1) && ir[4] == Write(p.width, 2, p.to) && ir[5] == Read(I64, 5, p.from)
      && ir[6] == Exit(5, None)
  {
  }

  lemma MemoryMeans<W>(p: MemoryBlock, h: Host<W>, ctx: nat, w: W)
    ensures |p.Ir()| == 7
    ensures var source, target := FieldOf(h, ctx, w, Field(I64, p.from)), FieldOf(h, ctx, w, Field(I64, p.to));
      var v := h.load(w, p.width, source) % Values(p.width);
      var w' := h.write(h.store(w, p.width, target, v), p.width, ctx, p.to, v);
      RunIr(h, ctx, p.Ir(), 0, map[], w) == Exited(FieldOf(h, ctx, w', Field(I64, p.from)), w', 6)
  {
    var ir := p.Ir();
    MemoryIr(p);
    hide RunIr, Values, MemoryBlock.Ir, FieldOf;
    var source, target := FieldOf(h, ctx, w, Field(I64, p.from)), FieldOf(h, ctx, w, Field(I64, p.to));
    var v := h.load(w, p.width, source) % Values(p.width);
    var w1 := h.store(w, p.width, target, v);
    var w2 := h.write(w1, p.width, ctx, p.to, v);
    var e1: Env := map[0 := source];
    var e2 := e1[1 := target];
    var e3 := e2[2 := v];
    var e4 := e3[5 := FieldOf(h, ctx, w2, Field(I64, p.from))];
    FieldIr(h, ctx, ir, 0, map[], w, 0, Field(I64, p.from));
    FieldIr(h, ctx, ir, 1, e1, w, 1, Field(I64, p.to));
    LoadIr(h, ctx, ir, 2, e2, w, p.width, 2, 0);
    NextIr(h, ctx, ir, 3, e3, w, e3, w1);
    NextIr(h, ctx, ir, 4, e3, w1, e3, w2);
    FieldIr(h, ctx, ir, 5, e3, w2, 5, Field(I64, p.from));
    ExitIr(h, ctx, ir, 6, e4, w2, 5);
  }

  /** A helper whose address is in the context is called with four fields of it, and its result returned. */
  datatype CallBlock = CallBlock(address: int, a: Field, b: Field, c: Field, d: Field) {
    function Ir(): seq<IrInsn> {
      [Read(I64, 0, address), Read(a.width, 1, a.offset), Read(b.width, 2, b.offset), Read(c.width, 3, c.offset),
       Read(d.width, 4, d.offset), Call(0, [Some(1), Some(2), Some(3), Some(4)], I64, Some(5)), Exit(5, None)]
    }

    function Types(): seq<Width> { [I64, a.width, b.width, c.width, d.width, I64] }
  }

  lemma CallInOrder(p: CallBlock)
    ensures InOrder(p.Ir(), p.Types())
  {
  }

  lemma CallIsBlock(p: CallBlock)
    ensures IsBlock(p.Ir(), p.Types(), 9)
  {
    CallInOrder(p);
    CallReadsClean(p);
    hide InOrder, ReadsClean;
  }

  lemma CallReadsClean(p: CallBlock)
    ensures forall i :: 0 <= i < |p.Ir()| ==> ReadsClean(p.Ir(), i)
  {
    hide IrInsn.Uses;
  }

  /** The helper gets the context, and the fields in their order and widths; its result and its effects are kept. */
  lemma CallLaw<W>(p: CallBlock, h: Host<W>, m: Machine<W>)
    ensures WellFormed(p.Ir(), p.Types()) && JitCompile.Fits(p.Ir(), p.Types())
    ensures var ctx, w := m.regs[RDI], m.world;
      var (w', v) := h.call(w, FieldOf(h, ctx, w, Field(I64, p.address)), ctx,
                            [Some(FieldOf(h, ctx, w, p.a)), Some(FieldOf(h, ctx, w, p.b)),
                             Some(FieldOf(h, ctx, w, p.c)), Some(FieldOf(h, ctx, w, p.d))]);
      Run(h, Compile(p.Ir(), p.Types()), 0, m) == Returned(v % Values(I64), 0, w')
  {
    var ctx, w := m.regs[RDI], m.world;
    CallMeans(p, OnX86(h), ctx, w);
    CallIsBlock(p);
    hide RunIr, Run, Compile, WellFormed, JitCompile.Fits, IsBlock, CallBlock.Types, CallBlock.Ir, Values;
    var (w', v) := h.call(w, FieldOf(h, ctx, w, Field(I64, p.address)), ctx,
                          [Some(FieldOf(h, ctx, w, p.a)), Some(FieldOf(h, ctx, w, p.b)),
                           Some(FieldOf(h, ctx, w, p.c)), Some(FieldOf(h, ctx, w, p.d))]);
    BlockReturns(h, p.Ir(), p.Types(), 9, m, v % Values(I64), w');
  }

  lemma CallsIr(p: CallBlock)
    ensures var ir := p.Ir();
      |ir| == 7 && ir[0] == Read(I64, 0, p.address) && ir[1] == Read(p.a.width, 1, p.a.offset)
      && ir[2] == Read(p.b.width, 2, p.b.offset) && ir[3] == Read(p.c.width, 3, p.c.offset)
      && ir[4] == Read(p.d.width, 4, p.d.offset) && ir[5] == Call(0, [Some(1), Some(2), Some(3), Some(4)], I64, Some(5))
      && ir[6] == Exit(5, None)
  {
  }

  lemma CallMeans<W>(p: CallBlock, h: Host<W>, ctx: nat, w: W)
    ensures |p.Ir()| == 7
    ensures var (w', v) := h.call(w, FieldOf(h, ctx, w, Field(I64, p.address)), ctx,
                                  [Some(FieldOf(h, ctx, w, p.a)), Some(FieldOf(h, ctx, w, p.b)),
                                   Some(FieldOf(h, ctx, w, p.c)), Some(FieldOf(h, ctx, w, p.d))]);
      RunIr(h, ctx, p.Ir(), 0, map[], w) == Exited(v % Values(I64), w', 6)
  {
    var ir := p.Ir();
    CallsIr(p);
    hide RunIr, Values, CallBlock.Ir, FieldOf, StepIr, Args;
    var e1: Env := map[0 := FieldOf(h, ctx, w, Field(I64, p.address))];
    var e2 := e1[1 := FieldOf(h, ctx, w, p.a)];
    var e3 := e2[2 := FieldOf(h, ctx, w, p.b)];
    var e4 := e3[3 := FieldOf(h, ctx, w, p.c)];
    var e5 := e4[4 := FieldOf(h, ctx, w, p.d)];
    FieldIr(h, ctx, ir, 0, map[], w, 0, Field(I64, p.address));
    FieldIr(h, ctx, ir, 1, e1, w, 1, p.a);
    FieldIr(h, ctx, ir, 2, e2, w, 2, p.b);
    FieldIr(h, ctx, ir, 3, e3, w, 3, p.c);
    FieldIr(h, ctx, ir, 4, e4, w, 4, p.d);
    CallIr(h, ctx, ir, 5, e5, w, 0, 1, 2, 3, 4, 5);
    var (w', v) := h.call(w, Get(e5, 0), ctx, [Some(Get(e5, 1)), Some(Get(e5, 2)), Some(Get(e5, 3)), Some(Get(e5, 4))]);
    ExitIr(h, ctx, ir, 6, e5[5 := v % Values(I64)], w', 5);
  }

  /** One of two values is selected by a third one and returned. */
  datatype SelectBlock = SelectBlock(pred: int, first: int, second: int) {
    function Ir(): seq<IrInsn> {
      [Read(I64, 0, pred), Read(I64, 1, first), Read(I64, 2, second), Ite(I64, 3, 0, 1, 2), Exit(3, None)]
    }

    function Types(): seq<Width> { [I64, I64, I64, I64] }
  }

  lemma SelectInOrder(p: SelectBlock)
    ensures InOrder(p.Ir(), p.Types())
  {
  }

  lemma SelectIsBlock(p: SelectBlock)
    ensures IsBlock(p.Ir(), p.Types(), 9)
  {
    SelectInOrder(p);
    forall i | 0 <= i < |p.Ir()|
      ensures ReadsClean(p.Ir(), i)
    {
    }
    hide InOrder, ReadsClean;
  }

  lemma SelectLaw<W>(p: SelectBlock, h: Host<W>, m: Machine<W>)
    ensures WellFormed(p.Ir(), p.Types()) && JitCompile.Fits(p.Ir(), p.Types())
    ensures var ctx, w := m.regs[RDI], m.world;
      var which := if FieldOf(h, ctx, w, Field(I64, p.pred)) != 0 then p.first else p.second;
      Run(h, Compile(p.Ir(), p.Types()), 0, m) == Returned(FieldOf(h, ctx, w, Field(I64, which)), 0, w)
  {
    var ctx, w := m.regs[RDI], m.world;
    SelectMeans(p, OnX86(h), ctx, w);
    SelectIsBlock(p);
    hide RunIr, Run, Compile, WellFormed, JitCompile.Fits, IsBlock, SelectBlock.Types, SelectBlock.Ir, Values;
    var which := if FieldOf(h, ctx, w, Field(I64, p.pred)) != 0 then p.first else p.second;
    BlockReturns(h, p.Ir(), p.Types(), 9, m, FieldOf(h, ctx, w, Field(I64, which)), w);
  }

  lemma SelectMeans<W>(p: SelectBlock, h: Host<W>, ctx: nat, w: W)
    ensures |p.Ir()| == 5
    ensures var which := if FieldOf(h, ctx, w, Field(I64, p.pred)) != 0 then p.first else p.second;
      RunIr(h, ctx, p.Ir(), 0, map[], w) == Exited(FieldOf(h, ctx, w, Field(I64, which)), w, 4)
  {
    var ir := p.Ir();
    assert ir[0] == Read(I64, 0, p.pred) && ir[1] == Read(I64, 1, p.first) && ir[2] == Read(I64, 2, p.second)
      && ir[3] == Ite(I64, 3, 0, 1, 2) && ir[4] == Exit(3, None);
    hide RunIr, SelectBlock.Ir, FieldOf;
    var c := FieldOf(h, ctx, w, Field(I64, p.pred));
    var a, b := FieldOf(h, ctx, w, Field(I64, p.first)), FieldOf(h, ctx, w, Field(I64, p.second));
    var e1: Env := map[0 := c];
    var e2 := e1[1 := a];
    var e3 := e2[2 := b];
    var e4 := e3[3 := if c != 0 then a else b];
    FieldIr(h, ctx, ir, 0, map[], w, 0, Field(I64, p.pred));
    FieldIr(h, ctx, ir, 1, e1, w, 1, Field(I64, p.first));
    FieldIr(h, ctx, ir, 2, e2, w, 2, Field(I64, p.second));
    NextIr(h, ctx, ir, 3, e3, w, e4, w);
    ExitIr(h, ctx, ir, 4, e4, w, 3);
  }
}
