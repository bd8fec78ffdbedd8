/**
 A shift by a register of the guest.  The IR always executes the shift, by the low byte of the register, and
 discards its result if the count is out of range; so it does not matter what such a shift computes.
 */
module JitShift {
  import opened Arithmetic
  import opened Powers
  import opened Words
  import opened JitIr
  import opened JitBits
  import opened JitLower
  import opened JitAlloc
  import opened JitMachine
  import opened JitCompile
  import opened JitSmall

  /** rd := rm shifted left or right by the low byte of rs; the fields are the operation and context offsets. */
  datatype RegisterShift = RegisterShift(op: Op, rm: int, rs: int, rd: int) {
    predicate Valid() { op == Shl || op == Shr }

    function Ir(): seq<IrInsn> {
      [Read(I32, 0, rm), Read(I32, 1, rs),
       MovConst(I32, 2, 0xE0), Binop(And, I32, 3, 1, 2), MovConst(I32, 4, 0),
       CastTo(Truncate(I32, I8), 5, 1), Binop(op, I32, 6, 0, 5),
       Ite(I32, 7, 3, 4, 6), Write(I32, 7, rd)]
    }

    function Code(): seq<XInsn> {
      [XRead(I32, Of(0), rm), XRead(I32, Of(1), rs),
       XMov(Of(2), 0xE0), XBinop(And, I32, Of(3), Of(1), Of(2)), XMov(Of(4), 0),
       XCast(Truncate(I32, I8), Of(5), Of(1)), XBinop(op, I32, Of(6), Of(0), Of(5)),
       XIte(Of(7), Of(3), Of(4), Of(6)), XWrite(I32, Of(7), rd)]
    }
  }

  const SHIFT_TYPES: seq<Width> := [I32, I32, I32, I32, I32, I8, I32, I32]

  /** What the guest instruction is meant to compute: nothing is left of a value shifted by 32 or more. */
  function GuestShift(op: Op, a: nat, n: nat): nat
    requires op == Shl || op == Shr
  {
    if n % 0x100 < 32 then Apply(op, I32, a, n % 0x100) else 0
  }

  // ---------------------------------------------------------------- the test of the count

  lemma {:induction false} AndWithZero(x: nat, n: nat)
    ensures Bitwise(And, x, 0, n) == 0
  {
    if n > 0 {
      AndWithZero(x / 2, n - 1);
    }
  }

  /** The mask 0xE0 tells counts of 32 and more. */
  lemma CountTest(x: nat)
    ensures Bitwise(And, x, 0xE0, 32) == 0 <==> x % 0x100 < 32
  {
    var y := x / 32;
    MaskIsLow(y, 3, 27);
    assert Pow2(3) == 8;
    hide *;
    Halvings(x);
    HalfOfAnd(x, 0x70, 31);
    HalfOfAnd(x / 2, 0x38, 30);
    HalfOfAnd(x / 4, 0x1C, 29);
    HalfOfAnd(x / 8, 0xE, 28);
    HalfOfAnd(x / 16, 7, 27);
    InRange(x);
  }

  lemma Halvings(x: nat)
    ensures x / 2 / 2 == x / 4 && x / 4 / 2 == x / 8 && x / 8 / 2 == x / 16 && x / 16 / 2 == x / 32
  {
  }

  lemma InRange(x: nat)
    ensures Rest(x / 32, 8) == 0 <==> x % 0x100 < 32
  {
    var q, r := x / 0x100, x % 0x100;
    DivisionUnique(x, 8 * q + r / 32, 32, r % 32);
    DivisionUnique(x / 32, q, 8, r / 32);
  }

  lemma HalfOfAnd(x: nat, y: nat, n: nat)
    ensures Bitwise(And, x, 2 * y, n + 1) == 2 * Bitwise(And, x / 2, y, n)
  {
    assert (2 * y) / 2 == y && (2 * y) % 2 == 0;
  }

  // ---------------------------------------------------------------- the program

  lemma ShiftIr(p: RegisterShift)
    ensures var ir := p.Ir();
      && |ir| == 9 && ir[0] == Read(I32, 0, p.rm)
      && ir[1] == Read(I32, 1, p.rs) && ir[2] == MovConst(I32, 2, 0xE0)
      && ir[3] == Binop(And, I32, 3, 1, 2) && ir[4] == MovConst(I32, 4, 0)
      && ir[5] == CastTo(Truncate(I32, I8), 5, 1) && ir[6] == Binop(p.op, I32, 6, 0, 5)
      && ir[7] == Ite(I32, 7, 3, 4, 6) && ir[8] == Write(I32, 7, p.rd)
  {
  }

  lemma ShiftDefs(p: RegisterShift)
    ensures var ir := p.Ir();
      && Defs(ir, 0) == {} && Defs(ir, 1) == {0} && Defs(ir, 2) == {0, 1} && Defs(ir, 3) == {0, 1, 2}
      && Defs(ir, 4) == {0, 1, 2, 3} && Defs(ir, 5) == {0, 1, 2, 3, 4} && Defs(ir, 6) == {0, 1, 2, 3, 4, 5}
      && Defs(ir, 7) == {0, 1, 2, 3, 4, 5, 6} && Defs(ir, 8) == {0, 1, 2, 3, 4, 5, 6, 7}
  {
    var ir := p.Ir();
    assert Defs(ir, 1) == {0};
    assert Defs(ir, 2) == {0, 1};
    assert Defs(ir, 3) == {0, 1, 2};
    assert Defs(ir, 4) == {0, 1, 2, 3};
    assert Defs(ir, 5) == {0, 1, 2, 3, 4};
    assert Defs(ir, 6) == {0, 1, 2, 3, 4, 5};
    assert Defs(ir, 7) == {0, 1, 2, 3, 4, 5, 6};
  }

  lemma ShiftIsWellFormed(p: RegisterShift)
    requires p.Valid()
    ensures WellFormed(p.Ir(), SHIFT_TYPES)
  {
    ShiftDefs(p);
    hide Defs;
    forall i | 0 <= i < |p.Ir()|
      ensures Typed(p.Ir()[i], SHIFT_TYPES)
      ensures p.Ir()[i].Uses() <= Defs(p.Ir(), i) && Given(p.Ir()[i].Dst()) !! Defs(p.Ir(), i)
    {
    }
  }

  lemma ShiftNeeds(p: RegisterShift)
    requires p.Valid()
    ensures |p.Ir()| == 9 && NeedsClean(p.Ir()[6]) <= {0} && NeedsClean(p.Ir()[7]) == {3}
    ensures forall i :: 0 <= i < 9 && i != 6 && i != 7 ==> NeedsClean(p.Ir()[i]) == {}
    ensures forall i :: 0 <= i < 9 ==> !p.Ir()[i].Call?
    ensures forall i :: 1 <= i < 7 ==> 0 !in Given(p.Ir()[i].Dst())
    ensures forall i :: 4 <= i < 7 ==> 3 !in Given(p.Ir()[i].Dst())
  {
  }

  /** It needs no promise: the operand and the test of the count come in clean registers. */
  lemma ShiftIsSupported(p: RegisterShift)
    requires p.Valid()
    ensures Supported(p.Ir(), {})
  {
    var ir := p.Ir();
    ShiftNeeds(p);
    assert 0 in CleanAfter(ir, {}, 1);
    assert 3 in CleanAfter(ir, {}, 4);
    hide RegisterShift.Ir, CleanAfter, NeedsClean, IrInsn.Dst;
    CleanStays(ir, {}, 1, 6, 0);
    CleanStays(ir, {}, 4, 7, 3);
  }

  lemma ShiftIsLowered(p: RegisterShift)
    requires p.Valid()
    ensures Lower(p.Ir(), SHIFT_TYPES) == p.Code()
  {
    var ir, types, code := p.Ir(), SHIFT_TYPES, p.Code();
    UsesAreUsed(ir, 3, 9);
    UsesAreUsed(ir, 6, 9);
    var used := UsedBy(ir, 9);
    assert 1 in ir[3].Uses() && 0 in ir[6].Uses();
    hide UsedBy;
    assert LowerTo(ir, types, used, 0) == code[..0];
    hide LowerTo;
    LowerStep(ir, types, used, code, 0);
    LowerStep(ir, types, used, code, 1);
    LowerStep(ir, types, used, code, 2);
    LowerStep(ir, types, used, code, 3);
    LowerStep(ir, types, used, code, 4);
    LowerStep(ir, types, used, code, 5);
    LowerStep(ir, types, used, code, 6);
    LowerStep(ir, types, used, code, 7);
    LowerStep(ir, types, used, code, 8);
    assert code[..9] == code;
  }

  lemma ShiftCompiles(p: RegisterShift)
    requires p.Valid()
    ensures WellFormed(p.Ir(), SHIFT_TYPES) && JitCompile.Fits(p.Ir(), SHIFT_TYPES)
    ensures |Compile(p.Ir(), SHIFT_TYPES)| < W64 - 10
  {
    hide WellFormed, Lower, Compile, SingleAssignment, Allocate, DefsX;
    ShiftIsWellFormed(p);
    ShiftIsLowered(p);
    LoweredTo(p.Ir(), SHIFT_TYPES, 9);
    LowerIs(p.Ir(), SHIFT_TYPES);
    DefinitionsAtMost(p.Code(), 8);
    DefinitionsStep(p.Code(), 8);
    FewDefinitionsFit(p.Code());
    SmallProgramCompiles(p.Ir(), SHIFT_TYPES);
  }

  /** Whatever shifts out of range compute, the guest register gets what the instruction is meant to give. */
  lemma ShiftMeans<W>(p: RegisterShift, h: Host<W>, ctx: nat, w: W)
    requires p.Valid()
    ensures var a, n := h.read(w, I32, ctx, p.rm) % 0x1_0000_0000, h.read(w, I32, ctx, p.rs) % 0x1_0000_0000;
      RunIr(h, ctx, p.Ir(), 0, map[], w) == Ended(h.write(w, I32, ctx, p.rd, GuestShift(p.op, a, n)))
  {
    hide RunIr, Apply, Result, RegisterShift.Ir, Bitwise, GuestShift;
    ShiftIr(p);
    var ir := p.Ir();
    var a, n := h.read(w, I32, ctx, p.rm) % 0x1_0000_0000, h.read(w, I32, ctx, p.rs) % 0x1_0000_0000;
    var t, s := Result(h, And, I32, n, 0xE0), Result(h, p.op, I32, a, n % 0x100);
    var e1: Env := map[0 := a];
    var e2 := e1[1 := n];
    var e3 := e2[2 := 0xE0];
    var e4 := e3[3 := t];
    var e5 := e4[4 := 0];
    NextIr(h, ctx, ir, 0, map[], w, e1, w);
    NextIr(h, ctx, ir, 1, e1, w, e2, w);
    NextIr(h, ctx, ir, 2, e2, w, e3, w);
    NextIr(h, ctx, ir, 3, e3, w, e4, w);
    NextIr(h, ctx, ir, 4, e4, w, e5, w);
    Discarded(h, p.op, a, n);
    ShiftEnds(p, h, ctx, w, e5, a, n, t, s);
  }

  /** The result of the shift is selected if the count is in range. */
  lemma Discarded<W>(h: Host<W>, op: Op, a: nat, n: nat)
    requires op == Shl || op == Shr
    ensures GuestShift(op, a, n) == if Result(h, And, I32, n, 0xE0) != 0 then 0 else Result(h, op, I32, a, n % 0x100)
  {
    AndIs(n, 0xE0);
    CountTest(n);
    hide Bitwise;
  }

  lemma ShiftEnds<W>(p: RegisterShift, h: Host<W>, ctx: nat, w: W, e5: Env, a: nat, n: nat, t: nat, s: nat)
    requires Get(e5, 0) == a && Get(e5, 1) == n && Get(e5, 3) == t && Get(e5, 4) == 0 && s == Result(h, p.op, I32, a, n % 0x100)
    ensures |p.Ir()| == 9
    ensures RunIr(h, ctx, p.Ir(), 5, e5, w) == Ended(h.write(w, I32, ctx, p.rd, if t != 0 then 0 else s))
  {
    hide RunIr, Apply, Result, RegisterShift.Ir;
    ShiftIr(p);
    var ir := p.Ir();
    var e6 := e5[5 := n % 0x100];
    var e7 := e6[6 := s];
    var e8 := e7[7 := if t != 0 then 0 else s];
    var w' := h.write(w, I32, ctx, p.rd, if t != 0 then 0 else s);
    NextIr(h, ctx, ir, 5, e5, w, e6, w);
    NextIr(h, ctx, ir, 6, e6, w, e7, w);
    NextIr(h, ctx, ir, 7, e7, w, e8, w);
    NextIr(h, ctx, ir, 8, e8, w, e8, w');
    EndIr(h, ctx, ir, e8, w');
  }

  lemma AndIs(x: nat, y: nat)
    ensures Apply(And, I32, x, y) == Bitwise(And, x, y, 32)
  {
  }

  lemma EndIr<W>(h: Host<W>, ctx: nat, ir: seq<IrInsn>, env: Env, w: W)
    ensures RunIr(h, ctx, ir, |ir|, env, w) == Ended(w)
  {
  }

  lemma NothingPromised<W>(h: Host<W>, ctx: nat, ir: seq<IrInsn>, i: nat, env: Env, w: W)
    requires i <= |ir|
    ensures PromisesKept(h, ctx, ir, {}, i, env, w)
    decreases |ir| - i
  {
    if i < |ir| {
      var s := StepIr(h, ctx, ir[i], env, w);
      if s.Next? {
        NothingPromised(h, ctx, ir, i + 1, s.env, s.world);
      }
    }
  }

  /** The emitted code does the same, from every state of the machine. */
  lemma ShiftIsCompiled<W>(p: RegisterShift, h: Host<W>, m: Machine<W>)
    requires p.Valid()
    ensures WellFormed(p.Ir(), SHIFT_TYPES) && JitCompile.Fits(p.Ir(), SHIFT_TYPES)
    ensures var w, ctx := m.world, m.regs[RDI];
      var a, n := h.read(w, I32, ctx, p.rm) % 0x1_0000_0000, h.read(w, I32, ctx, p.rs) % 0x1_0000_0000;
      var r := Run(h, Compile(p.Ir(), SHIFT_TYPES), 0, m);
      r.FellOff? && r.final.stack == m.stack && r.final.world == h.write(w, I32, ctx, p.rd, GuestShift(p.op, a, n))
  {
    var ir := p.Ir();
    hide RegisterShift.Ir, Run, RunIr, Compile, WellFormed, JitCompile.Fits, Supported, PromisesKept, ToleratedOn, GuestShift;
    ShiftCompiles(p);
    ShiftIsSupported(p);
    NothingPromised(OnX86(h), m.regs[RDI], ir, 0, map[], m.world);
    SupportedIsToleratedOn(h, ir, SHIFT_TYPES, {}, m);
    ShiftMeans(p, h, m.regs[RDI], m.world);
    forall f
      ensures Meaning(h.(over := f), ir, m) == Meaning(h, ir, m)
    {
      ShiftMeans(p, h.(over := f), m.regs[RDI], m.world);
    }
    OpenShiftsMayBeDiscarded(h, ir, SHIFT_TYPES, m);
  }
}
