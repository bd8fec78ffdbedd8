/**
 Two programs whose narrow operands may go wrong: a byte that is read and compared, and the helper's result that
 decides on a conditional instruction of the guest.  For each of them the code that comes out of the backend is
 right exactly if the upper bits of one register are zero.
 */
module JitNarrow {
  import opened Wrappers
  import opened Words
  import opened JitIr
  import opened JitBits
  import opened JitLower
  import opened JitAlloc
  import opened JitMachine
  import opened JitCompile
  import opened JitSmall

  // ---------------------------------------------------------------- a byte that is compared

  /** if (context[0] == 0) exit 1 else exit 2, on a byte that has just been read. */
  const BYTE_TEST: seq<IrInsn> := [
    Read(I8, 0, 0),
    MovConst(I8, 1, 0),
    Binop(CmpEq, I8, 2, 0, 1),
    MovConst(I64, 3, 1),
    Exit(3, Some(2)),
    MovConst(I64, 4, 2),
    Exit(4, None)
  ]

  const BYTE_TYPES: seq<Width> := [I8, I8, I8, I64, I64]

  const BYTE_CODE: seq<XInsn> := [
    XRead(I8, Of(0), 0),
    XMov(Of(1), 0),
    XBinop(CmpEq, I8, Of(2), Of(0), Of(1)),
    XMov(Of(3), 1),
    XExit(Of(3), Some(Of(2)), true),
    XMov(Of(4), 2),
    XExit(Of(4), None, true)
  ]

  lemma ByteTestDefs()
    ensures var ir := BYTE_TEST;
      && Defs(ir, 0) == {} && Defs(ir, 1) == {0} && Defs(ir, 2) == {0, 1} && Defs(ir, 3) == {0, 1, 2}
      && Defs(ir, 4) == {0, 1, 2, 3} && Defs(ir, 5) == {0, 1, 2, 3} && Defs(ir, 6) == {0, 1, 2, 3, 4}
  {
    var ir := BYTE_TEST;
    assert Defs(ir, 1) == {0};
    assert Defs(ir, 2) == {0, 1};
    assert Defs(ir, 3) == {0, 1, 2};
    assert Defs(ir, 4) == {0, 1, 2, 3};
    assert Defs(ir, 5) == {0, 1, 2, 3};
  }

  /** The program obeys the builders' rules; it only fails the condition on upper bits. */
  lemma ByteTestIsWellFormed()
    ensures WellFormed(BYTE_TEST, BYTE_TYPES) && forall promised :: !Supported(BYTE_TEST, promised)
  {
    ByteTestDefs();
    var ir := BYTE_TEST;
    forall promised
      ensures !Supported(ir, promised)
    {
      assert CleanAfter(ir, promised, 1) == promised;
      assert CleanAfter(ir, promised, 2) == promised + {1};
      assert 0 in Given(ir[0].Dst()) && !ir[0].Call? && 0 in NeedsClean(ir[2]);
    }
  }

  lemma ByteTestIsLowered()
    ensures Lower(BYTE_TEST, BYTE_TYPES) == BYTE_CODE
    ensures forall i :: i == 4 || i == 6 ==> PlaceOf(BYTE_TEST, BYTE_TYPES, i) == i && IsPatchable(BYTE_TEST, BYTE_TYPES, i)
  {
    var ir, types := BYTE_TEST, BYTE_TYPES;
    UsesAreUsed(ir, 2, 7);
    var used := UsedBy(ir, 7);
    assert 0 in ir[2].Uses();
    var code := BYTE_CODE;
    assert LowerTo(ir, types, used, 1) == code[..1];
    assert LowerTo(ir, types, used, 2) == code[..2];
    assert LowerTo(ir, types, used, 3) == code[..3];
    assert LowerTo(ir, types, used, 4) == code[..4];
    assert code[..4][3].dst == Of(3) && IsConstant(code[..4], Of(3));
    assert LowerTo(ir, types, used, 5) == code[..5];
    assert LowerTo(ir, types, used, 6) == code[..6];
    assert code[..6][5].dst == Of(4) && IsConstant(code[..6], Of(4));
    assert LowerTo(ir, types, used, 7) == code;
  }

  /** The IR exits with 1 if the byte is zero and with 2 otherwise. */
  lemma ByteTestMeans<W>(h: Host<W>, ctx: nat, w: W)
    ensures RunIr(h, ctx, BYTE_TEST, 0, map[], w) == if h.read(w, I8, ctx, 0) % 0x100 == 0 then Exited(1, w, 4) else Exited(2, w, 6)
  {
    hide RunIr;
    var ir, b := BYTE_TEST, h.read(w, I8, ctx, 0) % 0x100;
    var e1: Env := map[0 := b];
    var e2 := e1[1 := 0];
    var e3 := e2[2 := if b == 0 then 0xFF else 0];
    var e4 := e3[3 := 1];
    NextIr(h, ctx, ir, 0, map[], w, e1, w);
    NextIr(h, ctx, ir, 1, e1, w, e2, w);
    NextIr(h, ctx, ir, 2, e2, w, e3, w);
    NextIr(h, ctx, ir, 3, e3, w, e4, w);
    if b == 0 {
      LeaveIr(h, ctx, ir, 4, e4, w, 1);
    } else {
      var e6 := e4[4 := 2];
      NextIr(h, ctx, ir, 4, e4, w, e4, w);
      NextIr(h, ctx, ir, 5, e4, w, e6, w);
      LeaveIr(h, ctx, ir, 6, e6, w, 2);
    }
  }

  /** The pseudo-instructions look at the whole register that the byte was read into. */
  lemma ByteTestRuns<W>(h: Host<W>, ctx: nat, w: W, g: seq<nat>)
    requires |g| == 7 && g[0] < W64
    ensures Callable(BYTE_CODE)
    ensures RunX(h, ctx, BYTE_CODE, 0, map[], w, g)
         == if Fetched(I8, g[0], h.read(w, I8, ctx, 0)) == 0 then XExited(1, w, true, 4) else XExited(2, w, true, 6)
  {
    hide RunX;
    var code := BYTE_CODE;
    var x := Fetched(I8, g[0], h.read(w, I8, ctx, 0));
    var r1: Raw := map[Of(0) := x];
    var r2 := r1[Of(1) := 0];
    var r3 := r2[Of(2) := if x == 0 then 0xFF else 0];
    var r4 := r3[Of(3) := 1];
    NextX(h, ctx, code, 0, map[], w, g, r1, w);
    NextX(h, ctx, code, 1, r1, w, g, r2, w);
    assert Native(CmpEq, I8, x, 0) == if x == 0 then 0xFF else 0;
    NextX(h, ctx, code, 2, r2, w, g, r3, w);
    NextX(h, ctx, code, 3, r3, w, g, r4, w);
    if x == 0 {
      LeaveX(h, ctx, code, 4, r4, w, g);
    } else {
      var r6 := r4[Of(4) := 2];
      NextX(h, ctx, code, 4, r4, w, g, r4, w);
      NextX(h, ctx, code, 5, r4, w, g, r6, w);
      LeaveX(h, ctx, code, 6, r6, w, g);
    }
  }

  lemma FetchedZero(g: nat, v: nat)
    requires g < W64
    ensures Fetched(I8, g, v) == 0 <==> g < 0x100 && v % 0x100 == 0
  {
  }

  /** The byte is read into r8. */
  lemma ByteGoesToR8<W>(h: Host<W>, m: Machine<W>)
    requires Encodable(BYTE_CODE)
    ensures LeftOver(h, BYTE_CODE, 0, m)[0] == m.regs[R8]
  {
    var code := BYTE_CODE;
    hide Encodable, LeftOver;
    assert FirstFree(seq(SLOTS, _ => true), 0) == 0;
    assert AllocateTo(code, 1).slot == map[Of(0) := 0] by {
      assert AllocateTo(code, 0) == Allocation(seq(SLOTS, _ => true), map[]);
    }
    SlotOfFirst(code, Of(0));
    assert Contents(code, 0, m) == m.regs[R8];
  }

  lemma SlotOfFirst(code: seq<XInsn>, v: V)
    requires Encodable(code) && |code| > 0 && AllocateTo(code, 1).Allocation? && AllocateTo(code, 1).slot == map[v := 0]
    ensures v in Allocate(code).slot && Allocate(code).slot[v] == 0
  {
    SlotsStay(code, 1, |code|);
  }

  /**
   The code of this program is right exactly if the byte is not zero or r8, which it is read into, has nothing
   but zeros above its low byte: otherwise a zero is taken for something else.
   */
  lemma ByteTestExactly<W>(h: Host<W>, m: Machine<W>)
    ensures WellFormed(BYTE_TEST, BYTE_TYPES) && JitCompile.Fits(BYTE_TEST, BYTE_TYPES)
    ensures |Compile(BYTE_TEST, BYTE_TYPES)| < W64 - 10
    ensures SameResult(BYTE_TEST, BYTE_TYPES, Meaning(h, BYTE_TEST, m), Run(h, Compile(BYTE_TEST, BYTE_TYPES), 0, m), m)
       <==> (h.read(m.world, I8, m.regs[RDI], 0) % 0x100 == 0 ==> m.regs[R8] < 0x100)
  {
    hide *;
    ByteTestCompiles();
    ByteTestIsLowered();
    CompiledReturns(h, BYTE_TEST, BYTE_TYPES, m);
    ByteGoesToR8(h, m);
    var ctx, w := m.regs[RDI], m.world;
    var g := LeftOver(h, BYTE_CODE, 0, m);
    ByteTestMeans(h, ctx, w);
    ByteTestRuns(h, ctx, w, g);
    FetchedZero(g[0], h.read(w, I8, ctx, 0));
    MeaningIs(h, BYTE_TEST, m);
    OtherExit(BYTE_TEST, BYTE_TYPES, Meaning(h, BYTE_TEST, m), RunX(h, ctx, BYTE_CODE, 0, map[], w, g),
              Run(h, Compile(BYTE_TEST, BYTE_TYPES), 0, m), m);
  }

  lemma ByteTestCompiles()
    ensures WellFormed(BYTE_TEST, BYTE_TYPES) && JitCompile.Fits(BYTE_TEST, BYTE_TYPES)
    ensures |Compile(BYTE_TEST, BYTE_TYPES)| < W64 - 10
    ensures |BYTE_CODE| == 7 && BYTE_CODE[4].XExit? && BYTE_CODE[6].XExit?
  {
    hide WellFormed, Lower, Compile, SingleAssignment, Allocate, DefsX;
    ByteTestIsWellFormed();
    ByteTestIsLowered();
    LoweredTo(BYTE_TEST, BYTE_TYPES, 7);
    LowerIs(BYTE_TEST, BYTE_TYPES);
    DefinitionsAtMost(BYTE_CODE, 7);
    FewDefinitionsFit(BYTE_CODE);
    SmallProgramCompiles(BYTE_TEST, BYTE_TYPES);
  }

  // ---------------------------------------------------------------- a conditional instruction

  /**
   A conditional instruction of the guest: a helper computes from the condition and the flags whether it is to be
   executed, and an exit to the next instruction is taken if it is not.  The fields are the constants of the
   block and the offsets of guest registers in the context; what follows the exit is just another exit.
   */
  datatype Conditional = Conditional(cond: u64, helper: u64, pc: u64, next: u64, other: u64,
                                     cpsr: int, helperPc: int, r15: int)
  {
    function Ir(): seq<IrInsn> {
      [MovConst(I32, 0, cond), Read(I32, 1, cpsr), MovConst(I64, 2, helper),
       MovConst(I32, 3, pc), Write(I32, 3, helperPc),
       Call(2, [Some(0), Some(1), None, None], I32, Some(4)),
       MovConst(I32, 5, 0), Write(I32, 5, helperPc),
       MovConst(I32, 6, next), Write(I32, 6, r15),
       MovConst(I64, 7, next), Exit(7, Some(4)),
       MovConst(I64, 8, other), Exit(8, None)]
    }

    function Code(): seq<XInsn> {
      [XMov(Of(0), cond), XRead(I32, Of(1), cpsr), XMov(Of(2), helper),
       XMov(Of(3), pc), XWrite(I32, Of(3), helperPc),
       XCall(Of(2), [Some(Of(0)), Some(Of(1)), None, None], [I32, I32, I64, I64], Some(Of(4))),
       XMov(Of(5), 0), XWrite(I32, Of(5), helperPc),
       XMov(Of(6), next), XWrite(I32, Of(6), r15),
       XMov(Of(7), next), XExit(Of(7), Some(Of(4)), true),
       XMov(Of(8), other), XExit(Of(8), None, true)]
    }

    /** The flags, the world in which the helper runs, and what it returns. */
    function Flags<W>(h: Host<W>, ctx: nat, w: W): nat { h.read(w, I32, ctx, cpsr) % 0x1_0000_0000 }

    function Called<W>(h: Host<W>, ctx: nat, w: W): (W, nat) {
      h.call(h.write(w, I32, ctx, helperPc, pc % 0x1_0000_0000), helper, ctx,
             [Some(cond % 0x1_0000_0000), Some(Flags(h, ctx, w)), None, None])
    }

    /** The world at the exits. */
    function Left<W>(h: Host<W>, ctx: nat, w: W): W {
      var (w', _) := Called(h, ctx, w);
      h.write(h.write(w', I32, ctx, helperPc, 0), I32, ctx, r15, next % 0x1_0000_0000)
    }
  }

  const COND_TYPES: seq<Width> := [I32, I32, I64, I32, I32, I32, I32, I64, I64]

  lemma CondIr(p: Conditional)
    ensures var ir := p.Ir();
      && |ir| == 14
      && ir[0] == MovConst(I32, 0, p.cond) && ir[1] == Read(I32, 1, p.cpsr)
      && ir[2] == MovConst(I64, 2, p.helper) && ir[3] == MovConst(I32, 3, p.pc)
      && ir[4] == Write(I32, 3, p.helperPc) && ir[5] == Call(2, [Some(0), Some(1), None, None], I32, Some(4))
      && ir[6] == MovConst(I32, 5, 0) && ir[7] == Write(I32, 5, p.helperPc)
      && ir[8] == MovConst(I32, 6, p.next) && ir[9] == Write(I32, 6, p.r15)
      && ir[10] == MovConst(I64, 7, p.next) && ir[11] == Exit(7, Some(4))
      && ir[12] == MovConst(I64, 8, p.other) && ir[13] == Exit(8, None)
  {
  }

  lemma CondCode(p: Conditional)
    ensures var code := p.Code();
      && |code| == 14
      && code[0] == XMov(Of(0), p.cond) && code[1] == XRead(I32, Of(1), p.cpsr)
      && code[2] == XMov(Of(2), p.helper) && code[3] == XMov(Of(3), p.pc)
      && code[4] == XWrite(I32, Of(3), p.helperPc)
      && code[5] == XCall(Of(2), [Some(Of(0)), Some(Of(1)), None, None], [I32, I32, I64, I64], Some(Of(4)))
      && code[6] == XMov(Of(5), 0) && code[7] == XWrite(I32, Of(5), p.helperPc)
      && code[8] == XMov(Of(6), p.next) && code[9] == XWrite(I32, Of(6), p.r15)
      && code[10] == XMov(Of(7), p.next) && code[11] == XExit(Of(7), Some(Of(4)), true)
      && code[12] == XMov(Of(8), p.other) && code[13] == XExit(Of(8), None, true)
  {
  }

  lemma CondDefs(p: Conditional)
    ensures var ir := p.Ir();
      && Defs(ir, 0) == {} && Defs(ir, 1) == {0} && Defs(ir, 2) == {0, 1} && Defs(ir, 3) == {0, 1, 2}
      && Defs(ir, 4) == {0, 1, 2, 3} == Defs(ir, 5) && Defs(ir, 6) == {0, 1, 2, 3, 4}
      && Defs(ir, 7) == {0, 1, 2, 3, 4, 5} == Defs(ir, 8) && Defs(ir, 9) == {0, 1, 2, 3, 4, 5, 6} == Defs(ir, 10)
      && Defs(ir, 11) == {0, 1, 2, 3, 4, 5, 6, 7} == Defs(ir, 12) && Defs(ir, 13) == {0, 1, 2, 3, 4, 5, 6, 7, 8}
  {
    CondIr(p);
    hide Conditional.Ir;
    var ir := p.Ir();
    assert Defs(ir, 1) == {0};
    assert Defs(ir, 2) == {0, 1};
    assert Defs(ir, 3) == {0, 1, 2};
    assert Defs(ir, 4) == {0, 1, 2, 3};
    assert Defs(ir, 5) == {0, 1, 2, 3};
    assert Defs(ir, 6) == {0, 1, 2, 3, 4};
    assert Defs(ir, 7) == {0, 1, 2, 3, 4, 5};
    assert Defs(ir, 8) == {0, 1, 2, 3, 4, 5};
    assert Defs(ir, 9) == {0, 1, 2, 3, 4, 5, 6};
    assert Defs(ir, 10) == {0, 1, 2, 3, 4, 5, 6};
    assert Defs(ir, 11) == {0, 1, 2, 3, 4, 5, 6, 7};
    assert Defs(ir, 12) == {0, 1, 2, 3, 4, 5, 6, 7};
  }

  lemma CondCallUses(p: Conditional)
    ensures p.Ir()[5].Uses() == {0, 1, 2}
  {
    var ps: seq<Option<Reg>> := [Some(0), Some(1), None, None];
    assert ps[0] == Some(0) && ps[1] == Some(1);
    assert Passed(ps) == {0, 1};
  }

  lemma CondIsWellFormed(p: Conditional)
    ensures WellFormed(p.Ir(), COND_TYPES)
  {
    CondDefs(p);
    CondCallUses(p);
    hide Defs;
    forall i | 0 <= i < |p.Ir()|
      ensures Typed(p.Ir()[i], COND_TYPES)
      ensures p.Ir()[i].Uses() <= Defs(p.Ir(), i) && Given(p.Ir()[i].Dst()) !! Defs(p.Ir(), i)
    {
    }
  }

  lemma CondCleans(p: Conditional, promised: set<Reg>)
    requires promised <= {4}
    ensures var ir := p.Ir();
      |ir| == 14 && 2 in CleanAfter(ir, promised, 5) && (4 in CleanAfter(ir, promised, 11) <==> 4 in promised)
  {
    var ir := p.Ir();
    CondIr(p);
    hide Conditional.Ir;
    assert 2 in CleanAfter(ir, promised, 3);
    CleanStays(ir, promised, 3, 5, 2);
    assert CleanAfter(ir, promised, 0) == promised;
    CleanStays(ir, promised, 0, 5, 4);
    assert 4 in CleanAfter(ir, promised, 6) <==> 4 in CleanAfter(ir, promised, 5);
    CleanStays(ir, promised, 6, 11, 4);
  }

  /** The promise of the helper to return values of its width is what the program needs. */
  lemma CondIsSupported(p: Conditional)
    ensures WellFormed(p.Ir(), COND_TYPES)
    ensures Supported(p.Ir(), {4}) && !Supported(p.Ir(), {})
  {
    CondIsWellFormed(p);
    CondCleans(p, {4});
    CondCleans(p, {});
    CondNeeds(p);
    CondDst(p);
    hide Conditional.Ir, Defs, CleanAfter, WellFormed, NeedsClean, IrInsn.Dst;
  }

  lemma CondNeeds(p: Conditional)
    ensures |p.Ir()| == 14 && NeedsClean(p.Ir()[5]) == {2} && NeedsClean(p.Ir()[11]) == {4} && p.Ir()[5].Call?
    ensures forall i :: 0 <= i < 14 && i != 5 && i != 11 ==> NeedsClean(p.Ir()[i]) == {}
  {
  }

  lemma CondDst(p: Conditional)
    ensures |p.Ir()| == 14 && forall i :: 0 <= i < 14 && i != 5 ==> 4 !in Given(p.Ir()[i].Dst())
  {
  }

  lemma CondIsLowered(p: Conditional)
    ensures Lower(p.Ir(), COND_TYPES) == p.Code()
    ensures forall i :: i == 11 || i == 13 ==> PlaceOf(p.Ir(), COND_TYPES, i) == i && IsPatchable(p.Ir(), COND_TYPES, i)
  {
    var used := UsedBy(p.Ir(), 14);
    CondIr(p);
    CondCallUses(p);
    UsesAreUsed(p.Ir(), 5, 14);
    hide Conditional.Ir, Conditional.Code, UsedBy, LowerTo, IsConstant;
    CondStart(p, used);
    CondEnd(p, used);
    CondConstants(p);
  }

  lemma CondEnd(p: Conditional, used: set<Reg>)
    requires |p.Ir()| == 14 == |p.Code()| && LowerTo(p.Ir(), COND_TYPES, used, 5) == p.Code()[..5]
    ensures LowerTo(p.Ir(), COND_TYPES, used, 11) == p.Code()[..11]
    ensures LowerTo(p.Ir(), COND_TYPES, used, 13) == p.Code()[..13]
    ensures LowerTo(p.Ir(), COND_TYPES, used, 14) == p.Code()
  {
    var ir, types, code := p.Ir(), COND_TYPES, p.Code();
    CondIr(p);
    CondCode(p);
    CondConstants(p);
    CondParams();
    hide Conditional.Ir, Conditional.Code, LowerTo, IsConstant, LiftParams, ParamWidths;
    LowerStep(ir, types, used, code, 5);
    LowerStep(ir, types, used, code, 6);
    LowerStep(ir, types, used, code, 7);
    LowerStep(ir, types, used, code, 8);
    LowerStep(ir, types, used, code, 9);
    LowerStep(ir, types, used, code, 10);
    LowerStep(ir, types, used, code, 11);
    LowerStep(ir, types, used, code, 12);
    LowerStep(ir, types, used, code, 13);
    assert code[..14] == code;
  }

  lemma CondParams()
    ensures LiftParams([Some(0), Some(1), None, None]) == [Some(Of(0)), Some(Of(1)), None, None]
    ensures ParamWidths(COND_TYPES, [Some(0), Some(1), None, None]) == [I32, I32, I64, I64]
  {
  }

  lemma CondConstants(p: Conditional)
    ensures |p.Code()| == 14 && IsConstant(p.Code()[..11], Of(7)) && IsConstant(p.Code()[..13], Of(8))
  {
    CondCode(p);
    hide Conditional.Code;
    assert p.Code()[..11][10].dst == Of(7) && p.Code()[..13][12].dst == Of(8);
  }

  lemma CondStart(p: Conditional, used: set<Reg>)
    requires 1 in used
    ensures |p.Ir()| == 14 == |p.Code()| && LowerTo(p.Ir(), COND_TYPES, used, 5) == p.Code()[..5]
  {
    var ir, types, code := p.Ir(), COND_TYPES, p.Code();
    CondIr(p);
    CondCode(p);
    assert LowerTo(ir, types, used, 0) == code[..0];
    hide Conditional.Ir, Conditional.Code, LowerTo;
    LowerStep(ir, types, used, code, 0);
    LowerStep(ir, types, used, code, 1);
    LowerStep(ir, types, used, code, 2);
    LowerStep(ir, types, used, code, 3);
    LowerStep(ir, types, used, code, 4);
  }

  lemma CondCompiles(p: Conditional)
    ensures WellFormed(p.Ir(), COND_TYPES) && JitCompile.Fits(p.Ir(), COND_TYPES)
    ensures |Compile(p.Ir(), COND_TYPES)| < W64 - 10
    ensures |p.Code()| == 14 && p.Code()[11].XExit? && p.Code()[13].XExit?
  {
    hide WellFormed, Lower, Compile, SingleAssignment, Allocate, DefsX;
    CondIsWellFormed(p);
    CondIsLowered(p);
    LoweredTo(p.Ir(), COND_TYPES, 14);
    LowerIs(p.Ir(), COND_TYPES);
    CondDefinitions(p);
    OneDeadFits(p.Code(), 12, Of(0));
    SmallProgramCompiles(p.Ir(), COND_TYPES);
  }

  lemma CondDefines(p: Conditional)
    ensures var code := p.Code();
      && |code| == 14 && code[4].Dst().None? && code[7].Dst().None? && code[9].Dst().None?
      && code[11].Dst().None? && code[13].Dst().None?
  {
  }

  /** Nine registers; the first is not read after the call. */
  lemma CondDefinitions(p: Conditional)
    ensures |DefsX(p.Code(), 14)| <= 9 && Of(0) in DefsX(p.Code(), 12)
  {
    var code := p.Code();
    CondCode(p);
    assert Of(0) in DefsX(code, 1);
    CondDefines(p);
    hide Conditional.Code, DefsX, XInsn.Dst;
    DefsGrow(code, 1, 12);
    DefinitionsAtMost(code, 4);
    DefinitionsStep(code, 4);
    DefinitionsStep(code, 5);
    DefinitionsStep(code, 6);
    DefinitionsStep(code, 7);
    DefinitionsStep(code, 8);
    DefinitionsStep(code, 9);
    DefinitionsStep(code, 10);
    DefinitionsStep(code, 11);
    DefinitionsStep(code, 12);
    DefinitionsStep(code, 13);
  }

  // ---------------------------------------------------------------- what it does

  /** The registers after the first eleven instructions of the IR. */
  function CondEnv<W>(p: Conditional, h: Host<W>, ctx: nat, w: W): Env {
    var (w', v) := p.Called(h, ctx, w);
    map[0 := p.cond % 0x1_0000_0000, 1 := p.Flags(h, ctx, w), 2 := p.helper as nat, 3 := p.pc % 0x1_0000_0000,
        4 := v % 0x1_0000_0000, 5 := 0, 6 := p.next % 0x1_0000_0000, 7 := p.next as nat]
  }

  lemma CondArgs(env: Env, cond: nat, flags: nat)
    requires Get(env, 0) == cond && Get(env, 1) == flags
    ensures Args(env, [Some(0), Some(1), None, None]) == [Some(cond), Some(flags), None, None]
  {
  }

  lemma CondArgsV(raw: Raw, cond: nat, flags: nat)
    requires GetV(raw, Of(0)) == cond && GetV(raw, Of(1)) == flags < 0x1_0000_0000
    ensures ArgsV(raw, [Some(Of(0)), Some(Of(1)), None, None], [I32, I32, I64, I64])
         == [Some(cond % 0x1_0000_0000), Some(flags), None, None]
  {
  }

  lemma CondIrRuns<W>(p: Conditional, h: Host<W>, ctx: nat, w: W)
    ensures RunIr(h, ctx, p.Ir(), 0, map[], w) == RunIr(h, ctx, p.Ir(), 11, CondEnv(p, h, ctx, w), p.Left(h, ctx, w))
  {
    CondIr(p);
    hide RunIr, Conditional.Ir;
    var ir := p.Ir();
    var (w', v) := p.Called(h, ctx, w);
    var e1: Env := map[0 := p.cond % 0x1_0000_0000];
    var e2 := e1[1 := p.Flags(h, ctx, w)];
    var e3 := e2[2 := p.helper];
    var e4 := e3[3 := p.pc % 0x1_0000_0000];
    var w1 := h.write(w, I32, ctx, p.helperPc, p.pc % 0x1_0000_0000);
    NextIr(h, ctx, ir, 0, map[], w, e1, w);
    NextIr(h, ctx, ir, 1, e1, w, e2, w);
    NextIr(h, ctx, ir, 2, e2, w, e3, w);
    NextIr(h, ctx, ir, 3, e3, w, e4, w);
    NextIr(h, ctx, ir, 4, e4, w, e4, w1);
    CondArgs(e4, p.cond % 0x1_0000_0000, p.Flags(h, ctx, w));
    var e6 := e4[4 := v % 0x1_0000_0000];
    NextIr(h, ctx, ir, 5, e4, w1, e6, w');
    CondIrEnds(p, h, ctx, e6, w');
    var e11: Env := e6[5 := 0][6 := p.next % 0x1_0000_0000][7 := p.next];
    assert CondEnv(p, h, ctx, w) == e11;
  }

  lemma CondIrEnds<W>(p: Conditional, h: Host<W>, ctx: nat, e6: Env, w: W)
    ensures RunIr(h, ctx, p.Ir(), 6, e6, w)
         == RunIr(h, ctx, p.Ir(), 11, e6[5 := 0][6 := p.next % 0x1_0000_0000][7 := p.next],
                  h.write(h.write(w, I32, ctx, p.helperPc, 0), I32, ctx, p.r15, p.next % 0x1_0000_0000))
  {
    CondIr(p);
    hide RunIr, Conditional.Ir;
    var ir := p.Ir();
    var e7 := e6[5 := 0];
    var e9 := e7[6 := p.next % 0x1_0000_0000];
    var w1 := h.write(w, I32, ctx, p.helperPc, 0);
    var w2 := h.write(w1, I32, ctx, p.r15, p.next % 0x1_0000_0000);
    NextIr(h, ctx, ir, 6, e6, w, e7, w);
    NextIr(h, ctx, ir, 7, e7, w, e7, w1);
    NextIr(h, ctx, ir, 8, e7, w1, e9, w1);
    NextIr(h, ctx, ir, 9, e9, w1, e9, w2);
    NextIr(h, ctx, ir, 10, e9, w2, e9[7 := p.next], w2);
  }

  /** The IR looks at the 32 bits of the helper's result. */
  lemma CondMeans<W>(p: Conditional, h: Host<W>, ctx: nat, w: W)
    ensures RunIr(h, ctx, p.Ir(), 0, map[], w)
         == if p.Called(h, ctx, w).1 % 0x1_0000_0000 != 0 then Exited(p.next, p.Left(h, ctx, w), 11)
            else Exited(p.other, p.Left(h, ctx, w), 13)
  {
    CondIr(p);
    hide RunIr, Conditional.Ir;
    CondIrRuns(p, h, ctx, w);
    var ir, e, w2 := p.Ir(), CondEnv(p, h, ctx, w), p.Left(h, ctx, w);
    if p.Called(h, ctx, w).1 % 0x1_0000_0000 != 0 {
      LeaveIr(h, ctx, ir, 11, e, w2, p.next);
    } else {
      NextIr(h, ctx, ir, 11, e, w2, e, w2);
      NextIr(h, ctx, ir, 12, e, w2, e[8 := p.other], w2);
      LeaveIr(h, ctx, ir, 13, e[8 := p.other], w2, p.other);
    }
  }

  function CondRaw<W>(p: Conditional, h: Host<W>, ctx: nat, w: W): Raw {
    var (w', v) := p.Called(h, ctx, w);
    map[Of(0) := p.cond as nat, Of(1) := p.Flags(h, ctx, w), Of(2) := p.helper as nat, Of(3) := p.pc as nat,
        Of(4) := v % W64, Of(5) := 0, Of(6) := p.next as nat, Of(7) := p.next as nat]
  }

  lemma CondCodeStarts<W>(p: Conditional, h: Host<W>, ctx: nat, w: W, g: seq<nat>) returns (r4: Raw)
    requires |g| == 14 && Callable(p.Code())
    ensures r4 == map[Of(0) := p.cond as nat, Of(1) := p.Flags(h, ctx, w), Of(2) := p.helper as nat, Of(3) := p.pc as nat]
    ensures RunX(h, ctx, p.Code(), 0, map[], w, g)
         == RunX(h, ctx, p.Code(), 5, r4, h.write(w, I32, ctx, p.helperPc, p.pc % 0x1_0000_0000), g)
  {
    CondCode(p);
    hide RunX, Conditional.Code;
    var code := p.Code();
    var r1: Raw := map[Of(0) := p.cond];
    var r2 := r1[Of(1) := p.Flags(h, ctx, w)];
    var r3 := r2[Of(2) := p.helper];
    r4 := r3[Of(3) := p.pc];
    NextX(h, ctx, code, 0, map[], w, g, r1, w);
    NextX(h, ctx, code, 1, r1, w, g, r2, w);
    NextX(h, ctx, code, 2, r2, w, g, r3, w);
    NextX(h, ctx, code, 3, r3, w, g, r4, w);
    NextX(h, ctx, code, 4, r4, w, g, r4, h.write(w, I32, ctx, p.helperPc, p.pc % 0x1_0000_0000));
  }

  lemma CondCodeRuns<W>(p: Conditional, h: Host<W>, ctx: nat, w: W, g: seq<nat>)
    requires |g| == 14 && Callable(p.Code())
    ensures RunX(h, ctx, p.Code(), 0, map[], w, g) == RunX(h, ctx, p.Code(), 11, CondRaw(p, h, ctx, w), p.Left(h, ctx, w), g)
  {
    CondCode(p);
    hide RunX, Conditional.Code;
    var code := p.Code();
    var (w', v) := p.Called(h, ctx, w);
    var w1 := h.write(w, I32, ctx, p.helperPc, p.pc % 0x1_0000_0000);
    var r4 := CondCodeStarts(p, h, ctx, w, g);
    CondArgsV(r4, p.cond, p.Flags(h, ctx, w));
    hide ArgsV;
    var r6 := r4[Of(4) := v % W64];
    NextX(h, ctx, code, 5, r4, w1, g, r6, w');
    CondCodeEnds(p, h, ctx, r6, w', g);
    var r11: Raw := r6[Of(5) := 0][Of(6) := p.next][Of(7) := p.next];
    assert CondRaw(p, h, ctx, w) == r11;
  }

  lemma CondCodeEnds<W>(p: Conditional, h: Host<W>, ctx: nat, r6: Raw, w: W, g: seq<nat>)
    requires |g| == 14 && Callable(p.Code())
    ensures RunX(h, ctx, p.Code(), 6, r6, w, g)
         == RunX(h, ctx, p.Code(), 11, r6[Of(5) := 0][Of(6) := p.next][Of(7) := p.next],
                 h.write(h.write(w, I32, ctx, p.helperPc, 0), I32, ctx, p.r15, p.next % 0x1_0000_0000), g)
  {
    CondCode(p);
    hide RunX, Conditional.Code;
    var code := p.Code();
    var r7 := r6[Of(5) := 0];
    var r9 := r7[Of(6) := p.next];
    var w1 := h.write(w, I32, ctx, p.helperPc, 0);
    var w2 := h.write(w1, I32, ctx, p.r15, p.next % 0x1_0000_0000);
    NextX(h, ctx, code, 6, r6, w, g, r7, w);
    NextX(h, ctx, code, 7, r7, w, g, r7, w1);
    NextX(h, ctx, code, 8, r7, w1, g, r9, w1);
    NextX(h, ctx, code, 9, r9, w1, g, r9, w2);
    NextX(h, ctx, code, 10, r9, w2, g, r9[Of(7) := p.next], w2);
  }

  /** The code looks at all 64 bits. */
  lemma CondRuns<W>(p: Conditional, h: Host<W>, ctx: nat, w: W, g: seq<nat>)
    requires |g| == 14
    ensures Callable(p.Code())
    ensures RunX(h, ctx, p.Code(), 0, map[], w, g)
         == if p.Called(h, ctx, w).1 % W64 != 0 then XExited(p.next, p.Left(h, ctx, w), true, 11)
            else XExited(p.other, p.Left(h, ctx, w), true, 13)
  {
    CondCode(p);
    hide RunX, Conditional.Code;
    assert Callable(p.Code());
    CondCodeRuns(p, h, ctx, w, g);
    var code, r, w2 := p.Code(), CondRaw(p, h, ctx, w), p.Left(h, ctx, w);
    if p.Called(h, ctx, w).1 % W64 != 0 {
      LeaveX(h, ctx, code, 11, r, w2, g);
    } else {
      NextX(h, ctx, code, 11, r, w2, g, r, w2);
      NextX(h, ctx, code, 12, r, w2, g, r[Of(8) := p.other], w2);
      LeaveX(h, ctx, code, 13, r[Of(8) := p.other], w2, g);
    }
  }

  /**
   The code of a conditional instruction is right exactly if the helper, when the low half of its result is zero,
   returns zero in the upper half as well: with 2^32 it takes the exit that the IR does not take.
   */
  lemma CondExactly<W>(p: Conditional, h: Host<W>, m: Machine<W>)
    ensures WellFormed(p.Ir(), COND_TYPES) && JitCompile.Fits(p.Ir(), COND_TYPES)
    ensures |Compile(p.Ir(), COND_TYPES)| < W64 - 10
    ensures var v := p.Called(h, m.regs[RDI], m.world).1;
      SameResult(p.Ir(), COND_TYPES, Meaning(h, p.Ir(), m), Run(h, Compile(p.Ir(), COND_TYPES), 0, m), m)
      <==> (v % 0x1_0000_0000 == 0 ==> v % W64 == 0)
  {
    hide *;
    var ir, code := p.Ir(), p.Code();
    CondCompiles(p);
    CondIsLowered(p);
    CompiledReturns(h, ir, COND_TYPES, m);
    var ctx, w := m.regs[RDI], m.world;
    var g := LeftOver(h, code, 0, m);
    CondMeans(p, h, ctx, w);
    CondRuns(p, h, ctx, w, g);
    MeaningIs(h, ir, m);
    OtherExit(ir, COND_TYPES, Meaning(h, ir, m), RunX(h, ctx, code, 0, map[], w, g), Run(h, Compile(ir, COND_TYPES), 0, m), m);
    LowHalf(p.Called(h, ctx, w).1);
  }

  lemma LowHalf(v: nat)
    ensures v % W64 == 0 ==> v % 0x1_0000_0000 == 0
  {
    if v % W64 == 0 {
      assert v == (v / W64 * 0x1_0000_0000) * 0x1_0000_0000;
    }
  }
}
