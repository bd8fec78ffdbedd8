/** Straight-line blocks: they compile, and return what their IR computes. */
module JitBlocks {
  import opened Wrappers
  import opened Words
  import opened JitIr
  import opened JitBits
  import opened JitLower
  import opened JitAlloc
  import opened JitMachine
  import opened JitCompile
  import opened JitSmall
  import opened JitShift
  import opened JitOperators

  // ---------------------------------------------------------------- straight-line blocks

  ghost predicate UsesEarlier(ir: seq<IrInsn>, i: nat)
    requires i < |ir|
  {
    forall r :: r in ir[i].Uses() ==> r < i && ir[r].Dst().Some?
  }

  /** Registers are named by the instructions that define them and used after those. */
  ghost predicate InOrder(ir: seq<IrInsn>, types: seq<Width>) {
    forall i :: 0 <= i < |ir| ==>
      Typed(ir[i], types) && (ir[i].Dst().Some? ==> ir[i].Dst().value == i) && UsesEarlier(ir, i)
  }

  ghost predicate ReadsClean(ir: seq<IrInsn>, i: nat)
    requires i < |ir|
  {
    forall r :: r in NeedsClean(ir[i]) ==> r < i && LeavesClean(ir[r], {})
  }

  /** A block of a few instructions that returns what an instruction has computed.  At most instruction k is a
      narrow arithmetic shift. */
  ghost predicate IsBlock(ir: seq<IrInsn>, types: seq<Width>, k: nat) {
    && InOrder(ir, types) && (forall i :: 0 <= i < |ir| ==> ReadsClean(ir, i) && (i != k ==> !IsNarrowAsr(ir[i])))
    && 0 < |ir| <= (if k < |ir| then 6 else 9)
    && var last := ir[|ir| - 1];
       last.Exit? && last.guard.None? && forall i :: 0 <= i < |ir| && ir[i].MovConst? ==> ir[i].dst != last.target
  }

  lemma {:induction false} DefsInOrder(ir: seq<IrInsn>, types: seq<Width>, i: nat)
    requires i <= |ir| && InOrder(ir, types)
    ensures forall r: Reg :: r in Defs(ir, i) <==> r < i && ir[r].Dst().Some?
  {
    hide Typed, IrInsn.Dst, UsesEarlier;
    if i > 0 {
      DefsInOrder(ir, types, i - 1);
      assert Defs(ir, i) == Defs(ir, i - 1) + Given(ir[i - 1].Dst());
    }
  }

  lemma InOrderIsWellFormed(ir: seq<IrInsn>, types: seq<Width>)
    requires InOrder(ir, types)
    ensures WellFormed(ir, types)
  {
    hide Typed, IrInsn.Dst, IrInsn.Uses, Defs;
    forall i | 0 <= i < |ir|
      ensures Typed(ir[i], types) && ir[i].Uses() <= Defs(ir, i) && Given(ir[i].Dst()) !! Defs(ir, i)
    {
      DefsInOrder(ir, types, i);
      assert UsesEarlier(ir, i);
    }
  }

  lemma CleanOnce(ir: seq<IrInsn>, types: seq<Width>, i: nat, r: Reg)
    requires InOrder(ir, types) && r < i < |ir| && ir[r].Dst().Some? && LeavesClean(ir[r], {})
    ensures r in CleanAfter(ir, {}, i)
  {
    LeavesMore(ir[r], CleanAfter(ir, {}, r));
    hide LeavesClean, IrInsn.Dst, Typed, UsesEarlier;
    assert r in CleanAfter(ir, {}, r + 1);
    hide CleanAfter;
    CleanStays(ir, {}, r + 1, i, r);
  }

  lemma LeavesMore(insn: IrInsn, clean: set<Reg>)
    requires LeavesClean(insn, {})
    ensures LeavesClean(insn, clean)
  {
  }

  lemma NeedsAreUses(insn: IrInsn)
    ensures NeedsClean(insn) <= insn.Uses()
  {
  }

  lemma InOrderIsSupported(ir: seq<IrInsn>, types: seq<Width>)
    requires InOrder(ir, types) && forall i :: 0 <= i < |ir| ==> ReadsClean(ir, i)
    ensures Supported(ir, {})
  {
    hide LeavesClean, IrInsn.Dst, IrInsn.Uses, Typed, CleanAfter, NeedsClean;
    forall i | 0 <= i < |ir|
      ensures NeedsClean(ir[i]) <= CleanAfter(ir, {}, i)
    {
      NeedsAreUses(ir[i]);
      assert UsesEarlier(ir, i) && ReadsClean(ir, i);
      forall r | r in NeedsClean(ir[i])
        ensures r in CleanAfter(ir, {}, i)
      {
        CleanOnce(ir, types, i, r);
      }
    }
  }

  lemma LengthOfInsn(insn: IrInsn, types: seq<Width>, used: set<Reg>, code: seq<XInsn>)
    ensures |LowerInsn(insn, types, used, code)| <= if IsNarrowAsr(insn) then 4 else 1
  {
  }

  lemma {:induction false} LengthOfCode(ir: seq<IrInsn>, types: seq<Width>, used: set<Reg>, k: nat, i: nat)
    requires i <= |ir| && forall j :: 0 <= j < |ir| && j != k ==> !IsNarrowAsr(ir[j])
    ensures |LowerTo(ir, types, used, i)| <= i + if k < i then 3 else 0
  {
    hide LowerInsn, IsNarrowAsr;
    if i > 0 {
      LengthOfCode(ir, types, used, k, i - 1);
      LengthOfInsn(ir[i - 1], types, used, LowerTo(ir, types, used, i - 1));
    }
  }

  lemma {:induction false} NoConstant(ir: seq<IrInsn>, types: seq<Width>, used: set<Reg>, i: nat, r: Reg)
    requires i <= |ir| && forall j :: 0 <= j < |ir| && ir[j].MovConst? ==> ir[j].dst != r
    ensures !IsConstant(LowerTo(ir, types, used, i), Of(r))
  {
    if i > 0 {
      NoConstant(ir, types, used, i - 1, r);
      NoConstantIn(ir[i - 1], types, used, LowerTo(ir, types, used, i - 1), r);
      hide LowerInsn;
    }
  }

  lemma NoConstantIn(insn: IrInsn, types: seq<Width>, used: set<Reg>, code: seq<XInsn>, r: Reg)
    requires insn.MovConst? ==> insn.dst != r
    ensures !IsConstant(LowerInsn(insn, types, used, code), Of(r))
  {
  }

  lemma BlockCompiles(ir: seq<IrInsn>, types: seq<Width>, k: nat)
    requires IsBlock(ir, types, k)
    ensures WellFormed(ir, types) && JitCompile.Fits(ir, types) && Supported(ir, {})
    ensures |Compile(ir, types)| < W64 - 10 && LinkAt(ir, types, |ir| - 1) == 0
  {
    hide *;
    BlockIsSupported(ir, types, k);
    BlockIsShort(ir, types, k);
    LastIsExit(ir, types);
    BlockFits(ir, types);
    NotPatchable(ir, types);
  }

  lemma BlockIsSupported(ir: seq<IrInsn>, types: seq<Width>, k: nat)
    requires IsBlock(ir, types, k)
    ensures WellFormed(ir, types) && Supported(ir, {})
  {
    hide InOrder, ReadsClean, WellFormed, Supported;
    InOrderIsWellFormed(ir, types);
    InOrderIsSupported(ir, types);
  }

  lemma BlockIsShort(ir: seq<IrInsn>, types: seq<Width>, k: nat)
    requires IsBlock(ir, types, k)
    ensures |ir| > 0 && ir[|ir| - 1].Exit? && |LowerTo(ir, types, UsedBy(ir, |ir|), |ir|)| <= 9
    ensures !IsConstant(LowerTo(ir, types, UsedBy(ir, |ir|), |ir| - 1), Of(ir[|ir| - 1].target))
  {
    hide InOrder, ReadsClean, UsedBy, LowerTo, IsConstant, IsNarrowAsr;
    LengthOfCode(ir, types, UsedBy(ir, |ir|), k, |ir|);
    NoConstant(ir, types, UsedBy(ir, |ir|), |ir| - 1, ir[|ir| - 1].target);
  }

  lemma LastIsExit(ir: seq<IrInsn>, types: seq<Width>)
    requires |ir| > 0 && ir[|ir| - 1].Exit?
    ensures |Lower(ir, types)| > 0 && Lower(ir, types)[|Lower(ir, types)| - 1].XExit?
  {
    hide IsConstant;
  }

  lemma BlockFits(ir: seq<IrInsn>, types: seq<Width>)
    requires WellFormed(ir, types) && |LowerTo(ir, types, UsedBy(ir, |ir|), |ir|)| <= 9
    requires |Lower(ir, types)| > 0 && Lower(ir, types)[|Lower(ir, types)| - 1].XExit?
    ensures JitCompile.Fits(ir, types) && |Compile(ir, types)| < W64 - 10
  {
    hide *;
    LowerIs(ir, types);
    LoweredTo(ir, types, |ir|);
    AtMostEight(Lower(ir, types));
    FewDefinitionsFit(Lower(ir, types));
    FitsIs(ir, types);
    SmallProgramCompiles(ir, types);
  }

  lemma AtMostEight(code: seq<XInsn>)
    requires 0 < |code| <= 9 && code[|code| - 1].XExit?
    ensures |DefsX(code, |code|)| <= SLOTS
  {
    DefinitionsAtMost(code, |code| - 1);
    DefinitionsStep(code, |code| - 1);
    hide DefsX;
  }

  lemma FitsIs(ir: seq<IrInsn>, types: seq<Width>)
    ensures JitCompile.Fits(ir, types) <==> Allocate(Lower(ir, types)).Allocation?
  {
    hide Lower, Allocate;
  }

  lemma NotPatchable(ir: seq<IrInsn>, types: seq<Width>)
    requires |ir| > 0 && ir[|ir| - 1].Exit?
    requires WellFormed(ir, types) && JitCompile.Fits(ir, types) && |Compile(ir, types)| < W64 - 10
    requires !IsConstant(LowerTo(ir, types, UsedBy(ir, |ir|), |ir| - 1), Of(ir[|ir| - 1].target))
    ensures LinkAt(ir, types, |ir| - 1) == 0
  {
    hide IsConstant, LowerTo, UsedBy, WellFormed, JitCompile.Fits, Compile;
  }

  /** The code of such a block returns what the IR computes, from every state of the machine. */
  lemma BlockReturns<W>(h: Host<W>, ir: seq<IrInsn>, types: seq<Width>, k: nat, m: Machine<W>, v: nat, w: W)
    requires IsBlock(ir, types, k) && RunIr(OnX86(h), m.regs[RDI], ir, 0, map[], m.world) == Exited(v, w, |ir| - 1)
    ensures WellFormed(ir, types) && JitCompile.Fits(ir, types) && Run(h, Compile(ir, types), 0, m) == Returned(v, 0, w)
  {
    hide *;
    BlockCompiles(ir, types, k);
    NothingPromised(OnX86(h), m.regs[RDI], ir, 0, map[], m.world);
    MeaningIs(OnX86(h), ir, m);
    SupportedCodeIsCorrect(h, ir, types, {}, m);
    ReturnsExit(ir, types, Meaning(OnX86(h), ir, m), Run(h, Compile(ir, types), 0, m), m, v, w);
  }

  lemma ReturnsExit<W>(ir: seq<IrInsn>, types: seq<Width>, o: Outcome<W>, r: MOutcome<W>, m: Machine<W>, v: nat, w: W)
    requires WellFormed(ir, types) && JitCompile.Fits(ir, types) && |Compile(ir, types)| < W64 - 10 && |ir| > 0
    requires SameResult(ir, types, o, r, m) && o == Exited(v, w, |ir| - 1) && LinkAt(ir, types, |ir| - 1) == 0
    ensures r == Returned(v, 0, w)
  {
    hide WellFormed, JitCompile.Fits, Compile, LinkAt;
  }

  // ---------------------------------------------------------------- steps

  /** A field of the guest context. */
  datatype Field = Field(width: Width, offset: int)

  function FieldOf<W>(h: Host<W>, ctx: nat, w: W, f: Field): nat { h.read(w, f.width, ctx, f.offset) % Values(f.width) }

  lemma FieldIr<W>(h: Host<W>, ctx: nat, ir: seq<IrInsn>, i: nat, env: Env, w: W, d: Reg, f: Field)
    requires i < |ir| && ir[i] == Read(f.width, d, f.offset)
    ensures RunIr(h, ctx, ir, i, env, w) == RunIr(h, ctx, ir, i + 1, env[d := FieldOf(h, ctx, w, f)], w)
  {
    SizesAre(f.width);
    hide Values, Width.Size;
  }

  lemma BinopIr<W>(h: Host<W>, ctx: nat, ir: seq<IrInsn>, i: nat, env: Env, w: W, op: Op, wd: Width, d: Reg, x: Reg, y: Reg)
    requires i < |ir| && ir[i] == Binop(op, wd, d, x, y) && (op.IsShift() ==> Get(env, y) < wd.Bits())
    ensures RunIr(h, ctx, ir, i, env, w) == RunIr(h, ctx, ir, i + 1, env[d := Apply(op, wd, Get(env, x), Get(env, y))], w)
  {
    hide Apply;
  }

  lemma TruncateIr<W>(h: Host<W>, ctx: nat, ir: seq<IrInsn>, i: nat, env: Env, w: W, wd: Width, d: Reg, x: Reg)
    requires i < |ir| && ir[i] == CastTo(Truncate(I64, wd), d, x)
    ensures RunIr(h, ctx, ir, i, env, w) == RunIr(h, ctx, ir, i + 1, env[d := Get(env, x) % Values(wd)], w)
  {
    SizesAre(wd);
    hide Values, Width.Size;
  }

  lemma ExtendIr<W>(h: Host<W>, ctx: nat, ir: seq<IrInsn>, i: nat, env: Env, w: W, wd: Width, d: Reg, x: Reg)
    requires i < |ir| && ir[i] == CastTo(ZeroExtend(wd, I64), d, x) && Get(env, x) < Values(wd)
    ensures RunIr(h, ctx, ir, i, env, w) == RunIr(h, ctx, ir, i + 1, env[d := Get(env, x)], w)
  {
    WordHolds(wd, Get(env, x));
    hide Values, Width.Size;
  }

  lemma ExitIr<W>(h: Host<W>, ctx: nat, ir: seq<IrInsn>, i: nat, env: Env, w: W, x: Reg)
    requires i < |ir| && ir[i] == Exit(x, None)
    ensures RunIr(h, ctx, ir, i, env, w) == Exited(Get(env, x), w, i)
  {
  }

  lemma WordHolds(w: Width, r: nat)
    requires r < Values(w)
    ensures r % I64.Size() == r
  {
  }

  lemma LoadIr<W>(h: Host<W>, ctx: nat, ir: seq<IrInsn>, i: nat, env: Env, w: W, wd: Width, d: Reg, x: Reg)
    requires i < |ir| && ir[i] == Load(wd, d, x)
    ensures RunIr(h, ctx, ir, i, env, w) == RunIr(h, ctx, ir, i + 1, env[d := h.load(w, wd, Get(env, x)) % Values(wd)], w)
  {
    SizesAre(wd);
    hide Values, Width.Size;
  }

  lemma CastIr<W>(h: Host<W>, ctx: nat, ir: seq<IrInsn>, i: nat, env: Env, w: W, c: Cast, d: Reg, x: Reg)
    requires i < |ir| && ir[i] == CastTo(c, d, x)
    ensures RunIr(h, ctx, ir, i, env, w) == RunIr(h, ctx, ir, i + 1, env[d := ApplyCast(c, Get(env, x))], w)
  {
  }

  lemma CallIr<W>(h: Host<W>, ctx: nat, ir: seq<IrInsn>, i: nat, env: Env, w: W, f: Reg, a: Reg, b: Reg, c: Reg, d: Reg,
                  r: Reg)
    requires i < |ir| && ir[i] == Call(f, [Some(a), Some(b), Some(c), Some(d)], I64, Some(r))
    ensures var (w', v) := h.call(w, Get(env, f), ctx,
                                  [Some(Get(env, a)), Some(Get(env, b)), Some(Get(env, c)), Some(Get(env, d))]);
      RunIr(h, ctx, ir, i, env, w) == RunIr(h, ctx, ir, i + 1, env[r := v % Values(I64)], w')
  {
    assert Args(env, [Some(a), Some(b), Some(c), Some(d)])
        == [Some(Get(env, a)), Some(Get(env, b)), Some(Get(env, c)), Some(Get(env, d))];
  }
}
