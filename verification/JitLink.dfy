/**
 Patchable exits.  The address that such an exit reports tells which constant it returns, and patching it
 makes exactly the runs that left through it go on in the target block.
 */
module JitLink {
  import opened Wrappers
  import opened Words
  import opened JitIr
  import opened JitLower
  import opened JitAlloc
  import opened JitMachine
  import opened JitEmit
  import opened JitCompile

  // ---------------------------------------------------------------- constants

  /** A patchable exit returns the target of an earlier constant move. */
  ghost predicate ConstantExits(code: seq<XInsn>) {
    forall k :: 0 <= k < |code| && code[k].XExit? && code[k].patchable ==> IsConstant(code[..k], code[k].target)
  }

  lemma {:induction false} LoweredConstantExits(ir: seq<IrInsn>, types: seq<Width>, used: set<Reg>, i: nat)
    requires i <= |ir|
    ensures ConstantExits(LowerTo(ir, types, used, i))
  {
    if i > 0 {
      LoweredConstantExits(ir, types, used, i - 1);
      var code := LowerTo(ir, types, used, i - 1);
      var block := LowerInsn(ir[i - 1], types, used, code);
      var longer := code + block;
      forall k | 0 <= k < |longer| && longer[k].XExit? && longer[k].patchable
        ensures IsConstant(longer[..k], longer[k].target)
      {
        if k < |code| {
          assert longer[..k] == code[..k];
        } else {
          assert k == |code| && longer[..k] == code;
        }
      }
    }
  }

  /** The registers of the constant moves among the first k instructions have their constants. */
  ghost predicate ConstantsHeld(code: seq<XInsn>, k: nat, raw: Raw)
    requires k <= |code|
  {
    forall j :: 0 <= j < k && code[j].XMov? ==> GetV(raw, code[j].dst) == code[j].literal
  }

  lemma ConstantsStay<W>(h: Host<W>, ctx: nat, code: seq<XInsn>, k: nat, raw: Raw, w: W, garbage: nat)
    requires k < |code| && SingleAssignment(code) && ConstantsHeld(code, k, raw) && Callable(code)
    ensures var s := StepX(h, ctx, code[k], raw, w, garbage);
      s.XNext? ==> ConstantsHeld(code, k + 1, s.raw)
  {
    StepDefines(h, ctx, code[k], raw, w, garbage);
    MoveStep(h, ctx, code[k], raw, w, garbage);
    hide StepX, SingleAssignment, XInsn.Dst;
    var s := StepX(h, ctx, code[k], raw, w, garbage);
    if s.XNext? {
      ConstantsHeldNext(code, k, raw, s.raw);
    }
  }

  lemma ConstantsHeldNext(code: seq<XInsn>, k: nat, raw: Raw, raw': Raw)
    requires k < |code| && SingleAssignment(code) && ConstantsHeld(code, k, raw)
    requires forall v :: !(code[k].Dst().Some? && v == code[k].Dst().value) ==> GetV(raw', v) == GetV(raw, v)
    requires code[k].XMov? ==> GetV(raw', code[k].dst) == code[k].literal
    ensures ConstantsHeld(code, k + 1, raw')
  {
    hide SingleAssignment, XInsn.Dst, GetV;
    forall j | 0 <= j < k && code[j].XMov?
      ensures GetV(raw', code[j].dst) == code[j].literal
    {
      DefinedBefore(code, j, k);
    }
  }

  lemma MoveStep<W>(h: Host<W>, ctx: nat, insn: XInsn, raw: Raw, w: W, garbage: nat)
    requires insn.XCall? ==> |insn.widths| == |insn.params|
    ensures var s := StepX(h, ctx, insn, raw, w, garbage);
      insn.XMov? ==> s.XNext? && GetV(s.raw, insn.dst) == insn.literal
  {
  }

  lemma DefinedBefore(code: seq<XInsn>, j: nat, k: nat)
    requires j < k < |code| && SingleAssignment(code) && code[j].XMov?
    ensures !(code[k].Dst().Some? && code[k].Dst().value == code[j].dst)
  {
    assert code[j].Dst() == Some(code[j].dst);
    hide *;
    AssignedOnce(code, j);
    AssignedOnce(code, k);
    DefsGrow(code, j + 1, k);
  }

  /** v is the constant that exit k returns. */
  ghost predicate ExitConstant(code: seq<XInsn>, k: nat, v: nat)
    requires k < |code|
  {
    && code[k].XExit? && code[k].patchable
    && exists j: nat :: MovesTo(code, j, k, code[k].target, v)
  }

  predicate MovesTo(code: seq<XInsn>, j: nat, k: nat, t: V, v: nat)
    requires k < |code|
  {
    j < k && code[j].XMov? && code[j].dst == t && code[j].literal == v
  }

  lemma PatchableValue(code: seq<XInsn>, k: nat, raw: Raw)
    requires k < |code| && ConstantExits(code) && ConstantsHeld(code, k, raw) && code[k].XExit? && code[k].patchable
    ensures ExitConstant(code, k, GetV(raw, code[k].target))
  {
    var j :| 0 <= j < |code[..k]| && code[..k][j].XMov? && code[..k][j].dst == code[k].target;
    assert MovesTo(code, j, k, code[k].target, GetV(raw, code[k].target));
  }

  /** Exit e has this address and returns this constant. */
  ghost predicate LeftThrough(code: seq<XInsn>, e: nat, link: nat, value: nat)
    requires Encodable(code)
  {
    e < |code| && link == LinkOf(code, e) && ExitConstant(code, e, value)
  }

  /** A run that reports an address has left through the exit at that address, with its constant. */
  lemma {:induction false} LinkNamesExit<W>(h: Host<W>, ctx: nat, code: seq<XInsn>, k: nat, raw: Raw, m: Machine<W>)
    requires k <= |code| && Encodable(code) && Callable(code) && Simulated(ctx, code, k, raw, m)
    requires ConstantExits(code) && ConstantsHeld(code, k, raw)
    ensures var r := RunCode(h, code, k, m);
      r.Returned? && r.link != 0 ==>
        exists e: nat :: e >= k && LeftThrough(code, e, r.link, r.value)
    decreases |code| - k
  {
    hide StepX, RunCode, Encodable, Simulated, Contents, ConstantsHeld, ConstantExits, LinkOf, ExitConstant;
    if k == |code| {
      NothingLeft(h, code, m);
    } else {
      var m' := OneInsn(h, ctx, code, k, raw, m);
      StepOfExit(h, ctx, code, k, raw, m);
      var s := StepX(h, ctx, code[k], raw, m.world, Contents(code, k, m));
      if s.XNext? {
        LinkNamesExit(h, ctx, code, k + 1, s.raw, m');
      }
    }
  }

  lemma StepOfExit<W>(h: Host<W>, ctx: nat, code: seq<XInsn>, k: nat, raw: Raw, m: Machine<W>)
    requires k < |code| && Encodable(code) && Callable(code) && ConstantExits(code) && ConstantsHeld(code, k, raw)
    ensures var s := StepX(h, ctx, code[k], raw, m.world, Contents(code, k, m));
      && (s.XNext? ==> ConstantsHeld(code, k + 1, s.raw))
      && (s.XLeave? && s.patchable ==> LeftThrough(code, k, LinkOf(code, k), s.value))
  {
    ConstantsStay(h, ctx, code, k, raw, m.world, Contents(code, k, m));
    LeavesAtExit(h, ctx, code[k], raw, m.world, Contents(code, k, m));
    hide StepX, Contents, ConstantsHeld, ConstantExits, LinkOf, ExitConstant, SingleAssignment, AllSound, Allocate;
    var s := StepX(h, ctx, code[k], raw, m.world, Contents(code, k, m));
    if s.XLeave? && s.patchable {
      PatchableValue(code, k, raw);
    }
  }

  /** Different exits have different addresses. */
  lemma LinksDiffer(code: seq<XInsn>, e: nat, f: nat)
    requires e < f < |code| && Encodable(code) && code[f].XExit?
    ensures LinkOf(code, e) > LinkOf(code, f)
  {
    hide LinkOf;
    LinkIs(code, e);
    LinkIs(code, f);
    CodeShrinks(code, Allocate(code).slot, e, f);
  }

  lemma LinkIs(code: seq<XInsn>, e: nat)
    requires e < |code| && Encodable(code)
    ensures LinkOf(code, e) == 4 + |CodeFrom(code, Allocate(code).slot, e + 1)|
  {
  }

  lemma CodeShrinks(code: seq<XInsn>, slots: map<V, nat>, e: nat, f: nat)
    requires e < f < |code| && AllSound(code) && code[f].XExit?
    ensures |CodeFrom(code, slots, e + 1)| > |CodeFrom(code, slots, f + 1)|
  {
    CodeFromShorter(code, slots, e + 1, f);
    CodeFromUnfolds(code, slots, f);
    ExitHasCode(code[f], slots);
    hide CodeFrom, Emit, JitEmit.Sound;
  }

  lemma ExitHasCode(insn: XInsn, slots: map<V, nat>)
    requires WellShaped(insn) && insn.XExit?
    ensures |Emit(insn, slots)| > 0
  {
  }

  lemma ConstantIsUnique(code: seq<XInsn>, e: nat, u: nat, v: nat)
    requires e < |code| && SingleAssignment(code) && ExitConstant(code, e, u) && ExitConstant(code, e, v)
    ensures u == v
  {
    hide SingleAssignment;
    var t := code[e].target;
    var i: nat :| MovesTo(code, i, e, t, u);
    var j: nat :| MovesTo(code, j, e, t, v);
    if i < j {
      DefinedBefore(code, i, j);
    } else if j < i {
      DefinedBefore(code, j, i);
    }
  }

  /**
   Two runs of a block, from any states and with any hosts, that report the same non-zero address return the
   same value: a jump that is patched in there is right whenever the exit is taken.
   */
  lemma LinkDeterminesValue<W>(h: Host<W>, h': Host<W>, ir: seq<IrInsn>, types: seq<Width>, m: Machine<W>, m': Machine<W>)
    requires WellFormed(ir, types) && JitCompile.Fits(ir, types) && |Compile(ir, types)| < W64 - 10
    ensures var r, r' := Run(h, Compile(ir, types), 0, m), Run(h', Compile(ir, types), 0, m');
      r.Returned? && r'.Returned? && r.link == r'.link != 0 ==> r.value == r'.value
  {
    var code := Lower(ir, types);
    CompiledIsEncodable(ir, types);
    LoweredConstantExits(ir, types, UsedBy(ir, |ir|), |ir|);
    StartOfCode(code, m);
    StartOfCode(code, m');
    assert ConstantsHeld(code, 0, map[]);
    CompiledRun(h, ir, types, m);
    CompiledRun(h', ir, types, m');
    hide Run, RunCode, CodeFrom, Compile, Lower, WellFormed, JitCompile.Fits, Encodable, Callable, Simulated, ConstantsHeld,
      ConstantExits, ExitConstant, LinkOf;
    hide LeftThrough;
    var r, r' := RunCode(h, code, 0, m), RunCode(h', code, 0, m');
    LinkNamesExit(h, m.regs[RDI], code, 0, map[], m);
    LinkNamesExit(h', m'.regs[RDI], code, 0, map[], m');
    if r.Returned? && r'.Returned? && r.link == r'.link != 0 {
      var e: nat :| LeftThrough(code, e, r.link, r.value);
      var f: nat :| LeftThrough(code, f, r'.link, r'.value);
      SameExit(code, e, f, r.link, r.value, r'.value);
    }
  }

  lemma CompiledRun<W>(h: Host<W>, ir: seq<IrInsn>, types: seq<Width>, m: Machine<W>)
    requires WellFormed(ir, types) && JitCompile.Fits(ir, types) && Encodable(Lower(ir, types))
    ensures RunCode(h, Lower(ir, types), 0, m) == Run(h, Compile(ir, types), 0, m)
  {
    hide Run, Lower, Encodable;
  }

  lemma SameExit(code: seq<XInsn>, e: nat, f: nat, link: nat, u: nat, v: nat)
    requires Encodable(code) && LeftThrough(code, e, link, u) && LeftThrough(code, f, link, v)
    ensures u == v
  {
    hide *;
    LeftThroughIs(code, e, link, u);
    LeftThroughIs(code, f, link, v);
    if e < f {
      LinksDiffer(code, e, f);
    } else if f < e {
      LinksDiffer(code, f, e);
    }
    ConstantIsUnique(code, e, u, v);
  }

  lemma LeftThroughIs(code: seq<XInsn>, e: nat, link: nat, v: nat)
    requires Encodable(code) && LeftThrough(code, e, link, v)
    ensures e < |code| && link == LinkOf(code, e) && ExitConstant(code, e, v) && code[e].XExit? && SingleAssignment(code)
  {
    hide LinkOf, SingleAssignment, AllSound, CodeFrom;
  }

  // ---------------------------------------------------------------- patching

  /** patch: the ret at the given address becomes a nop, and the move after it gets the target. */
  function PatchAt(code: seq<Insn>, link: nat, target: u64): (patched: seq<Insn>)
    requires 2 <= link <= |code|
    ensures |patched| == |code|
  {
    code[|code| - link := Nop][|code| - link + 1 := MovImm(RAX, target)]
  }

  /** Where patched exits jump, by the addresses that they reported. */
  type Targets = map<nat, u64>

  /** What becomes of an outcome when exits are patched. */
  function Redirected<W>(r: MOutcome<W>, targets: Targets): MOutcome<W> {
    if r.Returned? && r.link in targets then Jumped(targets[r.link], r.world) else r
  }

  lemma PatchSuffix(a: seq<Insn>, b: seq<Insn>, link: nat, target: u64)
    requires 2 <= link <= |b|
    ensures PatchAt(a + b, link, target) == a + PatchAt(b, link, target)
  {
  }

  lemma PatchPrefix(a: seq<Insn>, b: seq<Insn>, link: nat, target: u64)
    requires 2 <= link <= |a|
    ensures PatchAt(a + b, link + |b|, target) == PatchAt(a, link, target) + b
  {
  }

  function PatchedLeave(t: Num, target: u64): seq<Insn> {
    [Mov(RAX, t), LeaNext(RDX), Nop, MovImm(RAX, target), JmpRax, LeaNext(RDX)]
  }

  lemma PatchedLeaveJumps<W>(h: Host<W>, t: Num, target: u64, tail: nat, m: Machine<W>)
    ensures Run(h, PatchedLeave(t, target), tail, m) == Jumped(target, m.world)
  {
    var rest := [Nop, MovImm(RAX, target), JmpRax, LeaNext(RDX)];
    assert PatchedLeave(t, target) == [Mov(RAX, t)] + ([LeaNext(RDX)] + rest);
    hide Run;
    RunStep(h, Mov(RAX, t), [LeaNext(RDX)] + rest, tail, m);
    var m1 := Exec(h, Mov(RAX, t), m, |[LeaNext(RDX)] + rest| + tail);
    RunStep(h, LeaNext(RDX), rest, tail, m1);
    PatchAreaJumps(h, target, tail, Exec(h, LeaNext(RDX), m1, |rest| + tail));
  }

  lemma PatchAreaJumps<W>(h: Host<W>, target: u64, tail: nat, m: Machine<W>)
    ensures Run(h, [Nop, MovImm(RAX, target), JmpRax, LeaNext(RDX)], tail, m) == Jumped(target, m.world)
  {
    var rest := [JmpRax, LeaNext(RDX)];
    assert [Nop, MovImm(RAX, target), JmpRax, LeaNext(RDX)] == [Nop] + ([MovImm(RAX, target)] + rest);
    RegisterIsLow(target);
    RunStep(h, Nop, [MovImm(RAX, target)] + rest, tail, m);
    RunStep(h, MovImm(RAX, target), rest, tail, m);
  }

  /** The patched exit jumps where the original one returned. */
  lemma PatchedExitRuns<W>(h: Host<W>, t: Num, guard: Option<Num>, target: u64, tail: nat, m: Machine<W>)
    requires t >= 8 && (guard.Some? ==> guard.value >= 8) && tail < W64 - 10
    ensures |EmitExit(t, guard, true)| >= 6 && EmitExit(t, guard, true)[|EmitExit(t, guard, true)| - 4] == Ret
    ensures Run(h, PatchAt(EmitExit(t, guard, true), 4, target), tail, m)
         == Redirected(Run(h, EmitExit(t, guard, true), tail, m), map[4 + tail := target])
  {
    var leave := PatchedLeave(t, target);
    ExitRuns(h, t, guard, true, tail, m);
    if guard.None? {
      assert PatchAt(EmitExit(t, guard, true), 4, target) == leave;
      PatchedLeaveJumps(h, t, target, tail, m);
    } else {
      assert PatchAt(EmitExit(t, guard, true), 4, target) == [CmpZero(guard.value), Jump(true, |leave|)] + leave;
      GuardRuns(h, guard.value, leave, tail, m);
      PatchedLeaveJumps(h, t, target, tail, m.(zf := false));
    }
  }

  lemma PatchedInsnRuns<W>(h: Host<W>, insn: XInsn, slots: map<V, nat>, target: u64, tail: nat, m: Machine<W>)
    requires WellShaped(insn) && insn.XExit? && insn.patchable && tail < W64 - 10
    ensures var block := Emit(insn, slots);
      && |block| >= 6 && block[|block| - 4] == Ret
      && Run(h, PatchAt(block, 4, target), tail, m) == Redirected(Run(h, block, tail, m), map[4 + tail := target])
      && !Run(h, block, tail, m).Stuck?
  {
    SlotsAreHigh(slots);
    var g := if insn.guard.Some? then Some(R(slots, insn.guard.value)) else None;
    PatchedExitRuns(h, R(slots, insn.target), g, target, tail, m);
    ExitRuns(h, R(slots, insn.target), g, true, tail, m);
    hide Run, EmitExit, R, PatchAt;
  }

  lemma UnfoldAt(code: seq<XInsn>, k: nat)
    requires k < |code| && Encodable(code)
    ensures AllSound(code) && Allocate(code).Allocation? && JitEmit.Sound(code[k]) && WellShaped(code[k])
    ensures var slots := Allocate(code).slot;
      && CodeFrom(code, slots, k) == Emit(code[k], slots) + CodeFrom(code, slots, k + 1)
      && |CodeFrom(code, slots, k + 1)| < W64 - 10
  {
    CodeFromShorter(code, Allocate(code).slot, 0, k + 1);
    CodeFromUnfolds(code, Allocate(code).slot, k);
  }

  lemma RetInExit(insn: XInsn, slots: map<V, nat>)
    requires WellShaped(insn) && insn.XExit? && insn.patchable
    ensures var block := Emit(insn, slots); |block| >= 6 && block[|block| - 4] == Ret
  {
  }

  ghost predicate IsPatched(code: seq<XInsn>, k: nat, targets: Targets)
    requires k < |code| && Encodable(code)
  {
    code[k].XExit? && code[k].patchable && LinkOf(code, k) in targets
  }

  ghost function PatchedBlock(code: seq<XInsn>, k: nat, targets: Targets): (block: seq<Insn>)
    requires k < |code| && Encodable(code)
    ensures WellShaped(code[k]) && |block| == |Emit(code[k], Allocate(code).slot)|
  {
    hide Emit, LinkOf;
    UnfoldAt(code, k);
    var slots := Allocate(code).slot;
    if IsPatched(code, k, targets) then
      RetInExit(code[k], slots);
      PatchAt(Emit(code[k], slots), 4, targets[LinkOf(code, k)])
    else Emit(code[k], slots)
  }

  /** The code from k on with any number of exits patched. */
  ghost function PatchedFrom(code: seq<XInsn>, k: nat, targets: Targets): (patched: seq<Insn>)
    requires k <= |code| && Encodable(code)
    ensures |patched| == |CodeFrom(code, Allocate(code).slot, k)|
    decreases |code| - k
  {
    if k == |code| then []
    else
      hide Emit, CodeFrom;
      UnfoldAt(code, k);
      PatchedBlock(code, k, targets) + PatchedFrom(code, k + 1, targets)
  }

  /** Without patches it is the code itself. */
  lemma {:induction false} NothingPatched(code: seq<XInsn>, k: nat)
    requires k <= |code| && Encodable(code)
    ensures PatchedFrom(code, k, map[]) == CodeFrom(code, Allocate(code).slot, k)
    decreases |code| - k
  {
    hide *;
    if k == |code| {
      EmptyAtEnd(code, map[]);
    } else {
      NothingPatched(code, k + 1);
      UnfoldAt(code, k);
      PatchedUnfolds(code, k, map[]);
      PatchedBlockIs(code, k, map[]);
      NoTargets(code, k);
    }
  }

  lemma NoTargets(code: seq<XInsn>, k: nat)
    requires k < |code| && Encodable(code)
    ensures !IsPatched(code, k, map[])
  {
  }

  lemma EmptyAtEnd(code: seq<XInsn>, targets: Targets)
    requires Encodable(code)
    ensures PatchedFrom(code, |code|, targets) == [] == CodeFrom(code, Allocate(code).slot, |code|)
  {
    hide Encodable;
  }

  // ---------------------------------------------------------------- runs of patched code

  /** Patching only changes what happens at the patched exits. */
  lemma {:induction false} PatchedRuns<W>(h: Host<W>, ctx: nat, code: seq<XInsn>, k: nat, targets: Targets, raw: Raw, m: Machine<W>)
    requires k <= |code| && Encodable(code) && Callable(code) && Simulated(ctx, code, k, raw, m) && 0 !in targets
    ensures Run(h, PatchedFrom(code, k, targets), 0, m) == Redirected(RunCode(h, code, k, m), targets)
    decreases |code| - k
  {
    hide RunCode, PatchedFrom, LinkOf, Encodable, Simulated, Run, StepX, Contents;
    if k == |code| {
      EndOfPatched(h, code, targets, m);
    } else {
      var m' := PatchedInsn(h, ctx, code, k, targets, raw, m);
      var s := StepX(h, ctx, code[k], raw, m.world, Contents(code, k, m));
      if s.XNext? {
        PatchedRuns(h, ctx, code, k + 1, targets, s.raw, m');
      }
    }
  }

  lemma EndOfPatched<W>(h: Host<W>, code: seq<XInsn>, targets: Targets, m: Machine<W>)
    requires Encodable(code)
    ensures Run(h, PatchedFrom(code, |code|, targets), 0, m) == Redirected(RunCode(h, code, |code|, m), targets)
  {
    NothingLeft(h, code, m);
    assert PatchedFrom(code, |code|, targets) == [];
    hide RunCode, PatchedFrom, Encodable;
  }

  /** One instruction of the original code and of the patched code. */
  lemma PatchedInsn<W>(h: Host<W>, ctx: nat, code: seq<XInsn>, k: nat, targets: Targets, raw: Raw, m: Machine<W>)
    returns (m': Machine<W>)
    requires k < |code| && Encodable(code) && Callable(code) && Simulated(ctx, code, k, raw, m) && 0 !in targets
    ensures var r, r' := RunCode(h, code, k, m), Run(h, PatchedFrom(code, k, targets), 0, m);
      match StepX(h, ctx, code[k], raw, m.world, Contents(code, k, m))
      case XNext(raw', _) =>
        && r == RunCode(h, code, k + 1, m') && r' == Run(h, PatchedFrom(code, k + 1, targets), 0, m')
        && Simulated(ctx, code, k + 1, raw', m')
      case XLeave(_, _) => r' == Redirected(r, targets)
  {
    hide *;
    UnfoldAt(code, k);
    ReadyAtInsn(ctx, code, k, raw, m);
    CallableAt(code, k);
    RunCodeIs(h, code, k, m);
    ContentsIs(code, k, m);
    LinkIs(code, k);
    PatchedUnfolds(code, k, targets);
    PatchedBlockRuns(h, code, k, targets, m);
    var slots, insn := Allocate(code).slot, code[k];
    var rest, patched, block := CodeFrom(code, slots, k + 1), PatchedFrom(code, k + 1, targets), PatchedBlock(code, k, targets);
    EmitIsCorrect(h, ctx, insn, slots, raw, |rest|, m);
    RunAppend(h, Emit(insn, slots), rest, 0, m);
    RunAppend(h, block, patched, 0, m);
    var r, r' := Run(h, Emit(insn, slots), |rest|, m), Run(h, block, |rest|, m);
    var s := StepX(h, ctx, insn, raw, m.world, Contents(code, k, m));
    EffectShape(s, insn, slots, m, |rest|, r);
    m' := m;
    if s.XNext? {
      m' := r.final;
      RunCodeIs(h, code, k + 1, m');
      SimulatedNext(h, ctx, code, k, raw, m, m');
    } else {
      LeftWith(s, insn, slots, m, |rest|, r);
      LeavesAtExit(h, ctx, insn, raw, m.world, Contents(code, k, m));
      RedirectedAtExit(code, k, targets, r, r');
    }
  }

  lemma RedirectedAtExit<W>(code: seq<XInsn>, k: nat, targets: Targets, r: MOutcome<W>, r': MOutcome<W>)
    requires k < |code| && Encodable(code) && code[k].XExit? && 0 !in targets
    requires r.Returned? && r.link == if code[k].patchable then LinkOf(code, k) else 0
    requires r' == if IsPatched(code, k, targets) then Redirected(r, map[LinkOf(code, k) := targets[LinkOf(code, k)]]) else r
    ensures r' == Redirected(r, targets) && !r'.FellOff? && !r'.Stuck?
  {
  }

  lemma PatchedBlockRuns<W>(h: Host<W>, code: seq<XInsn>, k: nat, targets: Targets, m: Machine<W>)
    requires k < |code| && Encodable(code)
    ensures JitEmit.Sound(code[k])
    ensures var slots := Allocate(code).slot;
      var tail := |CodeFrom(code, slots, k + 1)|;
      var r, r' := Run(h, Emit(code[k], slots), tail, m), Run(h, PatchedBlock(code, k, targets), tail, m);
      && r' == (if IsPatched(code, k, targets) then Redirected(r, map[LinkOf(code, k) := targets[LinkOf(code, k)]]) else r)
      && (r.FellOff? ==> r' == r)
  {
    hide *;
    UnfoldAt(code, k);
    PatchedBlockIs(code, k, targets);
    if IsPatched(code, k, targets) {
      LinkIs(code, k);
      PatchedIsExit(code, k, targets);
      RedirectedBlock(h, code[k], Allocate(code).slot, targets[LinkOf(code, k)], |CodeFrom(code, Allocate(code).slot, k + 1)|,
                      LinkOf(code, k), m);
    }
  }

  lemma RedirectedBlock<W>(h: Host<W>, insn: XInsn, slots: map<V, nat>, target: u64, tail: nat, link: nat, m: Machine<W>)
    requires WellShaped(insn) && insn.XExit? && insn.patchable && tail < W64 - 10 && link == 4 + tail
    ensures |Emit(insn, slots)| >= 6
    ensures var r, r' := Run(h, Emit(insn, slots), tail, m), Run(h, PatchAt(Emit(insn, slots), 4, target), tail, m);
      r' == Redirected(r, map[link := target]) && (r.FellOff? ==> r' == r)
  {
    hide *;
    PatchedInsnRuns(h, insn, slots, target, tail, m);
    StaysFallen(Run(h, Emit(insn, slots), tail, m), map[link := target]);
  }

  lemma PatchedIsExit(code: seq<XInsn>, k: nat, targets: Targets)
    requires k < |code| && Encodable(code) && IsPatched(code, k, targets)
    ensures code[k].XExit? && code[k].patchable && LinkOf(code, k) in targets
  {
  }

  lemma StaysFallen<W>(r: MOutcome<W>, targets: Targets)
    ensures r.FellOff? ==> Redirected(r, targets) == r
  {
  }

  lemma CallableAt(code: seq<XInsn>, k: nat)
    requires k < |code| && Callable(code)
    ensures code[k].XCall? ==> |code[k].widths| == |code[k].params|
  {
  }

  lemma ContentsIs<W>(code: seq<XInsn>, k: nat, m: Machine<W>)
    requires k < |code| && Encodable(code)
    ensures Contents(code, k, m) == OldContents(code[k], Allocate(code).slot, m)
  {
  }

  lemma PatchedUnfolds(code: seq<XInsn>, k: nat, targets: Targets)
    requires k < |code| && Encodable(code)
    ensures PatchedFrom(code, k, targets) == PatchedBlock(code, k, targets) + PatchedFrom(code, k + 1, targets)
    ensures |PatchedFrom(code, k + 1, targets)| == |CodeFrom(code, Allocate(code).slot, k + 1)|
  {
    hide PatchedBlock, Encodable, CodeFrom, Allocate;
  }

  // ---------------------------------------------------------------- one patch after the other

  /** Patching one more exit changes its block and nothing else. */
  lemma {:induction false} PatchOneMore(code: seq<XInsn>, k: nat, e: nat, targets: Targets, target: u64)
    requires k <= e < |code| && Encodable(code) && code[e].XExit? && code[e].patchable && LinkOf(code, e) !in targets
    ensures var c, link := PatchedFrom(code, k, targets), LinkOf(code, e);
      && 4 <= link <= |c| && c[|c| - link] == Ret
      && PatchAt(c, link, target) == PatchedFrom(code, k, targets[link := target])
    decreases e - k
  {
    hide *;
    var link := LinkOf(code, e);
    PatchedUnfolds(code, k, targets);
    PatchedUnfolds(code, k, targets[link := target]);
    var block, rest := PatchedBlock(code, k, targets), PatchedFrom(code, k + 1, targets);
    if k < e {
      PatchOneMore(code, k + 1, e, targets, target);
      LinksDiffer(code, k, e);
      SameBlock(code, k, targets, link, target);
      PatchSuffix(block, rest, link, target);
    } else {
      LinkIs(code, e);
      BlockBecomesPatched(code, e, targets, target);
      NothingLater(code, e, e + 1, targets, target);
      PatchPrefix(block, rest, 4, target);
    }
  }

  lemma SameBlock(code: seq<XInsn>, k: nat, targets: Targets, link: nat, target: u64)
    requires k < |code| && Encodable(code) && LinkOf(code, k) != link
    ensures PatchedBlock(code, k, targets[link := target]) == PatchedBlock(code, k, targets)
  {
    hide LinkOf, Emit, Encodable, PatchAt;
  }

  lemma BlockBecomesPatched(code: seq<XInsn>, e: nat, targets: Targets, target: u64)
    requires e < |code| && Encodable(code) && code[e].XExit? && code[e].patchable && LinkOf(code, e) !in targets
    ensures var block := PatchedBlock(code, e, targets);
      && |block| >= 6 && block[|block| - 4] == Ret
      && PatchedBlock(code, e, targets[LinkOf(code, e) := target]) == PatchAt(block, 4, target)
  {
    hide *;
    UnfoldAt(code, e);
    RetInExit(code[e], Allocate(code).slot);
    PatchedBlockIs(code, e, targets);
    PatchedBlockIs(code, e, targets[LinkOf(code, e) := target]);
    IsPatchedIff(code, e, targets);
    IsPatchedIff(code, e, targets[LinkOf(code, e) := target]);
  }

  lemma IsPatchedIff(code: seq<XInsn>, k: nat, targets: Targets)
    requires k < |code| && Encodable(code) && code[k].XExit? && code[k].patchable
    ensures IsPatched(code, k, targets) <==> LinkOf(code, k) in targets
  {
  }

  lemma PatchedBlockIs(code: seq<XInsn>, k: nat, targets: Targets)
    requires k < |code| && Encodable(code)
    ensures WellShaped(code[k])
    ensures var block := Emit(code[k], Allocate(code).slot);
      if IsPatched(code, k, targets)
      then |block| >= 6 && PatchedBlock(code, k, targets) == PatchAt(block, 4, targets[LinkOf(code, k)])
      else PatchedBlock(code, k, targets) == block
  {
    UnfoldAt(code, k);
    if IsPatched(code, k, targets) {
      RetInExit(code[k], Allocate(code).slot);
    }
    hide LinkOf, Emit, Encodable, PatchAt, Allocate;
  }

  /** Later exits have other addresses. */
  lemma {:induction false} NothingLater(code: seq<XInsn>, e: nat, k: nat, targets: Targets, target: u64)
    requires e < k <= |code| && Encodable(code)
    ensures PatchedFrom(code, k, targets[LinkOf(code, e) := target]) == PatchedFrom(code, k, targets)
    decreases |code| - k
  {
    hide Encodable, LinkOf, PatchedBlock;
    if k < |code| {
      NothingLater(code, e, k + 1, targets, target);
      if code[k].XExit? {
        LinksDiffer(code, e, k);
        SameBlock(code, k, targets, LinkOf(code, e), target);
      } else {
        NoExitNoPatch(code, k, targets, LinkOf(code, e), target);
      }
    }
  }

  lemma NoExitNoPatch(code: seq<XInsn>, k: nat, targets: Targets, link: nat, target: u64)
    requires k < |code| && Encodable(code) && !code[k].XExit?
    ensures PatchedBlock(code, k, targets[link := target]) == PatchedBlock(code, k, targets)
  {
    hide LinkOf, Emit, Encodable;
  }

  /** Compiled code in which exits have been patched. */
  ghost function PatchedCode(ir: seq<IrInsn>, types: seq<Width>, targets: Targets): (c: seq<Insn>)
    requires WellFormed(ir, types) && JitCompile.Fits(ir, types) && |Compile(ir, types)| < W64 - 10
  {
    CompiledIsEncodable(ir, types);
    PatchedFrom(Lower(ir, types), 0, targets)
  }

  /**
   patch, on code in which any number of other exits has been patched before: it finds a ret where the exit
   reported its address, and the exit joins the patched ones.
   */
  lemma PatchAddsTarget(ir: seq<IrInsn>, types: seq<Width>, targets: Targets, e: nat, target: u64)
    requires WellFormed(ir, types) && JitCompile.Fits(ir, types) && |Compile(ir, types)| < W64 - 10
    requires e < |Lower(ir, types)| && Lower(ir, types)[e].XExit? && Lower(ir, types)[e].patchable
    ensures Encodable(Lower(ir, types)) && PatchedCode(ir, types, map[]) == Compile(ir, types)
    ensures var link, c := LinkOf(Lower(ir, types), e), PatchedCode(ir, types, targets);
      link !in targets ==>
        && 2 <= link <= |c| && c[|c| - link] == Ret
        && PatchAt(c, link, target) == PatchedCode(ir, types, targets[link := target])
  {
    hide *;
    CompiledIsEncodable(ir, types);
    PatchedCodeIs(ir, types, map[]);
    PatchedCodeIs(ir, types, targets);
    var code, link := Lower(ir, types), LinkOf(Lower(ir, types), e);
    PatchedCodeIs(ir, types, targets[link := target]);
    NothingPatched(code, 0);
    if link !in targets {
      PatchOneMore(code, 0, e, targets, target);
    }
  }

  lemma PatchedCodeIs(ir: seq<IrInsn>, types: seq<Width>, targets: Targets)
    requires WellFormed(ir, types) && JitCompile.Fits(ir, types) && |Compile(ir, types)| < W64 - 10
    requires Encodable(Lower(ir, types))
    ensures PatchedCode(ir, types, targets) == PatchedFrom(Lower(ir, types), 0, targets)
  {
    hide Lower, WellFormed, JitCompile.Fits, PatchedFrom, Encodable, Compile;
  }

  /**
   With any number of exits patched, every run that left through one of them jumps to its target instead,
   with the same effects, and every other run is as before.
   */
  lemma PatchIsCorrect<W>(h: Host<W>, ir: seq<IrInsn>, types: seq<Width>, targets: Targets, m: Machine<W>)
    requires WellFormed(ir, types) && JitCompile.Fits(ir, types) && |Compile(ir, types)| < W64 - 10 && 0 !in targets
    ensures var r, r' := Run(h, Compile(ir, types), 0, m), Run(h, PatchedCode(ir, types, targets), 0, m);
      r' == if r.Returned? && r.link in targets then Jumped(targets[r.link], r.world) else r
  {
    var code := Lower(ir, types);
    CompiledIsEncodable(ir, types);
    StartOfCode(code, m);
    RunCodeIs(h, code, 0, m);
    hide Run, RunCode, Lower, WellFormed, JitCompile.Fits, PatchedFrom, Encodable, Callable, Simulated;
    PatchedRuns(h, m.regs[RDI], code, 0, targets, map[], m);
  }
}
