/** Programs that are small enough to compile, and what their code returns. */
module JitSmall {
  import opened Wrappers
  import opened Words
  import opened JitIr
  import opened JitLower
  import opened JitAlloc
  import opened JitMachine
  import opened JitEmit
  import opened JitCompile
  import opened JitLink

  // ---------------------------------------------------------------- slots

  lemma {:induction false} SubsetSize<T>(s: set<T>, t: set<T>)
    requires s <= t
    ensures |s| <= |t|
  {
    if s != {} {
      var x :| x in s;
      SubsetSize(s - {x}, t - {x});
    }
  }

  lemma {:induction false} DefinitionsAtMost(code: seq<XInsn>, i: nat)
    requires i <= |code|
    ensures |DefsX(code, i)| <= i
  {
    if i > 0 {
      DefinitionsAtMost(code, i - 1);
    }
  }

  lemma DefinitionsStep(code: seq<XInsn>, i: nat)
    requires i < |code|
    ensures |DefsX(code, i + 1)| <= |DefsX(code, i)| + if code[i].Dst().Some? then 1 else 0
  {
    hide XInsn.Dst;
  }

  lemma LiveAreDefined(code: seq<XInsn>, i: nat)
    requires i <= |code|
    ensures LiveAt(code, i) <= DefsX(code, i)
  {
    hide DefsX, LastRead;
  }

  /** One more definition than before instruction i, up to any later one. */
  lemma DefinitionsBefore(code: seq<XInsn>, i: nat, n: nat)
    requires i < n <= |code| && SingleAssignment(code) && code[i].Dst().Some?
    ensures |DefsX(code, i)| < |DefsX(code, n)| && |LiveAt(code, i)| <= |DefsX(code, i)|
  {
    var d := code[i].Dst().value;
    LiveAreDefined(code, i);
    hide *;
    AssignedOnce(code, i);
    DefsGrow(code, i + 1, n);
    SubsetSize(DefsX(code, i) + {d}, DefsX(code, n));
    SubsetSize(LiveAt(code, i), DefsX(code, i));
  }

  lemma FewDefinitionsFit(code: seq<XInsn>)
    requires SingleAssignment(code) && |DefsX(code, |code|)| <= SLOTS
    ensures Allocate(code).Allocation?
  {
    forall i | 0 <= i < |code| && code[i].Dst().Some?
      ensures |LiveAt(code, i)| < SLOTS
    {
      DefinitionsBefore(code, i, |code|);
    }
    hide SingleAssignment, LiveAt, DefsX;
    FitsExactly(code, |code|);
  }

  /** A ninth register gets a slot as well, if one of those defined before is not read any more. */
  lemma OneDeadFits(code: seq<XInsn>, i: nat, v: V)
    requires SingleAssignment(code) && |DefsX(code, |code|)| <= SLOTS + 1
    requires i < |code| && code[i].Dst().Some? && forall k :: i < k < |code| ==> code[k].Dst().None?
    requires v in DefsX(code, i) && forall k :: i <= k < |code| ==> v !in code[k].Uses()
    ensures Allocate(code).Allocation?
  {
    hide *;
    DefinitionsBefore(code, i, |code|);
    DeadIsNotLive(code, i, v);
    forall j | 0 <= j < |code| && code[j].Dst().Some?
      ensures |LiveAt(code, j)| < SLOTS
    {
      if j < i {
        DefinitionsBefore(code, j, i);
      }
    }
    FitsExactly(code, |code|);
    AllocateIs(code);
  }

  lemma AllocateIs(code: seq<XInsn>)
    ensures Allocate(code) == AllocateTo(code, |code|)
  {
  }

  lemma DeadIsNotLive(code: seq<XInsn>, i: nat, v: V)
    requires i <= |code| && v in DefsX(code, i) && forall k :: i <= k < |code| ==> v !in code[k].Uses()
    ensures |LiveAt(code, i)| < |DefsX(code, i)|
  {
    LastReadIsLast(code, v, |code|);
    hide XInsn.Uses, DefsX;
    assert LiveAt(code, i) <= DefsX(code, i) - {v};
    SubsetSize(LiveAt(code, i), DefsX(code, i) - {v});
  }

  // ---------------------------------------------------------------- code

  lemma EmitIsShort(insn: XInsn, slots: map<V, nat>)
    requires WellShaped(insn)
    ensures |Emit(insn, slots)| <= 20
  {
    hide Pushes, Pops, EmitArgs;
    if insn.XCall? {
      ArgsAreShort(slots, insn.params);
    }
  }

  lemma ArgsAreShort(slots: map<V, nat>, params: seq<Option<V>>)
    requires |params| == 4
    ensures |EmitArgs(slots, params)| <= 4 && |Pushes(SAVED)| == 6 && |Pops(SAVED)| == 6
  {
  }

  lemma {:induction false} CodeIsShort(code: seq<XInsn>, slots: map<V, nat>, k: nat)
    requires k <= |code| && AllSound(code)
    ensures |CodeFrom(code, slots, k)| <= 20 * (|code| - k)
    decreases |code| - k
  {
    if k < |code| {
      CodeFromUnfolds(code, slots, k);
      EmitIsShort(code[k], slots);
      CodeIsShort(code, slots, k + 1);
    }
  }

  lemma SmallProgramCompiles(ir: seq<IrInsn>, types: seq<Width>)
    requires WellFormed(ir, types) && JitCompile.Fits(ir, types) && |Lower(ir, types)| <= 100
    ensures |Compile(ir, types)| < W64 - 10
  {
    LoweredSound(ir, types, UsedBy(ir, |ir|), |ir|);
    CodeIsShort(Lower(ir, types), Allocate(Lower(ir, types)).slot, 0);
    hide Lower, CodeFrom, WellFormed, AllSound;
  }

  /** What compiled code returns is what its pseudo-instructions return. */
  lemma CompiledReturns<W>(h: Host<W>, ir: seq<IrInsn>, types: seq<Width>, m: Machine<W>)
    requires WellFormed(ir, types) && JitCompile.Fits(ir, types) && |Compile(ir, types)| < W64 - 10
    ensures Encodable(Lower(ir, types)) && Callable(Lower(ir, types))
    ensures SameRun(Lower(ir, types),
                    RunX(h, m.regs[RDI], Lower(ir, types), 0, map[], m.world, LeftOver(h, Lower(ir, types), 0, m)),
                    Run(h, Compile(ir, types), 0, m), m)
  {
    var code := Lower(ir, types);
    CompiledIsEncodable(ir, types);
    StartOfCode(code, m);
    RunCodeIs(h, code, 0, m);
    hide Run, RunX, CodeFrom, Lower, WellFormed, JitCompile.Fits, Encodable, Callable, Simulated, LeftOver, Compile, RunCode;
    CodeSimulates(h, m.regs[RDI], code, 0, map[], m);
  }

  /** Two exits that can be patched report different addresses: code that leaves through the one does not do what
      the IR does that leaves through the other. */
  lemma OtherExit<W>(ir: seq<IrInsn>, types: seq<Width>, o: Outcome<W>, x: XOutcome<W>, r: MOutcome<W>, m: Machine<W>)
    requires WellFormed(ir, types) && JitCompile.Fits(ir, types) && |Compile(ir, types)| < W64 - 10
    requires Encodable(Lower(ir, types)) && SameRun(Lower(ir, types), x, r, m)
    requires o.Exited? && x.XExited? && x.patchable && IsPatchable(ir, types, o.exit)
    requires PlaceOf(ir, types, o.exit) < |Lower(ir, types)| && Lower(ir, types)[PlaceOf(ir, types, o.exit)].XExit?
    requires x.exit < |Lower(ir, types)| && Lower(ir, types)[x.exit].XExit?
    ensures SameResult(ir, types, o, r, m)
       <==> o.value == x.value && o.world == x.world && PlaceOf(ir, types, o.exit) == x.exit
  {
    var code, k := Lower(ir, types), PlaceOf(ir, types, o.exit);
    hide Lower, WellFormed, JitCompile.Fits, Encodable, LinkOf, Compile, PlaceOf, IsPatchable;
    if k < x.exit {
      LinksDiffer(code, k, x.exit);
    } else if x.exit < k {
      LinksDiffer(code, x.exit, k);
    }
  }

  /** Lowering step by step. */
  lemma LowerStep(ir: seq<IrInsn>, types: seq<Width>, used: set<Reg>, code: seq<XInsn>, i: nat)
    requires i < |ir| && i < |code| && LowerTo(ir, types, used, i) == code[..i]
    requires LowerInsn(ir[i], types, used, code[..i]) == [code[i]]
    ensures LowerTo(ir, types, used, i + 1) == code[..i + 1]
  {
    hide LowerInsn;
  }

  lemma LowerIs(ir: seq<IrInsn>, types: seq<Width>)
    ensures Lower(ir, types) == LowerTo(ir, types, UsedBy(ir, |ir|), |ir|)
  {
  }

  /** Whether a register is clean only changes where it is defined. */
  lemma {:induction false} CleanStays(ir: seq<IrInsn>, promised: set<Reg>, i: nat, j: nat, r: Reg)
    requires i <= j <= |ir| && forall k :: i <= k < j ==> r !in Given(ir[k].Dst())
    ensures r in CleanAfter(ir, promised, j) <==> r in CleanAfter(ir, promised, i)
    decreases j
  {
    hide LeavesClean, IrInsn.Dst;
    if i < j {
      CleanStays(ir, promised, i, j - 1, r);
    }
  }

  lemma LeaveIr<W>(h: Host<W>, ctx: nat, ir: seq<IrInsn>, i: nat, env: Env, w: W, v: nat)
    requires i < |ir| && StepIr(h, ctx, ir[i], env, w) == Leave(v)
    ensures RunIr(h, ctx, ir, i, env, w) == Exited(v, w, i)
  {
  }

  lemma MeaningIs<W>(h: Host<W>, ir: seq<IrInsn>, m: Machine<W>)
    ensures Meaning(h, ir, m) == RunIr(h, m.regs[RDI], ir, 0, map[], m.world)
  {
  }
}
