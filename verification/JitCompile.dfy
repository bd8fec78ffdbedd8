/** The whole backend: what the generated code does is what the IR says. */
module JitCompile {
  import opened Words
  import opened JitIr
  import opened JitBits
  import opened JitLower
  import opened JitAlloc
  import opened JitMachine
  import opened JitEmit

  ghost predicate AllSound(code: seq<XInsn>) {
    forall k :: 0 <= k < |code| ==> JitEmit.Sound(code[k])
  }

  /** The code of the pseudo-instructions from k on. */
  ghost function CodeFrom(code: seq<XInsn>, slots: map<V, nat>, k: nat): seq<Insn>
    requires k <= |code| && AllSound(code)
    decreases |code| - k
  {
    if k == |code| then [] else Emit(code[k], slots) + CodeFrom(code, slots, k + 1)
  }

  /** Every live register has its value in its slot. */
  ghost predicate LiveMatch<W>(code: seq<XInsn>, slots: map<V, nat>, k: nat, raw: Raw, m: Machine<W>)
    requires k <= |code|
  {
    forall v :: Live(code, v, k) ==> m.regs[R(slots, v)] == GetV(raw, v)
  }

  ghost predicate SameRun<W>(code: seq<XInsn>, x: XOutcome<W>, r: MOutcome<W>, m: Machine<W>)
    requires Encodable(code)
  {
    match x
    case XExited(v, w, p, k) => k < |code| && r == Returned(v, if p then LinkOf(code, k) else 0, w)
    case XEnded(w) => r.FellOff? && r.final.world == w && r.final.stack == m.stack
  }

  /** What the partly written registers held matters only from k on. */
  lemma {:induction false} EarlierGarbage<W>(h: Host<W>, ctx: nat, code: seq<XInsn>, k: nat, raw: Raw, w: W, g: seq<nat>, j: nat, x: nat)
    requires j < k <= |code| == |g| && Callable(code)
    ensures RunX(h, ctx, code, k, raw, w, g[j := x]) == RunX(h, ctx, code, k, raw, w, g)
    decreases |code| - k
  {
    if k < |code| {
      var s := StepX(h, ctx, code[k], raw, w, g[k]);
      hide StepX;
      if s.XNext? {
        EarlierGarbage(h, ctx, code, k + 1, s.raw, s.world, g, j, x);
      }
    }
  }

  lemma ReadyToEmit<W>(code: seq<XInsn>, k: nat, raw: Raw, m: Machine<W>)
    requires k < |code| && SingleAssignment(code) && Allocate(code).Allocation?
    requires LiveMatch(code, Allocate(code).slot, k, raw, m)
    ensures Apart(code[k], Allocate(code).slot) && OperandsMatch(code[k], Allocate(code).slot, raw, m)
  {
    var slots, insn := Allocate(code).slot, code[k];
    forall u | u in insn.Uses()
      ensures Live(code, u, k)
      ensures insn.Dst().Some? ==> R(slots, u) != R(slots, insn.Dst().value)
    {
      OperandsAreLive(code, k, u);
      if insn.Dst().Some? {
        DestinationIsApart(code, k, u);
      }
    }
    hide Live, R, Allocate, XInsn.Uses, XInsn.Dst;
  }

  /** After an instruction every register that is still live has its value in its slot. */
  lemma LiveMatchNext<W>(code: seq<XInsn>, k: nat, raw: Raw, raw': Raw, m: Machine<W>, m': Machine<W>)
    requires k < |code| && SingleAssignment(code) && Allocate(code).Allocation?
    requires LiveMatch(code, Allocate(code).slot, k, raw, m)
    requires forall v :: !(code[k].Dst().Some? && v == code[k].Dst().value) ==> GetV(raw', v) == GetV(raw, v)
    requires var slots, d := Allocate(code).slot, code[k].Dst();
      if d.Some? then
        && m'.regs[R(slots, d.value)] == GetV(raw', d.value)
        && forall j: Num :: j >= 8 && j != R(slots, d.value) ==> m'.regs[j] == m.regs[j]
      else forall j: Num :: j >= 8 ==> m'.regs[j] == m.regs[j]
    ensures LiveMatch(code, Allocate(code).slot, k + 1, raw', m')
  {
    var slots, d := Allocate(code).slot, code[k].Dst();
    forall v | Live(code, v, k + 1)
      ensures m'.regs[R(slots, v)] == GetV(raw', v)
    {
      if !(d.Some? && v == d.value) {
        StillLive(code, k, v);
        if d.Some? {
          DestinationIsApart(code, k, v);
        }
        SlotsAreHigh(slots);
      }
    }
  }

  lemma StillLive(code: seq<XInsn>, k: nat, v: V)
    requires k < |code| && Live(code, v, k + 1) && !(code[k].Dst().Some? && v == code[k].Dst().value)
    ensures Live(code, v, k)
  {
  }

  lemma StepDefines<W>(h: Host<W>, ctx: nat, insn: XInsn, raw: Raw, w: W, garbage: nat)
    requires insn.XCall? ==> |insn.widths| == |insn.params|
    ensures var s := StepX(h, ctx, insn, raw, w, garbage);
      s.XNext? ==> forall v :: !(insn.Dst().Some? && v == insn.Dst().value) ==> GetV(s.raw, v) == GetV(raw, v)
  {
  }

  lemma SoundIsCallable(code: seq<XInsn>)
    requires AllSound(code)
    ensures Callable(code)
  {
  }

  /** Code that the backend can finish: in single assignment form, with slots, and not absurdly long. */
  ghost predicate Encodable(code: seq<XInsn>) {
    && SingleAssignment(code) && Allocate(code).Allocation? && AllSound(code)
    && |CodeFrom(code, Allocate(code).slot, 0)| < W64 - 10
  }

  ghost function RunCode<W>(h: Host<W>, code: seq<XInsn>, k: nat, m: Machine<W>): MOutcome<W>
    requires k <= |code| && Encodable(code)
  {
    Run(h, CodeFrom(code, Allocate(code).slot, k), 0, m)
  }

  /** The address that a patchable exit reports: that of its ret. */
  ghost function LinkOf(code: seq<XInsn>, k: nat): (link: nat)
    requires k < |code| && Encodable(code)
    ensures link > 0
  {
    4 + |CodeFrom(code, Allocate(code).slot, k + 1)|
  }

  /** The simulation relation before pseudo-instruction k. */
  ghost predicate Simulated<W>(ctx: nat, code: seq<XInsn>, k: nat, raw: Raw, m: Machine<W>)
    requires k <= |code| && Encodable(code)
  {
    LiveMatch(code, Allocate(code).slot, k, raw, m) && m.regs[RDI] == ctx
  }

  ghost function Contents<W>(code: seq<XInsn>, k: nat, m: Machine<W>): (x: nat)
    requires k < |code| && Encodable(code)
    ensures x < W64
  {
    OldContents(code[k], Allocate(code).slot, m)
  }

  /** What the slots hold when the destinations of a run from k on are written. */
  ghost function LeftOver<W>(h: Host<W>, code: seq<XInsn>, k: nat, m: Machine<W>): (g: seq<nat>)
    requires k <= |code| && Encodable(code)
    ensures |g| == |code| && Garbage(g)
    ensures k < |code| ==> g[k] == Contents(code, k, m)
    decreases |code| - k
  {
    if k == |code| then seq(|code|, _ => 0)
    else
      var r := RunInsn(h, code, k, m);
      var g := if r.FellOff? then LeftOver(h, code, k + 1, r.final) else seq(|code|, _ => 0);
      g[k := Contents(code, k, m)]
  }

  /** The code of pseudo-instruction k alone. */
  ghost function RunInsn<W>(h: Host<W>, code: seq<XInsn>, k: nat, m: Machine<W>): MOutcome<W>
    requires k < |code| && Encodable(code)
  {
    var slots := Allocate(code).slot;
    Run(h, Emit(code[k], slots), |CodeFrom(code, slots, k + 1)|, m)
  }

  /** The generated code does what the pseudo-instructions do for what its slots happened to hold. */
  lemma {:induction false} CodeSimulates<W>(h: Host<W>, ctx: nat, code: seq<XInsn>, k: nat, raw: Raw, m: Machine<W>)
    requires k <= |code| && Encodable(code) && Callable(code) && Simulated(ctx, code, k, raw, m)
    ensures SameRun(code, RunX(h, ctx, code, k, raw, m.world, LeftOver(h, code, k, m)), RunCode(h, code, k, m), m)
    decreases |code| - k
  {
    hide StepX, RunCode, RunInsn, Encodable, Simulated, Contents;
    if k == |code| {
      NothingLeft(h, code, m);
    } else {
      var old_ := Contents(code, k, m);
      var m' := OneInsn(h, ctx, code, k, raw, m);
      var s := StepX(h, ctx, code[k], raw, m.world, old_);
      if s.XNext? {
        CodeSimulates(h, ctx, code, k + 1, s.raw, m');
        EarlierGarbage(h, ctx, code, k + 1, s.raw, s.world, LeftOver(h, code, k + 1, m'), k, old_);
      }
    }
  }

  lemma NothingLeft<W>(h: Host<W>, code: seq<XInsn>, m: Machine<W>)
    requires Encodable(code)
    ensures RunCode(h, code, |code|, m) == FellOff(m)
  {
  }

  /** The code of one pseudo-instruction and what follows it. */
  lemma OneInsn<W>(h: Host<W>, ctx: nat, code: seq<XInsn>, k: nat, raw: Raw, m: Machine<W>) returns (m': Machine<W>)
    requires k < |code| && Encodable(code) && Callable(code) && Simulated(ctx, code, k, raw, m)
    ensures match StepX(h, ctx, code[k], raw, m.world, Contents(code, k, m))
      case XNext(raw', w') =>
        && RunCode(h, code, k, m) == RunCode(h, code, k + 1, m') && Simulated(ctx, code, k + 1, raw', m')
        && m'.world == w' && m'.stack == m.stack && RunInsn(h, code, k, m) == FellOff(m')
      case XLeave(v, p) =>
        RunCode(h, code, k, m) == Returned(v, if p then LinkOf(code, k) else 0, m.world)
  {
    var slots, insn := Allocate(code).slot, code[k];
    var rest := CodeFrom(code, slots, k + 1);
    ReadyAtInsn(ctx, code, k, raw, m);
    hide StepX, Run, Emit, SingleAssignment, AllSound, Allocate, CodeFrom, Effect, Apart, OperandsMatch, OldContents;
    var s := StepX(h, ctx, insn, raw, m.world, Contents(code, k, m));
    m' := BlockRuns(h, ctx, insn, slots, rest, raw, m);
    if s.XNext? {
      SimulatedNext(h, ctx, code, k, raw, m, m');
    } else {
      LeftWith(s, insn, slots, m, |rest|, Run(h, Emit(insn, slots) + rest, 0, m));
    }
  }

  lemma ReadyAtInsn<W>(ctx: nat, code: seq<XInsn>, k: nat, raw: Raw, m: Machine<W>)
    requires k < |code| && Encodable(code) && Simulated(ctx, code, k, raw, m)
    ensures var slots := Allocate(code).slot;
      && JitEmit.Sound(code[k]) && Apart(code[k], slots) && OperandsMatch(code[k], slots, raw, m)
      && m.regs[RDI] == ctx && |CodeFrom(code, slots, k + 1)| < W64 - 10
      && CodeFrom(code, slots, k) == Emit(code[k], slots) + CodeFrom(code, slots, k + 1)
  {
    var slots := Allocate(code).slot;
    CodeFromShorter(code, slots, 0, k + 1);
    CodeFromUnfolds(code, slots, k);
    ReadyToEmit(code, k, raw, m);
    hide Emit, SingleAssignment, Allocate, CodeFrom, Apart, OperandsMatch;
  }

  lemma LeftWith<W>(s: XStep<W>, insn: XInsn, slots: map<V, nat>, m: Machine<W>, tail: nat, r: MOutcome<W>)
    requires s.XLeave? && Effect(s, insn, slots, m, tail, r)
    ensures r == Returned(s.value, if s.patchable then 4 + tail else 0, m.world)
  {
  }

  lemma SimulatedNext<W>(h: Host<W>, ctx: nat, code: seq<XInsn>, k: nat, raw: Raw, m: Machine<W>, m': Machine<W>)
    requires k < |code| && Encodable(code) && Simulated(ctx, code, k, raw, m) && JitEmit.Sound(code[k])
    requires var slots := Allocate(code).slot;
      var s := StepX(h, ctx, code[k], raw, m.world, OldContents(code[k], slots, m));
      s.XNext? && Effect(s, code[k], slots, m, |CodeFrom(code, slots, k + 1)|, FellOff(m'))
    ensures var s := StepX(h, ctx, code[k], raw, m.world, OldContents(code[k], Allocate(code).slot, m));
      Simulated(ctx, code, k + 1, s.raw, m') && m'.world == s.world && m'.stack == m.stack
  {
    var slots := Allocate(code).slot;
    var s := StepX(h, ctx, code[k], raw, m.world, OldContents(code[k], slots, m));
    StepDefines(h, ctx, code[k], raw, m.world, OldContents(code[k], slots, m));
    hide StepX, SingleAssignment, Allocate, CodeFrom, AllSound, OldContents, R;
    LiveMatchNext(code, k, raw, s.raw, m, m');
  }

  lemma BlockRuns<W>(h: Host<W>, ctx: nat, insn: XInsn, slots: map<V, nat>, rest: seq<Insn>, raw: Raw, m: Machine<W>)
    returns (m': Machine<W>)
    requires JitEmit.Sound(insn) && Apart(insn, slots) && OperandsMatch(insn, slots, raw, m)
    requires m.regs[RDI] == ctx && |rest| < W64 - 10
    ensures var s := StepX(h, ctx, insn, raw, m.world, OldContents(insn, slots, m));
      var r := Run(h, Emit(insn, slots) + rest, 0, m);
      if s.XNext? then
        && r == Run(h, rest, 0, m') && Effect(s, insn, slots, m, |rest|, FellOff(m'))
        && Run(h, Emit(insn, slots), |rest|, m) == FellOff(m')
      else Effect(s, insn, slots, m, |rest|, r)
  {
    hide StepX, Run, Emit, Apart, OperandsMatch, R, Effect, OldContents;
    EmitIsCorrect(h, ctx, insn, slots, raw, |rest|, m);
    RunAppend(h, Emit(insn, slots), rest, 0, m);
    var r := Run(h, Emit(insn, slots), |rest|, m);
    EffectShape(StepX(h, ctx, insn, raw, m.world, OldContents(insn, slots, m)), insn, slots, m, |rest|, r);
    m' := if r.FellOff? then r.final else m;
  }

  lemma CodeFromUnfolds(code: seq<XInsn>, slots: map<V, nat>, k: nat)
    requires k < |code| && AllSound(code)
    ensures JitEmit.Sound(code[k])
    ensures CodeFrom(code, slots, k) == Emit(code[k], slots) + CodeFrom(code, slots, k + 1)
  {
    hide Emit, JitEmit.Sound;
  }

  lemma EffectShape<W>(s: XStep<W>, insn: XInsn, slots: map<V, nat>, m: Machine<W>, tail: nat, r: MOutcome<W>)
    requires Effect(s, insn, slots, m, tail, r)
    ensures if s.XNext? then r.FellOff? else r.Returned?
  {
  }

  lemma {:induction false} CodeFromShorter(code: seq<XInsn>, slots: map<V, nat>, j: nat, k: nat)
    requires j <= k <= |code| && AllSound(code)
    ensures |CodeFrom(code, slots, k)| <= |CodeFrom(code, slots, j)|
    decreases k - j
  {
    if j < k {
      CodeFromShorter(code, slots, j + 1, k);
      hide Emit;
    }
  }

  lemma LowerInsnSound(insn: IrInsn, types: seq<Width>, used: set<Reg>, code: seq<XInsn>)
    requires Typed(insn, types)
    ensures AllSound(LowerInsn(insn, types, used, code))
  {
  }

  lemma {:induction false} LoweredSound(ir: seq<IrInsn>, types: seq<Width>, used: set<Reg>, i: nat)
    requires i <= |ir| && WellFormed(ir, types)
    ensures AllSound(LowerTo(ir, types, used, i))
  {
    hide LowerInsn, JitEmit.Sound, WellFormed, Typed;
    if i > 0 {
      TypedAt(ir, types, i - 1);
      LoweredSound(ir, types, used, i - 1);
      LowerInsnSound(ir[i - 1], types, used, LowerTo(ir, types, used, i - 1));
    }
  }

  lemma TypedAt(ir: seq<IrInsn>, types: seq<Width>, i: nat)
    requires i < |ir| && WellFormed(ir, types)
    ensures Typed(ir[i], types)
  {
  }

  // ---------------------------------------------------------------- the theorem

  /** There are slots for all registers. */
  predicate Fits(ir: seq<IrInsn>, types: seq<Width>) { Allocate(Lower(ir, types)).Allocation? }

  ghost function Compile(ir: seq<IrInsn>, types: seq<Width>): seq<Insn>
    requires WellFormed(ir, types) && Fits(ir, types)
  {
    LoweredSound(ir, types, UsedBy(ir, |ir|), |ir|);
    CodeFrom(Lower(ir, types), Allocate(Lower(ir, types)).slot, 0)
  }

  /** The address that instruction i reports when it is left through: that of its ret if it can be patched. */
  ghost function LinkAt(ir: seq<IrInsn>, types: seq<Width>, i: nat): nat
    requires WellFormed(ir, types) && Fits(ir, types) && |Compile(ir, types)| < W64 - 10
  {
    CompiledIsEncodable(ir, types);
    if IsPatchable(ir, types, i) && PlaceOf(ir, types, i) < |Lower(ir, types)|
    then LinkOf(Lower(ir, types), PlaceOf(ir, types, i)) else 0
  }

  /** Generated code has returned the value of an exit, with its address, or fallen off its end. */
  ghost predicate SameResult<W>(ir: seq<IrInsn>, types: seq<Width>, o: Outcome<W>, r: MOutcome<W>, m: Machine<W>)
    requires WellFormed(ir, types) && Fits(ir, types) && |Compile(ir, types)| < W64 - 10
  {
    match o
    case Exited(v, w, i) => r == Returned(v, LinkAt(ir, types, i), w)
    case Ended(w) => r.FellOff? && r.final.world == w && r.final.stack == m.stack
  }

  /** The upper bits of narrow operands are tolerated when the code runs from m. */
  ghost predicate ToleratedOn<W>(h: Host<W>, ir: seq<IrInsn>, types: seq<Width>, m: Machine<W>)
    requires WellFormed(ir, types) && Fits(ir, types) && |Compile(ir, types)| < W64 - 10
  {
    CompiledIsEncodable(ir, types);
    Tolerated(h, m.regs[RDI], ir, types, 0, map[], map[], m.world, LeftOver(h, Lower(ir, types), 0, m))
  }

  /** What the IR means when the code runs from m. */
  function Meaning<W>(h: Host<W>, ir: seq<IrInsn>, m: Machine<W>): Outcome<W> {
    RunIr(h, m.regs[RDI], ir, 0, map[], m.world)
  }

  /**
   For every well-formed IR, every host and every state of the machine: if the upper bits of narrow operands
   are tolerated in the run at hand, the generated code returns the value, and leaves the memory, the guest
   context and the helpers' effects, that the IR specifies.  Shifts that the IR leaves open get the result
   that x86 gives them.
   */
  lemma CompiledCodeIsCorrect<W>(h: Host<W>, ir: seq<IrInsn>, types: seq<Width>, m: Machine<W>)
    requires WellFormed(ir, types) && Fits(ir, types) && |Compile(ir, types)| < W64 - 10
    requires ToleratedOn(OnX86(h), ir, types, m)
    ensures SameResult(ir, types, Meaning(OnX86(h), ir, m), Run(h, Compile(ir, types), 0, m), m)
  {
    var code, h', ctx := Lower(ir, types), OnX86(h), m.regs[RDI];
    CompiledIsEncodable(ir, types);
    StartOfCode(code, m);
    ShiftsAreNative(h, Shifted, Compile(ir, types), 0, m);
    RunCodeIs(h', code, 0, m);
    hide Run, RunX, RunIr, RunCode, CodeFrom, Compile, Encodable, Lower, WellFormed, Garbage, Callable, Tolerated, LeftOver, Fits,
      Simulated, Shifted;
    CodeSimulates(h', ctx, code, 0, map[], m);
    LoweringIsCorrect(h', ctx, ir, types, m.world, LeftOver(h', code, 0, m));
  }

  /** If the outcome does not depend on the shifts that the IR leaves open, the code has that outcome. */
  lemma OpenShiftsMayBeDiscarded<W>(h: Host<W>, ir: seq<IrInsn>, types: seq<Width>, m: Machine<W>)
    requires WellFormed(ir, types) && Fits(ir, types) && |Compile(ir, types)| < W64 - 10
    requires ToleratedOn(OnX86(h), ir, types, m)
    requires forall f :: Meaning(h.(over := f), ir, m) == Meaning(h, ir, m)
    ensures SameResult(ir, types, Meaning(h, ir, m), Run(h, Compile(ir, types), 0, m), m)
  {
    CompiledCodeIsCorrect(h, ir, types, m);
  }

  /**
   Programs that need no look at the registers: if every operand that is read as a whole register is sure to
   be clean, because of the instruction that defines it or because a helper promises it, and the helpers keep
   their promises, then upper bits are tolerated from every state of the machine.
   */
  lemma SupportedIsToleratedOn<W>(h: Host<W>, ir: seq<IrInsn>, types: seq<Width>, promised: set<Reg>, m: Machine<W>)
    requires WellFormed(ir, types) && Fits(ir, types) && |Compile(ir, types)| < W64 - 10
    requires Supported(ir, promised) && PromisesKept(OnX86(h), m.regs[RDI], ir, promised, 0, map[], m.world)
    ensures ToleratedOn(OnX86(h), ir, types, m)
  {
    CompiledIsEncodable(ir, types);
    var h' := OnX86(h);
    SupportedIsTolerated(h', m.regs[RDI], ir, types, promised, 0, map[], map[], m.world, LeftOver(h', Lower(ir, types), 0, m));
    hide Run, RunIr, Compile, Lower, WellFormed, Supported, PromisesKept, Tolerated, LeftOver, Fits;
  }

  /** The generated code of such programs is correct from every state. */
  lemma SupportedCodeIsCorrect<W>(h: Host<W>, ir: seq<IrInsn>, types: seq<Width>, promised: set<Reg>, m: Machine<W>)
    requires WellFormed(ir, types) && Fits(ir, types) && |Compile(ir, types)| < W64 - 10
    requires Supported(ir, promised) && PromisesKept(OnX86(h), m.regs[RDI], ir, promised, 0, map[], m.world)
    ensures SameResult(ir, types, Meaning(OnX86(h), ir, m), Run(h, Compile(ir, types), 0, m), m)
  {
    SupportedIsToleratedOn(h, ir, types, promised, m);
    CompiledCodeIsCorrect(h, ir, types, m);
  }

  /** What their code returns, reports and does depends on the guest context and the world only, not on what the
      other registers hold when it is entered. */
  lemma RegistersDoNotMatter<W>(h: Host<W>, ir: seq<IrInsn>, types: seq<Width>, promised: set<Reg>, m: Machine<W>, m': Machine<W>)
    requires WellFormed(ir, types) && Fits(ir, types) && |Compile(ir, types)| < W64 - 10
    requires Supported(ir, promised) && PromisesKept(OnX86(h), m.regs[RDI], ir, promised, 0, map[], m.world)
    requires m'.regs[RDI] == m.regs[RDI] && m'.world == m.world
    ensures var r, r' := Run(h, Compile(ir, types), 0, m), Run(h, Compile(ir, types), 0, m');
      if r.Returned? then r' == r else r.FellOff? && r'.FellOff? && r'.final.world == r.final.world
  {
    SupportedCodeIsCorrect(h, ir, types, promised, m);
    SupportedCodeIsCorrect(h, ir, types, promised, m');
    hide Run, RunIr, Compile, WellFormed, Supported, PromisesKept, Fits, LinkAt;
  }

  lemma StartOfCode<W>(code: seq<XInsn>, m: Machine<W>)
    requires Encodable(code)
    ensures Simulated(m.regs[RDI], code, 0, map[], m)
  {
    NothingLive(code);
  }

  lemma RunCodeIs<W>(h: Host<W>, code: seq<XInsn>, k: nat, m: Machine<W>)
    requires k <= |code| && Encodable(code)
    ensures RunCode(h, code, k, m) == Run(h, CodeFrom(code, Allocate(code).slot, k), 0, m)
  {
  }

  lemma CompiledIsEncodable(ir: seq<IrInsn>, types: seq<Width>)
    requires WellFormed(ir, types) && Fits(ir, types) && |Compile(ir, types)| < W64 - 10
    ensures var code := Lower(ir, types);
      Encodable(code) && Callable(code) && Compile(ir, types) == CodeFrom(code, Allocate(code).slot, 0)
  {
    LoweredSound(ir, types, UsedBy(ir, |ir|), |ir|);
    LoweredTo(ir, types, |ir|);
    SoundIsCallable(Lower(ir, types));
  }

  lemma NothingLive(code: seq<XInsn>)
    ensures forall v :: !Live(code, v, 0)
  {
  }
}
