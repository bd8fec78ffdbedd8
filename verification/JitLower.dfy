/**
 The first pass of the x86_64 backend: the IR becomes pseudo-instructions over an unbounded set of 64-bit
 registers.  Its correctness says that each of them agrees with its IR register in the low bits, whatever
 the instructions that only write part of a register leave in the rest.
 */
module JitLower {
  import opened Wrappers
  import opened Powers
  import opened Words
  import opened JitIr
  import opened JitBits

  /** A register of the backend: that of an IR register, or a temporary made for a destination. */
  datatype V = Of(reg: Reg) | Temp(owner: Reg, k: nat)

  datatype XInsn =
    | XMov(dst: V, literal: u64)
    | XLoad(width: Width, dst: V, address: V)
    | XStore(width: Width, src: V, address: V)
    | XBinop(op: Op, width: Width, dst: V, op1: V, op2: V)
    | XIte(dst: V, pred: V, trueOp: V, falseOp: V)
    | XCast(cast: Cast, dst: V, operand: V)
    | XExit(target: V, guard: Option<V>, patchable: bool)
    | XCall(address: V, params: seq<Option<V>>, widths: seq<Width>, result: Option<V>)
    | XRead(width: Width, dst: V, offset: int)
    | XWrite(width: Width, src: V, offset: int)
    | XMarker(pc: nat)
  {
    function Dst(): Option<V> {
      if XMov? || XLoad? || XBinop? || XIte? || XCast? || XRead? then Some(dst)
      else if XCall? then result
      else None
    }

    function Uses(): set<V> {
      match this
      case XLoad(_, _, a) => {a}
      case XStore(_, s, a) => {s, a}
      case XBinop(_, _, _, a, b) => {a, b}
      case XIte(_, p, t, f) => {p, t, f}
      case XCast(_, _, a) => {a}
      case XExit(t, g, _) => {t} + GivenV(g)
      case XCall(a, ps, _, _) => {a} + PassedV(ps)
      case XWrite(_, s, _) => {s}
      case _ => {}
    }
  }

  function GivenV(v: Option<V>): set<V> { if v.Some? then {v.value} else {} }

  function PassedV(params: seq<Option<V>>): set<V> {
    set p | p in params && p.Some? :: p.value
  }

  // ---------------------------------------------------------------- meaning

  type Raw = map<V, nat>

  function GetV(raw: Raw, v: V): nat { if v in raw then raw[v] else 0 }

  /** A helper reads its arguments in their declared widths: section 3.2.3 of the System V AMD64 ABI leaves
      the rest of the argument registers undefined. */
  function ArgsV(raw: Raw, params: seq<Option<V>>, widths: seq<Width>): (a: seq<Option<nat>>)
    requires |widths| == |params|
    ensures |a| == |params|
  {
    seq(|params|, k requires 0 <= k < |params| =>
      if params[k].None? then None else Some(Low(widths[k], GetV(raw, params[k].value))))
  }

  datatype XOutcome<+W> = XExited(value: nat, world: W, patchable: bool, exit: nat) | XEnded(world: W)

  datatype XStep<+W> = XNext(raw: Raw, world: W) | XLeave(value: nat, patchable: bool)

  /** One pseudo-instruction; `garbage` is what its destination held before. */
  function StepX<W>(h: Host<W>, ctx: nat, insn: XInsn, raw: Raw, w: W, garbage: nat): XStep<W>
    requires insn.XCall? ==> |insn.widths| == |insn.params|
  {
    match insn
    case XMov(d, v) => XNext(raw[d := v], w)
    case XLoad(wd, d, a) => XNext(raw[d := Fetched(wd, garbage, h.load(w, wd, GetV(raw, a)))], w)
    case XStore(wd, s, a) => XNext(raw, h.store(w, wd, GetV(raw, a), Low(wd, GetV(raw, s))))
    case XBinop(op, wd, d, a, b) => XNext(raw[d := Native(op, wd, GetV(raw, a), GetV(raw, b))], w)
    case XIte(d, p, t, f) => XNext(raw[d := if GetV(raw, p) != 0 then GetV(raw, t) else GetV(raw, f)], w)
    case XCast(c, d, a) => XNext(raw[d := NativeCast(c, GetV(raw, a))], w)
    case XExit(t, g, p) =>
      if g.Some? && GetV(raw, g.value) == 0 then XNext(raw, w) else XLeave(GetV(raw, t), p)
    case XCall(a, ps, ws, d) =>
      var (w', v) := h.call(w, GetV(raw, a), ctx, ArgsV(raw, ps, ws));
      XNext(if d.Some? then raw[d.value := Low(I64, v)] else raw, w')
    case XRead(wd, d, o) => XNext(raw[d := Fetched(wd, garbage, h.read(w, wd, ctx, o))], w)
    case XWrite(wd, s, o) => XNext(raw, h.write(w, wd, ctx, o, Low(wd, GetV(raw, s))))
    case XMarker(_) => XNext(raw, w)
  }

  /** What a register holds after a value has been moved from memory into its low bits. */
  function Fetched(wd: Width, garbage: nat, v: nat): (x: nat)
    ensures garbage < W64 ==> x < W64
    ensures Low(wd, x) == Low(wd, v) && (wd == I32 || wd == I64 ==> x == Low(wd, v))
  {
    FetchedLow(wd, garbage, v);
    Merge(wd, garbage, Low(wd, v))
  }

  lemma FetchedLow(wd: Width, garbage: nat, v: nat)
    ensures var x := Merge(wd, garbage, Low(wd, v));
      0 <= x && (garbage < W64 ==> x < W64) && Low(wd, x) == Low(wd, v)
  {
    var q := LowParts(wd, garbage);
    match wd
    case I8 =>
      assert q >= 0;
      LowUnique(wd, garbage - Low(wd, garbage) + Low(wd, v), q, Low(wd, v));
    case I16 =>
      assert q >= 0;
      LowUnique(wd, garbage - Low(wd, garbage) + Low(wd, v), q, Low(wd, v));
    case I32 => LowOfSmall(wd, Low(wd, v));
    case I64 => LowOfSmall(wd, Low(wd, v));
  }

  ghost predicate Callable(code: seq<XInsn>) {
    forall k :: 0 <= k < |code| && code[k].XCall? ==> |code[k].widths| == |code[k].params|
  }

  function RunX<W>(h: Host<W>, ctx: nat, code: seq<XInsn>, k: nat, raw: Raw, w: W, g: seq<nat>): XOutcome<W>
    requires k <= |code| == |g| && Callable(code)
    decreases |code| - k
  {
    if k == |code| then XEnded(w)
    else match StepX(h, ctx, code[k], raw, w, g[k])
      case XNext(raw', w') => RunX(h, ctx, code, k + 1, raw', w', g)
      case XLeave(v, p) => XExited(v, w, p, k)
  }

  // ---------------------------------------------------------------- lowering

  /** x86Register.isConstant: the register is the target of a constant move seen so far. */
  predicate IsConstant(code: seq<XInsn>, v: V) {
    exists k :: 0 <= k < |code| && code[k].XMov? && code[k].dst == v
  }

  lemma ConstantNext(code: seq<XInsn>, insn: XInsn, v: V)
    ensures IsConstant(code + [insn], v) <==> IsConstant(code, v) || (insn.XMov? && insn.dst == v)
  {
    var longer := code + [insn];
    assert longer[|code|] == insn;
    if IsConstant(code, v) {
      var k :| 0 <= k < |code| && code[k].XMov? && code[k].dst == v;
      assert longer[k] == code[k];
    }
  }

  function LiftParams(params: seq<Option<Reg>>): (r: seq<Option<V>>)
    ensures |r| == |params|
  {
    seq(|params|, k requires 0 <= k < |params| => Lift(params[k]))
  }

  function Lift(r: Option<Reg>): Option<V> { if r.None? then None else Some(Of(r.value)) }

  function ParamWidths(types: seq<Width>, params: seq<Option<Reg>>): (r: seq<Width>)
    ensures |r| == |params|
  {
    seq(|params|, k requires 0 <= k < |params| => if params[k].None? then I64 else TypeOf(types, params[k].value))
  }

  /** The pseudo-instructions for one IR instruction, given those emitted so far and the registers that are
      read somewhere: narrow arithmetic shifts sign-extend first, reads nobody needs are dropped. */
  function LowerInsn(insn: IrInsn, types: seq<Width>, used: set<Reg>, code: seq<XInsn>): seq<XInsn> {
    match insn
    case MovConst(_, d, v) => [XMov(Of(d), v)]
    case Load(w, d, a) => [XLoad(w, Of(d), Of(a))]
    case Store(w, s, a) => [XStore(w, Of(s), Of(a))]
    case Binop(op, w, d, a, b) =>
      if op == Asr && w != I64 then
        [XMov(Temp(d, 0), 64 - w.Bits()),
         XBinop(Shl, I64, Temp(d, 1), Of(a), Temp(d, 0)),
         XBinop(Asr, I64, Temp(d, 2), Temp(d, 1), Temp(d, 0)),
         XBinop(Asr, w, Of(d), Temp(d, 2), Of(b))]
      else [XBinop(op, w, Of(d), Of(a), Of(b))]
    case Ite(_, d, p, t, f) => [XIte(Of(d), Of(p), Of(t), Of(f))]
    case CastTo(c, d, a) => [XCast(c, Of(d), Of(a))]
    case Exit(t, g) => [XExit(Of(t), Lift(g), IsConstant(code, Of(t)))]
    case Call(a, ps, _, d) => [XCall(Of(a), LiftParams(ps), ParamWidths(types, ps), Lift(d))]
    case Read(w, d, o) => if d in used then [XRead(w, Of(d), o)] else []
    case Write(w, s, o) => [XWrite(w, Of(s), o)]
    case Marker(pc) => [XMarker(pc)]
  }

  /** The registers that the first i instructions read. */
  function UsedBy(ir: seq<IrInsn>, i: nat): set<Reg>
    requires i <= |ir|
  {
    if i == 0 then {} else UsedBy(ir, i - 1) + ir[i - 1].Uses()
  }

  function LowerTo(ir: seq<IrInsn>, types: seq<Width>, used: set<Reg>, i: nat): seq<XInsn>
    requires i <= |ir|
  {
    if i == 0 then []
    else
      var code := LowerTo(ir, types, used, i - 1);
      code + LowerInsn(ir[i - 1], types, used, code)
  }

  /** allocateInstructions: all of the IR lowered. */
  function Lower(ir: seq<IrInsn>, types: seq<Width>): seq<XInsn> {
    LowerTo(ir, types, UsedBy(ir, |ir|), |ir|)
  }

  lemma {:induction false} LowerPrefix(ir: seq<IrInsn>, types: seq<Width>, used: set<Reg>, i: nat, j: nat)
    requires i <= j <= |ir|
    ensures LowerTo(ir, types, used, i) <= LowerTo(ir, types, used, j)
    decreases j
  {
    if i < j {
      LowerPrefix(ir, types, used, i, j - 1);
    }
  }

  /** The pseudo-instructions of instruction i are found in the whole code where those before it end. */
  lemma LowerAt(ir: seq<IrInsn>, types: seq<Width>, used: set<Reg>, i: nat)
    requires i < |ir|
    ensures var before, code := LowerTo(ir, types, used, i), LowerTo(ir, types, used, |ir|);
      var block := LowerInsn(ir[i], types, used, before);
      && |before| + |block| == |LowerTo(ir, types, used, i + 1)| <= |code|
      && code[|before|..|before| + |block|] == block
      && forall k :: 0 <= k < |block| ==> code[|before| + k] == block[k]
  {
    LowerPrefix(ir, types, used, i + 1, |ir|);
    LowerPrefix(ir, types, used, i, i + 1);
  }

  lemma {:induction false} LowerCallable(ir: seq<IrInsn>, types: seq<Width>, used: set<Reg>, i: nat)
    requires i <= |ir|
    ensures Callable(LowerTo(ir, types, used, i))
  {
    if i > 0 {
      LowerCallable(ir, types, used, i - 1);
    }
  }

  lemma {:induction false} UsesAreUsed(ir: seq<IrInsn>, i: nat, n: nat)
    requires i < n <= |ir|
    ensures ir[i].Uses() <= UsedBy(ir, n)
    decreases n
  {
    if i < n - 1 {
      UsesAreUsed(ir, i, n - 1);
    }
  }

  // ---------------------------------------------------------------- simulation

  /** A backend register stands for an IR register: same low bits, and zeros above if it is among the clean ones. */
  predicate Agrees(types: seq<Width>, clean: set<Reg>, env: Env, raw: Raw, r: Reg) {
    && r in env && Of(r) in raw && Holds(TypeOf(types, r), raw[Of(r)], env[r])
    && (r in clean ==> raw[Of(r)] == env[r])
  }

  ghost predicate Related(types: seq<Width>, clean: set<Reg>, live: set<Reg>, env: Env, raw: Raw) {
    forall r :: r in live ==> Agrees(types, clean, env, raw, r)
  }

  /**
   The upper bits that an instruction may find in the operands that the code generator reads as whole
   registers: those that do not change what it does.
   */
  predicate Tolerates(insn: IrInsn, env: Env, raw: Raw) {
    match insn
    case Load(_, _, a) => GetV(raw, Of(a)) == Get(env, a)
    case Store(_, _, a) => GetV(raw, Of(a)) == Get(env, a)
    case Call(a, _, _, _) => GetV(raw, Of(a)) == Get(env, a)
    case Binop(op, w, _, a, b) =>
      if op == CmpEq || op == CmpNe then Get(env, a) == Get(env, b) ==> GetV(raw, Of(a)) == GetV(raw, Of(b))
      else op == Shr ==> BroughtDown(w, GetV(raw, Of(a)), Get(env, b)) == 0
    case Ite(_, _, p, t, f) =>
      Get(env, p) == 0 ==> GetV(raw, Of(p)) == 0 || Get(env, t) == Get(env, f)
    case Exit(_, g) => g.Some? && Get(env, g.value) == 0 ==> GetV(raw, Of(g.value)) == 0
    case _ => true
  }

  /** What is known before an instruction. */
  ghost predicate Before(insn: IrInsn, types: seq<Width>, clean: set<Reg>, live: set<Reg>, env: Env, raw: Raw) {
    && Typed(insn, types) && insn.Uses() <= live
    && Given(insn.Dst()) !! live && (Given(insn.Dst()) !! clean || insn.Call?)
    && Related(types, clean, live, env, raw)
  }

  /** What the simulation needs. */
  ghost predicate Ready(insn: IrInsn, types: seq<Width>, clean: set<Reg>, live: set<Reg>, env: Env, raw: Raw) {
    Before(insn, types, clean, live, env, raw) && Tolerates(insn, env, raw)
  }

  /** Clean operands are tolerated. */
  lemma CleanIsTolerated(insn: IrInsn, types: seq<Width>, clean: set<Reg>, live: set<Reg>, env: Env, raw: Raw)
    requires Before(insn, types, clean, live, env, raw) && NeedsClean(insn) <= clean
    ensures Ready(insn, types, clean, live, env, raw)
  {
    ReadAsWhole(insn);
    forall r | r in NeedsClean(insn)
      ensures GetV(raw, Of(r)) == Get(env, r) < TypeOf(types, r).Size()
    {
      Operand(types, clean, live, env, raw, r);
    }
    if insn.Binop? && insn.op == Shr {
      WidthOfShift(insn, types);
    }
    hide Related, Typed, NeedsClean, IrInsn.Uses;
    EqualIsTolerated(insn, env, raw);
  }

  lemma ReadAsWhole(insn: IrInsn)
    ensures NeedsClean(insn) <= insn.Uses()
  {
  }

  lemma WidthOfShift(insn: IrInsn, types: seq<Width>)
    requires Typed(insn, types) && insn.Binop? && insn.op == Shr
    ensures NeedsClean(insn) == {insn.op1} && TypeOf(types, insn.op1) == insn.width
  {
  }

  lemma EqualIsTolerated(insn: IrInsn, env: Env, raw: Raw)
    requires forall r :: r in NeedsClean(insn) ==> GetV(raw, Of(r)) == Get(env, r)
    requires insn.Binop? && insn.op == Shr ==> Get(env, insn.op1) < insn.width.Size()
    ensures Tolerates(insn, env, raw)
  {
    if insn.Binop? && insn.op == Shr {
      NothingBroughtDown(insn.width, Get(env, insn.op1), Get(env, insn.op2));
    }
    hide BroughtDown, Get, GetV;
  }

  lemma NothingBroughtDown(w: Width, a: nat, b: nat)
    requires a < w.Size()
    ensures BroughtDown(w, a, b) == 0
  {
    LowOfSmall(w, a);
    hide Low;
    QuotientSmaller(0, Pow2(b % 64));
    LowOfSmall(w, 0);
  }

  /** A definition on both sides keeps the relation. */
  lemma Define(insn: IrInsn, types: seq<Width>, clean: set<Reg>, live: set<Reg>, env: Env, raw: Raw, a: nat, x: nat)
    requires Before(insn, types, clean, live, env, raw) && insn.Dst().Some?
    requires Holds(TypeOf(types, insn.Dst().value), x, a) && (LeavesClean(insn, clean) ==> x == a)
    ensures var d := insn.Dst().value;
      Related(types, CleanWith(insn, clean), live + Given(insn.Dst()), env[d := a], raw[Of(d) := x])
  {
    var d := insn.Dst().value;
    var env', raw' := env[d := a], raw[Of(d) := x];
    hide Holds, LeavesClean;
    forall r | r in live + {d}
      ensures Agrees(types, CleanWith(insn, clean), env', raw', r)
    {
      if r != d {
        assert Agrees(types, clean, env, raw, r);
      }
    }
  }

  lemma Operand(types: seq<Width>, clean: set<Reg>, live: set<Reg>, env: Env, raw: Raw, r: Reg)
    requires Related(types, clean, live, env, raw) && r in live
    ensures Holds(TypeOf(types, r), GetV(raw, Of(r)), Get(env, r))
    ensures r in clean || TypeOf(types, r) == I64 ==> GetV(raw, Of(r)) == Get(env, r)
    ensures Get(env, r) < TypeOf(types, r).Size()
  {
    assert Agrees(types, clean, env, raw, r);
    if TypeOf(types, r) == I64 {
      LowOfSmall(I64, raw[Of(r)]);
    }
  }

  /** The binary operations that become one pseudo-instruction give the right result exactly if the upper bits
      of their operands are tolerated. */
  lemma NativeApplies<W>(h: Host<W>, op: Op, w: Width, x: nat, y: nat, a: nat, b: nat)
    requires Holds(w, x, a) && Holds(if op.IsShift() then I8 else w, y, b) && (op == Asr ==> w == I64)
    requires h.over == Shifted
    ensures Native(op, w, x, y) == Result(h, op, w, a, b)
       <==> if op == CmpEq || op == CmpNe then a == b ==> x == y else op == Shr ==> BroughtDown(w, x, b) == 0
  {
    ResultOnX86(h, op, w, a, b);
    match op
    case Shl => NativeShl(w, x, y, a, b);
    case Shr => NativeShr(w, x, y, a, b);
    case Asr =>
      LowOfSmall(I64, x);
      SignedIsWord(a);
      NativeAsr(I64, y, a, b);
    case Ror => NativeRor(w, x, y, a, b);
    case CmpEq => CompareExactly(w, x, y, a, b);
    case CmpNe => CompareExactly(w, x, y, a, b);
    case _ => NativeAlu(op, w, x, y, a, b);
  }

  /** A comparison is right exactly if equal values come in equal registers. */
  lemma CompareExactly(w: Width, x: nat, y: nat, a: nat, b: nat)
    requires Holds(w, x, a) && Holds(w, y, b)
    ensures Native(CmpEq, w, x, y) == Apply(CmpEq, w, a, b) <==> (a == b ==> x == y)
    ensures Native(CmpNe, w, x, y) == Apply(CmpNe, w, a, b) <==> (a == b ==> x == y)
  {
    MaskOfOnes(w);
    hide Low;
  }

  lemma SignedIsWord(a: nat)
    requires a < W64
    ensures Low(I64, AsSigned(I64, a)) == a
  {
  }

  lemma MaskOfOnes(w: Width)
    ensures Low(w, W64 - 1) == w.Size() - 1 > 0 && Low(w, 0) == 0
  {
    match w case I8 => case I16 => case I32 => case I64 =>
  }

  ghost predicate StepsAgree<W>(s: Step<W>, x: XStep<W>, insn: IrInsn, types: seq<Width>, clean: set<Reg>, live: set<Reg>) {
    match s
    case Next(env', w') =>
      x.XNext? && x.world == w' && Related(types, CleanWith(insn, clean), live + Given(insn.Dst()), env', x.raw)
    case Leave(v) => x.XLeave? && x.value == v
  }

  lemma BinopStep<W>(h: Host<W>, ctx: nat, insn: IrInsn, types: seq<Width>, clean: set<Reg>, live: set<Reg>,
                     env: Env, raw: Raw, w: W, garbage: nat)
    requires insn.Binop? && !IsNarrowAsr(insn) && Ready(insn, types, clean, live, env, raw) && h.over == Shifted
    ensures StepsAgree(StepIr(h, ctx, insn, env, w),
                       StepX(h, ctx, XBinop(insn.op, insn.width, Of(insn.dst), Of(insn.op1), Of(insn.op2)), raw, w, garbage),
                       insn, types, clean, live)
  {
    Operand(types, clean, live, env, raw, insn.op1);
    Operand(types, clean, live, env, raw, insn.op2);
    var a, b := Get(env, insn.op1), Get(env, insn.op2);
    var x, y := GetV(raw, Of(insn.op1)), GetV(raw, Of(insn.op2));
    NativeApplies(h, insn.op, insn.width, x, y, a, b);
    ResultHolds(insn.width, Native(insn.op, insn.width, x, y));
    hide Native, Result, Related, BroughtDown, Holds;
    Define(insn, types, clean, live, env, raw, Result(h, insn.op, insn.width, a, b), Native(insn.op, insn.width, x, y));
  }

  /** A masked result is clean. */
  lemma ResultHolds(w: Width, x: nat)
    requires x < w.Size()
    ensures Holds(w, x, x)
  {
    LowOfSmall(w, x);
  }

  lemma FetchStep(insn: IrInsn, types: seq<Width>, clean: set<Reg>, live: set<Reg>, env: Env, raw: Raw, v: nat, garbage: nat)
    requires (insn.Load? || insn.Read?) && Ready(insn, types, clean, live, env, raw) && garbage < W64
    ensures Related(types, CleanWith(insn, clean), live + Given(insn.Dst()), env[insn.dst := v % insn.width.Size()],
                    raw[Of(insn.dst) := Fetched(insn.width, garbage, v)])
  {
    Define(insn, types, clean, live, env, raw, v % insn.width.Size(), Fetched(insn.width, garbage, v));
  }

  lemma IteStep(insn: IrInsn, types: seq<Width>, clean: set<Reg>, live: set<Reg>, env: Env, raw: Raw)
    requires insn.Ite? && Ready(insn, types, clean, live, env, raw)
    ensures var x := if GetV(raw, Of(insn.pred)) != 0 then GetV(raw, Of(insn.trueOp)) else GetV(raw, Of(insn.falseOp));
      var a := if Get(env, insn.pred) != 0 then Get(env, insn.trueOp) else Get(env, insn.falseOp);
      Related(types, CleanWith(insn, clean), live + Given(insn.Dst()), env[insn.dst := a], raw[Of(insn.dst) := x])
  {
    Operand(types, clean, live, env, raw, insn.pred);
    Operand(types, clean, live, env, raw, insn.trueOp);
    Operand(types, clean, live, env, raw, insn.falseOp);
    var x := if GetV(raw, Of(insn.pred)) != 0 then GetV(raw, Of(insn.trueOp)) else GetV(raw, Of(insn.falseOp));
    var a := if Get(env, insn.pred) != 0 then Get(env, insn.trueOp) else Get(env, insn.falseOp);
    Define(insn, types, clean, live, env, raw, a, x);
  }

  lemma CastStep(insn: IrInsn, types: seq<Width>, clean: set<Reg>, live: set<Reg>, env: Env, raw: Raw)
    requires insn.CastTo? && Ready(insn, types, clean, live, env, raw)
    ensures var x, a := NativeCast(insn.cast, GetV(raw, Of(insn.operand))), ApplyCast(insn.cast, Get(env, insn.operand));
      Related(types, CleanWith(insn, clean), live + Given(insn.Dst()), env[insn.dst := a], raw[Of(insn.dst) := x])
  {
    Operand(types, clean, live, env, raw, insn.operand);
    var x, a := NativeCast(insn.cast, GetV(raw, Of(insn.operand))), ApplyCast(insn.cast, Get(env, insn.operand));
    NativeCasts(insn.cast, GetV(raw, Of(insn.operand)), Get(env, insn.operand));
    hide NativeCast, ApplyCast, Related;
    Define(insn, types, clean, live, env, raw, a, x);
  }

  lemma CallArgs(insn: IrInsn, types: seq<Width>, clean: set<Reg>, live: set<Reg>, env: Env, raw: Raw)
    requires insn.Call? && Ready(insn, types, clean, live, env, raw)
    ensures ArgsV(raw, LiftParams(insn.params), ParamWidths(types, insn.params)) == Args(env, insn.params)
  {
    var ps := insn.params;
    forall k | 0 <= k < |ps|
      ensures ArgsV(raw, LiftParams(ps), ParamWidths(types, ps))[k] == Args(env, ps)[k]
    {
      if ps[k].Some? {
        assert ps[k].value in Passed(ps);
        Operand(types, clean, live, env, raw, ps[k].value);
      }
    }
  }

  predicate IsNarrowAsr(insn: IrInsn) { insn.Binop? && insn.op == Asr && insn.width != I64 }

  lemma ExitStep<W>(h: Host<W>, ctx: nat, insn: IrInsn, types: seq<Width>, code: seq<XInsn>, clean: set<Reg>,
                    live: set<Reg>, env: Env, raw: Raw, w: W, garbage: nat)
    requires insn.Exit? && Ready(insn, types, clean, live, env, raw)
    ensures var x := XExit(Of(insn.target), Lift(insn.guard), IsConstant(code, Of(insn.target)));
      StepsAgree(StepIr(h, ctx, insn, env, w), StepX(h, ctx, x, raw, w, garbage), insn, types, clean, live)
  {
    Operand(types, clean, live, env, raw, insn.target);
    if insn.guard.Some? {
      Operand(types, clean, live, env, raw, insn.guard.value);
    }
  }

  lemma CallStep<W>(h: Host<W>, ctx: nat, insn: IrInsn, types: seq<Width>, clean: set<Reg>, live: set<Reg>,
                    env: Env, raw: Raw, w: W, garbage: nat)
    requires insn.Call? && Ready(insn, types, clean, live, env, raw) && Promised(h, ctx, insn, clean, env, w)
    ensures var x := XCall(Of(insn.address), LiftParams(insn.params), ParamWidths(types, insn.params), Lift(insn.result));
      StepsAgree(StepIr(h, ctx, insn, env, w), StepX(h, ctx, x, raw, w, garbage), insn, types, clean, live)
  {
    Operand(types, clean, live, env, raw, insn.address);
    CallArgs(insn, types, clean, live, env, raw);
    var (w', v) := h.call(w, Get(env, insn.address), ctx, Args(env, insn.params));
    LowOfWord(insn.width, v);
    hide Args, ArgsV;
    if insn.result.Some? {
      Define(insn, types, clean, live, env, raw, v % insn.width.Size(), Low(I64, v));
    }
  }

  lemma MemoryStep<W>(h: Host<W>, ctx: nat, insn: IrInsn, types: seq<Width>, used: set<Reg>, code: seq<XInsn>,
                      clean: set<Reg>, live: set<Reg>, env: Env, raw: Raw, w: W, garbage: nat)
    requires insn.Load? || insn.Store? || insn.Read? || insn.Write?
    requires Ready(insn, types, clean, live, env, raw) && garbage < W64 && (insn.Read? ==> insn.dst in used)
    ensures var block := LowerInsn(insn, types, used, code);
      |block| == 1 && StepsAgree(StepIr(h, ctx, insn, env, w), StepX(h, ctx, block[0], raw, w, garbage),
                                 insn, types, clean, live)
  {
    hide Related, Fetched;
    assert insn.Dst().None? ==> live + Given(insn.Dst()) == live;
    match insn
    case Load(wd, _, a) => FetchStep(insn, types, clean, live, env, raw, h.load(w, wd, Get(env, a)), garbage);
    case Store(_, s, _) => Operand(types, clean, live, env, raw, s);
    case Read(wd, _, o) => FetchStep(insn, types, clean, live, env, raw, h.read(w, wd, ctx, o), garbage);
    case Write(_, s, _) => Operand(types, clean, live, env, raw, s);
  }

  /** Instructions that become exactly one pseudo-instruction. */
  lemma SingleStep<W>(h: Host<W>, ctx: nat, insn: IrInsn, types: seq<Width>, used: set<Reg>, code: seq<XInsn>,
                      clean: set<Reg>, live: set<Reg>, env: Env, raw: Raw, w: W, garbage: nat)
    requires Ready(insn, types, clean, live, env, raw) && !IsNarrowAsr(insn) && garbage < W64
    requires Promised(h, ctx, insn, clean, env, w) && h.over == Shifted && (insn.Read? ==> insn.dst in used)
    ensures var block := LowerInsn(insn, types, used, code);
      |block| == 1 && StepsAgree(StepIr(h, ctx, insn, env, w), StepX(h, ctx, block[0], raw, w, garbage),
                                 insn, types, clean, live)
  {
    hide Related, NativeCast, ApplyCast, Native, Fetched, Shifted;
    assert insn.Marker? ==> live + Given(insn.Dst()) == live;
    match insn
    case MovConst(wd, d, v) => Define(insn, types, clean, live, env, raw, v % wd.Size(), v);
    case Binop(_, _, _, _, _) => BinopStep(h, ctx, insn, types, clean, live, env, raw, w, garbage);
    case Ite(_, _, _, _, _) => IteStep(insn, types, clean, live, env, raw);
    case CastTo(_, _, _) => CastStep(insn, types, clean, live, env, raw);
    case Exit(_, _) => ExitStep(h, ctx, insn, types, code, clean, live, env, raw, w, garbage);
    case Call(_, _, _, _) => CallStep(h, ctx, insn, types, clean, live, env, raw, w, garbage);
    case Marker(_) =>
    case _ => MemoryStep(h, ctx, insn, types, used, code, clean, live, env, raw, w, garbage);
  }

  /** The condition on upper bits is exact: where it fails, a comparison, shift or selection has another result,
      and an exit is taken that the IR does not take. */
  lemma ToleratedExactly<W>(h: Host<W>, ctx: nat, insn: IrInsn, types: seq<Width>, used: set<Reg>, code: seq<XInsn>,
                            clean: set<Reg>, live: set<Reg>, env: Env, raw: Raw, w: W, garbage: nat)
    requires Before(insn, types, clean, live, env, raw) && !IsNarrowAsr(insn) && garbage < W64
    requires insn.Binop? || insn.Ite? || insn.Exit?
    requires h.over == Shifted
    ensures var block := LowerInsn(insn, types, used, code);
      |block| == 1
      && (StepsAgree(StepIr(h, ctx, insn, env, w), StepX(h, ctx, block[0], raw, w, garbage), insn, types, clean, live)
          <==> Tolerates(insn, env, raw))
  {
    var block := LowerInsn(insn, types, used, code);
    var s, x := StepIr(h, ctx, insn, env, w), StepX(h, ctx, block[0], raw, w, garbage);
    if StepsAgree(s, x, insn, types, clean, live) {
      forall r | r in insn.Uses()
        ensures Holds(TypeOf(types, r), GetV(raw, Of(r)), Get(env, r))
      {
        Operand(types, clean, live, env, raw, r);
      }
      if s.Next? && insn.Dst().Some? {
        var d := insn.Dst().value;
        assert Agrees(types, CleanWith(insn, clean), s.env, x.raw, d);
        ResultTells(h, insn, types, env, raw, s.env[d], x.raw[Of(d)]);
      }
    }
    if Tolerates(insn, env, raw) {
      SingleStep(h, ctx, insn, types, used, code, clean, live, env, raw, w, garbage);
    }
  }

  /** From a right result to the condition on the operands. */
  lemma ResultTells<W>(h: Host<W>, insn: IrInsn, types: seq<Width>, env: Env, raw: Raw, a: nat, x: nat)
    requires (insn.Binop? && !IsNarrowAsr(insn)) || insn.Ite?
    requires Typed(insn, types) && h.over == Shifted && Low(insn.width, x) == a
    requires forall r :: r in insn.Uses() ==> Holds(TypeOf(types, r), GetV(raw, Of(r)), Get(env, r))
    requires insn.Binop? ==>
      && x == Native(insn.op, insn.width, GetV(raw, Of(insn.op1)), GetV(raw, Of(insn.op2)))
      && a == Result(h, insn.op, insn.width, Get(env, insn.op1), Get(env, insn.op2))
    requires insn.Ite? ==>
      && x == (if GetV(raw, Of(insn.pred)) != 0 then GetV(raw, Of(insn.trueOp)) else GetV(raw, Of(insn.falseOp)))
      && a == if Get(env, insn.pred) != 0 then Get(env, insn.trueOp) else Get(env, insn.falseOp)
    ensures Tolerates(insn, env, raw)
  {
    if insn.Binop? {
      var x1, x2 := GetV(raw, Of(insn.op1)), GetV(raw, Of(insn.op2));
      LowOfSmall(insn.width, x);
      NativeApplies(h, insn.op, insn.width, x1, x2, Get(env, insn.op1), Get(env, insn.op2));
      hide Native, Result, BroughtDown;
    }
  }

  /** A narrow arithmetic shift: sign extension through two temporaries, then the shift proper. */
  lemma NarrowAsr<W>(h: Host<W>, insn: IrInsn, types: seq<Width>, clean: set<Reg>, live: set<Reg>, env: Env, raw: Raw)
    requires IsNarrowAsr(insn) && Before(insn, types, clean, live, env, raw) && h.over == Shifted
    ensures Expanded(insn, raw) == Result(h, Asr, insn.width, Get(env, insn.op1), Get(env, insn.op2))
  {
    var wd := insn.width;
    Operand(types, clean, live, env, raw, insn.op1);
    Operand(types, clean, live, env, raw, insn.op2);
    ExtendedIs(insn, raw, Get(env, insn.op1));
    hide Shifted, AsSigned, Native, Result, Related, Extended, BroughtDown;
    ResultOnX86(h, Asr, wd, Get(env, insn.op1), Get(env, insn.op2));
    NativeAsr(wd, GetV(raw, Of(insn.op2)), Get(env, insn.op1), Get(env, insn.op2));
  }

  lemma ExtendedIs(insn: IrInsn, raw: Raw, a: nat)
    requires IsNarrowAsr(insn) && Holds(insn.width, GetV(raw, Of(insn.op1)), a)
    ensures Extended(insn, raw) == Low(I64, AsSigned(insn.width, a))
  {
    SignExtended(insn.width, GetV(raw, Of(insn.op1)), a);
    var n := 64 - insn.width.Bits();
    assert n % 64 == n;
    hide Shift, AsSigned, Holds;
  }

  /** The operand of a narrow arithmetic shift after its sign extension. */
  function Extended(insn: IrInsn, raw: Raw): nat
    requires IsNarrowAsr(insn)
  {
    var n := 64 - insn.width.Bits();
    Native(Asr, I64, Native(Shl, I64, GetV(raw, Of(insn.op1)), n), n)
  }

  /** The value that the expansion of a narrow arithmetic shift computes. */
  function Expanded(insn: IrInsn, raw: Raw): nat
    requires IsNarrowAsr(insn)
  {
    Native(Asr, insn.width, Extended(insn, raw), GetV(raw, Of(insn.op2)))
  }

  /** The temporaries and the destination of the expansion. */
  function RawAfterAsr(insn: IrInsn, raw: Raw): Raw
    requires IsNarrowAsr(insn)
  {
    var n := 64 - insn.width.Bits();
    var s := Native(Shl, I64, GetV(raw, Of(insn.op1)), n);
    raw[Temp(insn.dst, 0) := n][Temp(insn.dst, 1) := s][Temp(insn.dst, 2) := Extended(insn, raw)]
       [Of(insn.dst) := Expanded(insn, raw)]
  }

  // ---------------------------------------------------------------- runs

  /** The registers the simulation follows: defined by the first i instructions and read by some. */
  function Followed(ir: seq<IrInsn>, i: nat): set<Reg>
    requires i <= |ir|
  {
    Defs(ir, i) * UsedBy(ir, |ir|)
  }

  /** Instruction i is an exit whose target is known to be constant by then. */
  predicate IsPatchable(ir: seq<IrInsn>, types: seq<Width>, i: nat) {
    i < |ir| && ir[i].Exit? && IsConstant(LowerTo(ir, types, UsedBy(ir, |ir|), i), Of(ir[i].target))
  }

  /** Where the pseudo-instructions of instruction i start. */
  function PlaceOf(ir: seq<IrInsn>, types: seq<Width>, i: nat): nat
    requires i <= |ir|
  {
    |LowerTo(ir, types, UsedBy(ir, |ir|), i)|
  }

  /** The same value, world and exit. */
  ghost predicate SameOutcome<W>(ir: seq<IrInsn>, types: seq<Width>, o: Outcome<W>, x: XOutcome<W>) {
    match o
    case Exited(v, w, i) =>
      && x.XExited? && x.value == v && x.world == w
      && i < |ir| && x.exit == PlaceOf(ir, types, i) && x.patchable == IsPatchable(ir, types, i)
    case Ended(w) => x == XEnded(w)
  }

  ghost predicate Garbage(g: seq<nat>) { forall k :: 0 <= k < |g| ==> g[k] < W64 }

  lemma NextIr<W>(h: Host<W>, ctx: nat, ir: seq<IrInsn>, i: nat, env: Env, w: W, env': Env, w': W)
    requires i < |ir| && StepIr(h, ctx, ir[i], env, w) == Next(env', w')
    ensures RunIr(h, ctx, ir, i, env, w) == RunIr(h, ctx, ir, i + 1, env', w')
  {
  }

  lemma NextX<W>(h: Host<W>, ctx: nat, code: seq<XInsn>, k: nat, raw: Raw, w: W, g: seq<nat>, raw': Raw, w': W)
    requires k < |code| == |g| && Callable(code) && StepX(h, ctx, code[k], raw, w, g[k]) == XNext(raw', w')
    ensures RunX(h, ctx, code, k, raw, w, g) == RunX(h, ctx, code, k + 1, raw', w', g)
  {
  }

  lemma LeaveX<W>(h: Host<W>, ctx: nat, code: seq<XInsn>, k: nat, raw: Raw, w: W, g: seq<nat>)
    requires k < |code| == |g| && Callable(code)
    ensures var x := StepX(h, ctx, code[k], raw, w, g[k]);
      x.XLeave? ==> RunX(h, ctx, code, k, raw, w, g) == XExited(x.value, w, x.patchable, k)
  {
  }

  lemma LeavesAtExit<W>(h: Host<W>, ctx: nat, insn: XInsn, raw: Raw, w: W, garbage: nat)
    requires insn.XCall? ==> |insn.widths| == |insn.params|
    ensures var s := StepX(h, ctx, insn, raw, w, garbage);
      s.XLeave? ==> insn.XExit? && s.patchable == insn.patchable && s.value == GetV(raw, insn.target)
  {
  }

  /** An exit becomes an exit, patchable if its target is known to be constant. */
  lemma ExitIsPatchable(ir: seq<IrInsn>, types: seq<Width>, i: nat)
    requires i < |ir| && !IsDropped(ir[i], UsedBy(ir, |ir|)) && !IsNarrowAsr(ir[i])
    ensures var k := PlaceOf(ir, types, i);
      && k < |Lower(ir, types)|
      && (Lower(ir, types)[k].XExit? ==>
            ir[i].Exit? && Lower(ir, types)[k].patchable == IsPatchable(ir, types, i))
  {
    SingleAt(ir, types, i);
    hide LowerTo, UsedBy, IsConstant;
  }

  /** A read that nobody needs has no pseudo-instruction. */
  predicate IsDropped(insn: IrInsn, used: set<Reg>) { insn.Read? && insn.dst !in used }

  /** The pseudo-instruction of an instruction that has just one. */
  lemma SingleAt(ir: seq<IrInsn>, types: seq<Width>, i: nat)
    requires i < |ir| && !IsDropped(ir[i], UsedBy(ir, |ir|)) && !IsNarrowAsr(ir[i])
    ensures var used := UsedBy(ir, |ir|);
      var before, code := LowerTo(ir, types, used, i), Lower(ir, types);
      && |before| < |code| && [code[|before|]] == LowerInsn(ir[i], types, used, before) && Callable(code)
      && |LowerTo(ir, types, used, i + 1)| == |before| + 1
  {
    LowerAt(ir, types, UsedBy(ir, |ir|), i);
    LowerCallable(ir, types, UsedBy(ir, |ir|), |ir|);
    JustOne(ir[i], types, UsedBy(ir, |ir|), LowerTo(ir, types, UsedBy(ir, |ir|), i));
    hide LowerTo, UsedBy, LowerInsn, Callable, IsDropped, IsNarrowAsr;
  }

  lemma JustOne(insn: IrInsn, types: seq<Width>, used: set<Reg>, code: seq<XInsn>)
    requires !IsDropped(insn, used) && !IsNarrowAsr(insn)
    ensures |LowerInsn(insn, types, used, code)| == 1
  {
    hide IsConstant, LiftParams, ParamWidths;
  }

  /** The backend registers after instruction i, if the run goes on. */
  ghost function RawAfter<W>(h: Host<W>, ctx: nat, ir: seq<IrInsn>, types: seq<Width>, i: nat, raw: Raw, w: W, g: seq<nat>): Raw
    requires i < |ir| && |g| == |Lower(ir, types)|
  {
    var used, code := UsedBy(ir, |ir|), Lower(ir, types);
    if IsDropped(ir[i], used) then raw
    else if IsNarrowAsr(ir[i]) then RawAfterAsr(ir[i], raw)
    else
      SingleAt(ir, types, i);
      var k := |LowerTo(ir, types, used, i)|;
      match StepX(h, ctx, code[k], raw, w, g[k])
      case XNext(raw', _) => raw'
      case XLeave(_, _) => raw
  }

  /**
   The condition on a run: whenever an instruction reads a narrow operand as a whole register, it tolerates
   the upper bits that it finds there.
   */
  ghost predicate Tolerated<W>(h: Host<W>, ctx: nat, ir: seq<IrInsn>, types: seq<Width>, i: nat, env: Env, raw: Raw,
                               w: W, g: seq<nat>)
    requires i <= |ir| && |g| == |Lower(ir, types)|
    decreases |ir| - i
  {
    i < |ir| ==>
      && Tolerates(ir[i], env, raw)
      && var s := StepIr(h, ctx, ir[i], env, w);
         s.Next? ==>
           Tolerated(h, ctx, ir, types, i + 1, s.env, RawAfter(h, ctx, ir, types, i, raw, w, g), s.world, g)
  }

  /** The lowered code run from where the pseudo-instructions of the first i IR instructions end. */
  ghost function RunFrom<W>(h: Host<W>, ctx: nat, ir: seq<IrInsn>, types: seq<Width>, i: nat, raw: Raw, w: W, g: seq<nat>): XOutcome<W>
    requires i <= |ir| && |g| == |Lower(ir, types)|
  {
    LowerPrefix(ir, types, UsedBy(ir, |ir|), i, |ir|);
    LowerCallable(ir, types, UsedBy(ir, |ir|), |ir|);
    RunX(h, ctx, Lower(ir, types), |LowerTo(ir, types, UsedBy(ir, |ir|), i)|, raw, w, g)
  }

  /** Instruction i on both sides: the relation is kept while the runs go on, and they are left alike. */
  ghost predicate InStep<W>(h: Host<W>, ctx: nat, ir: seq<IrInsn>, types: seq<Width>, i: nat, clean: set<Reg>, env: Env,
                            raw: Raw, w: W, g: seq<nat>)
    requires i < |ir| && |g| == |Lower(ir, types)|
  {
    var x := RunFrom(h, ctx, ir, types, i, raw, w, g);
    match StepIr(h, ctx, ir[i], env, w)
    case Next(env', w') =>
      var raw' := RawAfter(h, ctx, ir, types, i, raw, w, g);
      && Related(types, CleanWith(ir[i], clean), Followed(ir, i + 1), env', raw')
      && x == RunFrom(h, ctx, ir, types, i + 1, raw', w', g)
    case Leave(v) => x == XExited(v, w, IsPatchable(ir, types, i), PlaceOf(ir, types, i))
  }

  lemma OneStep<W>(h: Host<W>, ctx: nat, ir: seq<IrInsn>, types: seq<Width>, i: nat, clean: set<Reg>, env: Env, raw: Raw,
                   w: W, g: seq<nat>)
    requires i < |ir| && Garbage(g) && |g| == |Lower(ir, types)| && h.over == Shifted
    requires Ready(ir[i], types, clean, Followed(ir, i), env, raw) && Promised(h, ctx, ir[i], clean, env, w)
    ensures InStep(h, ctx, ir, types, i, clean, env, raw, w, g)
  {
    hide *;
    if IsDropped(ir[i], UsedBy(ir, |ir|)) {
      DroppedRuns(h, ctx, ir, types, i, clean, env, raw, w, g);
    } else if IsNarrowAsr(ir[i]) {
      NarrowAsrRuns(h, ctx, ir, types, i, clean, env, raw, w, g);
    } else {
      SingleRuns(h, ctx, ir, types, i, clean, env, raw, w, g);
    }
  }

  lemma DroppedRuns<W>(h: Host<W>, ctx: nat, ir: seq<IrInsn>, types: seq<Width>, i: nat, clean: set<Reg>, env: Env, raw: Raw,
                       w: W, g: seq<nat>)
    requires i < |ir| && IsDropped(ir[i], UsedBy(ir, |ir|)) && |g| == |Lower(ir, types)|
    requires Ready(ir[i], types, clean, Followed(ir, i), env, raw)
    ensures InStep(h, ctx, ir, types, i, clean, env, raw, w, g)
  {
    var live, live' := Followed(ir, i), Followed(ir, i + 1);
    LowerAt(ir, types, UsedBy(ir, |ir|), i);
    var s := StepIr(h, ctx, ir[i], env, w);
    hide RunX, LowerTo;
    forall r | r in live'
      ensures Agrees(types, CleanWith(ir[i], clean), s.env, raw, r)
    {
      assert r in live && r != ir[i].dst;
      assert Agrees(types, clean, env, raw, r);
    }
  }

  lemma FewerFollowed(ir: seq<IrInsn>, i: nat)
    requires i < |ir|
    ensures Followed(ir, i + 1) <= Followed(ir, i) + Given(ir[i].Dst())
  {
  }

  lemma SingleRuns<W>(h: Host<W>, ctx: nat, ir: seq<IrInsn>, types: seq<Width>, i: nat, clean: set<Reg>, env: Env, raw: Raw,
                      w: W, g: seq<nat>)
    requires i < |ir| && Garbage(g) && |g| == |Lower(ir, types)| && h.over == Shifted
    requires !IsDropped(ir[i], UsedBy(ir, |ir|)) && !IsNarrowAsr(ir[i])
    requires Ready(ir[i], types, clean, Followed(ir, i), env, raw) && Promised(h, ctx, ir[i], clean, env, w)
    ensures InStep(h, ctx, ir, types, i, clean, env, raw, w, g)
  {
    var used, code := UsedBy(ir, |ir|), Lower(ir, types);
    var before := LowerTo(ir, types, used, i);
    var k := |before|;
    SingleAt(ir, types, i);
    FewerFollowed(ir, i);
    hide StepIr, StepX, LowerInsn, Ready, CleanWith, Agrees, Followed, LowerTo, UsedBy, Promised, Shifted, RunX;
    SingleStep(h, ctx, ir[i], types, used, before, clean, Followed(ir, i), env, raw, w, g[k]);
    var x := StepX(h, ctx, code[k], raw, w, g[k]);
    if x.XNext? {
      NextX(h, ctx, code, k, raw, w, g, x.raw, x.world);
    } else {
      LeaveX(h, ctx, code, k, raw, w, g);
      LeavesAtExit(h, ctx, code[k], raw, w, g[k]);
      ExitIsPatchable(ir, types, i);
    }
  }

  lemma NarrowAsrRuns<W>(h: Host<W>, ctx: nat, ir: seq<IrInsn>, types: seq<Width>, i: nat, clean: set<Reg>, env: Env,
                         raw: Raw, w: W, g: seq<nat>)
    requires i < |ir| && |g| == |Lower(ir, types)| && h.over == Shifted && IsNarrowAsr(ir[i])
    requires Ready(ir[i], types, clean, Followed(ir, i), env, raw)
    ensures InStep(h, ctx, ir, types, i, clean, env, raw, w, g)
  {
    var insn := ir[i];
    AsrRunsFrom(h, ctx, ir, types, i, raw, w, g);
    NarrowAsr(h, insn, types, clean, Followed(ir, i), env, raw);
    FewerFollowed(ir, i);
    var result := Expanded(insn, raw);
    ResultHolds(insn.width, result);
    AsrRelated(insn, types, clean, Followed(ir, i), env, raw);
    hide RunFrom, Result, Agrees, Followed, UsedBy, Ready, CleanWith, RawAfterAsr, Expanded, Shifted;
  }

  lemma AsrRelated(insn: IrInsn, types: seq<Width>, clean: set<Reg>, live: set<Reg>, env: Env, raw: Raw)
    requires IsNarrowAsr(insn) && Before(insn, types, clean, live, env, raw)
    ensures Related(types, CleanWith(insn, clean), live + Given(insn.Dst()), env[insn.dst := Expanded(insn, raw)],
                    RawAfterAsr(insn, raw))
  {
    var result, d := Expanded(insn, raw), insn.dst;
    var n := 64 - insn.width.Bits();
    var s := Native(Shl, I64, GetV(raw, Of(insn.op1)), n);
    var raw' := raw[Temp(d, 0) := n][Temp(d, 1) := s][Temp(d, 2) := Extended(insn, raw)];
    forall r | r in live
      ensures Agrees(types, clean, env, raw', r)
    {
      assert Agrees(types, clean, env, raw, r);
    }
    ResultHolds(insn.width, result);
    hide Native, Holds;
    Define(insn, types, clean, live, env, raw', result, result);
  }

  lemma AsrRunsFrom<W>(h: Host<W>, ctx: nat, ir: seq<IrInsn>, types: seq<Width>, i: nat, raw: Raw, w: W, g: seq<nat>)
    requires i < |ir| && |g| == |Lower(ir, types)| && IsNarrowAsr(ir[i])
    ensures RunFrom(h, ctx, ir, types, i, raw, w, g) == RunFrom(h, ctx, ir, types, i + 1, RawAfterAsr(ir[i], raw), w, g)
  {
    var used, code := UsedBy(ir, |ir|), Lower(ir, types);
    AsrBlock(ir, types, used, i);
    LowerCallable(ir, types, used, |ir|);
    hide RunX, Native, LowerTo, RawAfterAsr;
    FourSteps(h, ctx, code, |LowerTo(ir, types, used, i)|, ir[i], raw, w, g);
  }

  lemma AsrBlock(ir: seq<IrInsn>, types: seq<Width>, used: set<Reg>, i: nat)
    requires i < |ir| && IsNarrowAsr(ir[i])
    ensures var code, k, insn := LowerTo(ir, types, used, |ir|), |LowerTo(ir, types, used, i)|, ir[i];
      && k + 4 == |LowerTo(ir, types, used, i + 1)| <= |code|
      && code[k] == XMov(Temp(insn.dst, 0), 64 - insn.width.Bits())
      && code[k + 1] == XBinop(Shl, I64, Temp(insn.dst, 1), Of(insn.op1), Temp(insn.dst, 0))
      && code[k + 2] == XBinop(Asr, I64, Temp(insn.dst, 2), Temp(insn.dst, 1), Temp(insn.dst, 0))
      && code[k + 3] == XBinop(Asr, insn.width, Of(insn.dst), Temp(insn.dst, 2), Of(insn.op2))
  {
    LowerAt(ir, types, used, i);
    var block := LowerInsn(ir[i], types, used, LowerTo(ir, types, used, i));
    hide LowerTo;
    assert |block| == 4;
    var k := |LowerTo(ir, types, used, i)|;
    var code := LowerTo(ir, types, used, |ir|);
    assert code[k + 0] == block[0] && code[k + 1] == block[1] && code[k + 2] == block[2] && code[k + 3] == block[3];
  }

  lemma FourSteps<W>(h: Host<W>, ctx: nat, code: seq<XInsn>, k: nat, insn: IrInsn, raw: Raw, w: W, g: seq<nat>)
    requires IsNarrowAsr(insn) && k + 4 <= |code| == |g| && Callable(code)
    requires code[k] == XMov(Temp(insn.dst, 0), 64 - insn.width.Bits())
    requires code[k + 1] == XBinop(Shl, I64, Temp(insn.dst, 1), Of(insn.op1), Temp(insn.dst, 0))
    requires code[k + 2] == XBinop(Asr, I64, Temp(insn.dst, 2), Temp(insn.dst, 1), Temp(insn.dst, 0))
    requires code[k + 3] == XBinop(Asr, insn.width, Of(insn.dst), Temp(insn.dst, 2), Of(insn.op2))
    ensures RunX(h, ctx, code, k, raw, w, g) == RunX(h, ctx, code, k + 4, RawAfterAsr(insn, raw), w, g)
  {
    hide RunX, Native;
    var n := 64 - insn.width.Bits();
    var s := Native(Shl, I64, GetV(raw, Of(insn.op1)), n);
    var x := Native(Asr, I64, s, n);
    var d := insn.dst;
    var raw1 := raw[Temp(d, 0) := n];
    var raw2 := raw1[Temp(d, 1) := s];
    var raw3 := raw2[Temp(d, 2) := x];
    NextX(h, ctx, code, k, raw, w, g, raw1, w);
    NextX(h, ctx, code, k + 1, raw1, w, g, raw2, w);
    NextX(h, ctx, code, k + 2, raw2, w, g, raw3, w);
    NextX(h, ctx, code, k + 3, raw3, w, g, RawAfterAsr(insn, raw), w);
  }

  /** What holds before instruction i, if the relation does. */
  lemma BeforeAt(ir: seq<IrInsn>, types: seq<Width>, i: nat, clean: set<Reg>, env: Env, raw: Raw)
    requires i < |ir| && WellFormed(ir, types) && Related(types, clean, Followed(ir, i), env, raw)
    requires Given(ir[i].Dst()) !! clean || ir[i].Call?
    ensures Before(ir[i], types, clean, Followed(ir, i), env, raw)
  {
    UsesAreUsed(ir, i, |ir|);
    hide Typed, Agrees;
  }

  lemma NothingClean(types: seq<Width>, clean: set<Reg>, live: set<Reg>, env: Env, raw: Raw)
    requires Related(types, clean, live, env, raw)
    ensures Related(types, {}, live, env, raw)
  {
    forall r | r in live
      ensures Agrees(types, {}, env, raw, r)
    {
      assert Agrees(types, clean, env, raw, r);
    }
  }

  lemma EndOfCode<W>(h: Host<W>, ctx: nat, ir: seq<IrInsn>, types: seq<Width>, raw: Raw, w: W, g: seq<nat>)
    requires |g| == |Lower(ir, types)|
    ensures RunFrom(h, ctx, ir, types, |ir|, raw, w, g) == XEnded(w)
  {
  }

  lemma NoPromise<W>(h: Host<W>, ctx: nat, insn: IrInsn, env: Env, w: W)
    ensures Promised(h, ctx, insn, {}, env, w)
  {
  }

  /** The lowered code does what the IR does. */
  lemma {:induction false} LowerSimulates<W>(h: Host<W>, ctx: nat, ir: seq<IrInsn>, types: seq<Width>, i: nat,
                                             env: Env, raw: Raw, w: W, g: seq<nat>)
    requires i <= |ir| && WellFormed(ir, types) && Garbage(g) && |g| == |Lower(ir, types)| && h.over == Shifted
    requires Tolerated(h, ctx, ir, types, i, env, raw, w, g)
    requires Related(types, {}, Followed(ir, i), env, raw)
    ensures SameOutcome(ir, types, RunIr(h, ctx, ir, i, env, w), RunFrom(h, ctx, ir, types, i, raw, w, g))
    decreases |ir| - i
  {
    hide WellFormed, Related, Followed, Lower, UsedBy, StepIr, RunFrom, RawAfter, Garbage, Shifted, Tolerates;
    if i == |ir| {
      EndOfCode(h, ctx, ir, types, raw, w, g);
    } else {
      BeforeAt(ir, types, i, {}, env, raw);
      NoPromise(h, ctx, ir[i], env, w);
      OneStep(h, ctx, ir, types, i, {}, env, raw, w, g);
      var s := StepIr(h, ctx, ir[i], env, w);
      if s.Next? {
        var raw' := RawAfter(h, ctx, ir, types, i, raw, w, g);
        NothingClean(types, CleanWith(ir[i], {}), Followed(ir, i + 1), s.env, raw');
        LowerSimulates(h, ctx, ir, types, i + 1, s.env, raw', s.world, g);
      }
    }
  }

  /**
   For every run of well-formed IR in which the upper bits of narrow operands are tolerated, the
   pseudo-instructions have the outcome of the IR.
   */
  lemma LoweringIsCorrect<W>(h: Host<W>, ctx: nat, ir: seq<IrInsn>, types: seq<Width>, w: W, g: seq<nat>)
    requires WellFormed(ir, types) && |g| == |Lower(ir, types)| && Garbage(g) && h.over == Shifted
    requires Tolerated(h, ctx, ir, types, 0, map[], map[], w, g)
    ensures Callable(Lower(ir, types))
    ensures SameOutcome(ir, types, RunIr(h, ctx, ir, 0, map[], w), RunX(h, ctx, Lower(ir, types), 0, map[], w, g))
  {
    LowerCallable(ir, types, UsedBy(ir, |ir|), |ir|);
    LowerSimulates(h, ctx, ir, types, 0, map[], map[], w, g);
  }

  // ---------------------------------------------------------------- programs that are always fine

  lemma {:induction false} CleanAreDefined(ir: seq<IrInsn>, promised: set<Reg>, i: nat)
    requires i <= |ir|
    ensures CleanAfter(ir, promised, i) <= Defs(ir, i) + promised
  {
    if i > 0 {
      CleanAreDefined(ir, promised, i - 1);
    }
  }

  lemma SupportedAt<W>(h: Host<W>, ctx: nat, ir: seq<IrInsn>, types: seq<Width>, promised: set<Reg>, i: nat, env: Env, raw: Raw, w: W)
    requires i < |ir| && WellFormed(ir, types) && Supported(ir, promised)
    requires Related(types, CleanAfter(ir, promised, i), Followed(ir, i), env, raw)
    requires Promised(h, ctx, ir[i], promised, env, w)
    ensures Ready(ir[i], types, CleanAfter(ir, promised, i), Followed(ir, i), env, raw)
    ensures Promised(h, ctx, ir[i], CleanAfter(ir, promised, i), env, w)
  {
    var clean := CleanAfter(ir, promised, i);
    CleanAreDefined(ir, promised, i);
    assert Given(ir[i].Dst()) !! Defs(ir, i);
    assert NeedsClean(ir[i]) <= clean;
    hide NeedsClean, CleanAfter, Defs, Related, Tolerates, Get, Args;
    BeforeAt(ir, types, i, clean, env, raw);
    CleanIsTolerated(ir[i], types, clean, Followed(ir, i), env, raw);
  }

  /** Whatever the partly written registers held, the operands of a supported program are tolerated. */
  lemma {:induction false} SupportedIsTolerated<W>(h: Host<W>, ctx: nat, ir: seq<IrInsn>, types: seq<Width>, promised: set<Reg>,
                                                   i: nat, env: Env, raw: Raw, w: W, g: seq<nat>)
    requires i <= |ir| && WellFormed(ir, types) && Supported(ir, promised) && h.over == Shifted
    requires Garbage(g) && |g| == |Lower(ir, types)| && PromisesKept(h, ctx, ir, promised, i, env, w)
    requires Related(types, CleanAfter(ir, promised, i), Followed(ir, i), env, raw)
    ensures Tolerated(h, ctx, ir, types, i, env, raw, w, g)
    decreases |ir| - i
  {
    hide WellFormed, Supported, Related, Followed, Lower, UsedBy, StepIr, RunFrom, RawAfter, Garbage, Shifted, Tolerates,
      Promised, CleanWith;
    if i < |ir| {
      var clean := CleanAfter(ir, promised, i);
      SupportedAt(h, ctx, ir, types, promised, i, env, raw, w);
      OneStep(h, ctx, ir, types, i, clean, env, raw, w, g);
      var s := StepIr(h, ctx, ir[i], env, w);
      if s.Next? {
        assert CleanAfter(ir, promised, i + 1) == CleanWith(ir[i], clean);
        SupportedIsTolerated(h, ctx, ir, types, promised, i + 1, s.env, RawAfter(h, ctx, ir, types, i, raw, w, g), s.world, g);
      }
    }
  }
}
