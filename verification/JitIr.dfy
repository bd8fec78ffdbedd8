/** The intermediate representation of the jitter: its instructions, their typing and their meaning. */
module JitIr {
  import opened Wrappers
  import opened Arithmetic
  import opened Powers
  import opened Words

  datatype Width = I8 | I16 | I32 | I64 {
    function Bits(): nat {
      match this case I8 => 8 case I16 => 16 case I32 => 32 case I64 => 64
    }

    /** The number of values of this width. */
    function Size(): (n: nat)
      ensures n > 0
    {
      match this
      case I8 => 0x100
      case I16 => 0x1_0000
      case I32 => 0x1_0000_0000
      case I64 => 0x1_0000_0000_0000_0000
    }
  }

  lemma SizeIsPow2(w: Width)
    ensures Pow2(w.Bits()) == w.Size()
  {
    WordSizes();
    hide Pow2;
  }

  /** An IR register, named by the order of its allocation. */
  type Reg = nat

  datatype Op = Add | Sub | Xor | And | Or | Shl | Shr | Asr | Ror | CmpEq | CmpNe {
    predicate IsShift() { Shl? || Shr? || Asr? || Ror? }
  }

  /** irCastType: the unsigned and the signed extensions and the truncations. */
  datatype Cast = ZeroExtend(from: Width, to: Width) | SignExtend(from: Width, to: Width)
                | Truncate(from: Width, to: Width)
  {
    predicate Valid() {
      if Truncate? then to.Bits() < from.Bits() else from.Bits() < to.Bits()
    }
  }

  datatype IrInsn =
    | MovConst(width: Width, dst: Reg, literal: u64)
    | Load(width: Width, dst: Reg, address: Reg)
    | Store(width: Width, src: Reg, address: Reg)
    | Binop(op: Op, width: Width, dst: Reg, op1: Reg, op2: Reg)
    | Ite(width: Width, dst: Reg, pred: Reg, trueOp: Reg, falseOp: Reg)
    | CastTo(cast: Cast, dst: Reg, operand: Reg)
    | Exit(target: Reg, guard: Option<Reg>)
    | Call(address: Reg, params: seq<Option<Reg>>, width: Width, result: Option<Reg>)
    | Read(width: Width, dst: Reg, offset: int)
    | Write(width: Width, src: Reg, offset: int)
    | Marker(pc: nat)
  {
    /** The register that the instruction defines. */
    function Dst(): Option<Reg> {
      if MovConst? || Load? || Binop? || Ite? || CastTo? || Read? then Some(dst)
      else if Call? then result
      else None
    }

    function Uses(): set<Reg> {
      match this
      case Load(_, _, a) => {a}
      case Store(_, s, a) => {s, a}
      case Binop(_, _, _, a, b) => {a, b}
      case Ite(_, _, p, t, f) => {p, t, f}
      case CastTo(_, _, a) => {a}
      case Exit(t, g) => {t} + Given(g)
      case Call(a, ps, _, _) => {a} + Passed(ps)
      case Write(_, s, _) => {s}
      case _ => {}
    }
  }

  function Given(r: Option<Reg>): set<Reg> { if r.Some? then {r.value} else {} }

  function Passed(params: seq<Option<Reg>>): set<Reg> {
    set p | p in params && p.Some? :: p.value
  }

  // ---------------------------------------------------------------- typing

  function TypeOf(types: seq<Width>, r: Reg): Width { if r < |types| then types[r] else I64 }

  /** The assertions of the instruction builders. */
  predicate Typed(insn: IrInsn, types: seq<Width>) {
    match insn
    case MovConst(w, d, _) => TypeOf(types, d) == w
    case Load(w, d, _) => TypeOf(types, d) == w
    case Store(w, s, _) => TypeOf(types, s) == w
    case Binop(op, w, d, a, b) =>
      TypeOf(types, d) == w == TypeOf(types, a) && TypeOf(types, b) == if op.IsShift() then I8 else w
    case Ite(w, d, p, t, f) =>
      TypeOf(types, d) == w == TypeOf(types, p) && TypeOf(types, t) == w == TypeOf(types, f)
    case CastTo(c, d, a) => c.Valid() && TypeOf(types, d) == c.to && TypeOf(types, a) == c.from
    case Exit(t, _) => TypeOf(types, t) == I64
    case Call(_, ps, w, d) => |ps| == 4 && (d.Some? ==> TypeOf(types, d.value) == w)
    case Read(w, d, _) => TypeOf(types, d) == w
    case Write(w, s, _) => TypeOf(types, s) == w
    case Marker(_) => true
  }

  /** The registers that the first i instructions define. */
  function Defs(ir: seq<IrInsn>, i: nat): set<Reg>
    requires i <= |ir|
  {
    if i == 0 then {} else Defs(ir, i - 1) + Given(ir[i - 1].Dst())
  }

  /** Typed, in single assignment form, and with every use after its definition. */
  ghost predicate WellFormed(ir: seq<IrInsn>, types: seq<Width>) {
    forall i :: 0 <= i < |ir| ==>
      Typed(ir[i], types) && ir[i].Uses() <= Defs(ir, i) && Given(ir[i].Dst()) !! Defs(ir, i)
  }

  // ---------------------------------------------------------------- meaning

  function Bit(op: Op, x: nat, y: nat): nat
    requires x < 2 && y < 2
  {
    match op
    case And => x * y
    case Or => if x + y > 0 then 1 else 0
    case _ => if x == y then 0 else 1
  }

  /** A bitwise operation on the low n bits. */
  function Bitwise(op: Op, x: nat, y: nat, n: nat): nat {
    if n == 0 then 0 else 2 * Bitwise(op, x / 2, y / 2, n - 1) + Bit(op, x % 2, y % 2)
  }

  /** The integer that a register of this width stands for in two's complement. */
  function AsSigned(w: Width, a: nat): int {
    if 2 * a >= w.Size() then a - w.Size() else a
  }

  function Rest(a: nat, d: nat): nat
    requires d > 0
  {
    a % d
  }

  function Floored(x: int, d: nat): int
    requires d > 0
  {
    x / d
  }

  function Rotated(a: nat, count: nat, bits: nat): nat
    requires count <= bits
  {
    Quotient(a, Pow2(count)) + Rest(a, Pow2(count)) * Pow2(bits - count)
  }

  /** What an operation computes on values of its width; shift counts must be below the width. */
  function Apply(op: Op, w: Width, a: nat, b: nat): nat
    requires op.IsShift() ==> b < w.Bits()
  {
    match op
    case Add => (a + b) % w.Size()
    case Sub => (a - b) % w.Size()
    case Shl => (a * Pow2(b)) % w.Size()
    case Shr => Quotient(a, Pow2(b))
    case Asr => Floored(AsSigned(w, a), Pow2(b)) % w.Size()
    case Ror => Rotated(a, b, w.Bits())
    case CmpEq => if a == b then w.Size() - 1 else 0
    case CmpNe => if a != b then w.Size() - 1 else 0
    case _ => Bitwise(op, a, b, w.Bits())
  }

  function ApplyCast(c: Cast, a: nat): nat {
    if c.SignExtend? then AsSigned(c.from, a) % c.to.Size() else a % c.to.Size()
  }

  /**
   The world outside the translated code: memory, the guest context found at a base address, and helper
   functions.  A helper gets the context address and up to four arguments; it returns a 64-bit register
   and may leave anything in the caller-saved registers.  `over` gives the results of shifts by the width of
   the operand or more, which the IR leaves open.
   */
  datatype Host<!W> = Host(
    load: (W, Width, nat) -> nat,
    store: (W, Width, nat, nat) -> W,
    read: (W, Width, nat, int) -> nat,
    write: (W, Width, nat, int, nat) -> W,
    call: (W, nat, nat, seq<Option<nat>>) -> (W, nat),
    clobber: (W, nat) -> nat,
    over: (Op, Width, nat, nat) -> nat)

  type Env = map<Reg, nat>

  function Get(env: Env, r: Reg): nat { if r in env then env[r] else 0 }

  function Args(env: Env, params: seq<Option<Reg>>): (a: seq<Option<nat>>)
    ensures |a| == |params|
  {
    seq(|params|, k requires 0 <= k < |params| =>
      if params[k].None? then None else Some(Get(env, params[k].value)))
  }

  /** A run leaves through an exit, named by the index of its instruction, or comes to the end. */
  datatype Outcome<+W> = Exited(value: nat, world: W, exit: nat) | Ended(world: W)

  datatype Step<+W> = Next(env: Env, world: W) | Leave(value: nat)

  function Result<W>(h: Host<W>, op: Op, w: Width, a: nat, b: nat): nat {
    if op.IsShift() && b >= w.Bits() then h.over(op, w, a, b) % w.Size() else Apply(op, w, a, b)
  }

  /** One instruction. */
  function StepIr<W>(h: Host<W>, ctx: nat, insn: IrInsn, env: Env, w: W): Step<W> {
    match insn
    case MovConst(wd, d, v) => Next(env[d := v % wd.Size()], w)
    case Load(wd, d, a) => Next(env[d := h.load(w, wd, Get(env, a)) % wd.Size()], w)
    case Store(wd, s, a) => Next(env, h.store(w, wd, Get(env, a), Get(env, s)))
    case Binop(op, wd, d, a, b) => Next(env[d := Result(h, op, wd, Get(env, a), Get(env, b))], w)
    case Ite(_, d, p, t, f) => Next(env[d := if Get(env, p) != 0 then Get(env, t) else Get(env, f)], w)
    case CastTo(c, d, a) => Next(env[d := ApplyCast(c, Get(env, a))], w)
    case Exit(t, g) =>
      if g.Some? && Get(env, g.value) == 0 then Next(env, w) else Leave(Get(env, t))
    case Call(a, ps, wd, d) =>
      var (w', v) := h.call(w, Get(env, a), ctx, Args(env, ps));
      Next(if d.Some? then env[d.value := v % wd.Size()] else env, w')
    case Read(wd, d, o) => Next(env[d := h.read(w, wd, ctx, o) % wd.Size()], w)
    case Write(wd, s, o) => Next(env, h.write(w, wd, ctx, o, Get(env, s)))
    case Marker(_) => Next(env, w)
  }

  function RunIr<W>(h: Host<W>, ctx: nat, ir: seq<IrInsn>, i: nat, env: Env, w: W): Outcome<W>
    requires i <= |ir|
    decreases |ir| - i
  {
    if i == |ir| then Ended(w)
    else match StepIr(h, ctx, ir[i], env, w)
      case Next(env', w') => RunIr(h, ctx, ir, i + 1, env', w')
      case Leave(v) => Exited(v, w, i)
  }

  // ---------------------------------------------------------------- upper bits

  /**
   Does an instruction leave zeros above the width of its result, given the operands that have them?  The
   result of a narrow call has them if that has been promised.
   */
  predicate LeavesClean(insn: IrInsn, clean: set<Reg>) {
    match insn
    case MovConst(w, _, v) => v < w.Size()
    case Load(w, _, _) => w == I32 || w == I64
    case Read(w, _, _) => w == I32 || w == I64
    case Binop(_, _, _, _, _) => true
    case Ite(w, _, _, t, f) => w == I64 || {t, f} <= clean
    case CastTo(c, _, _) => !c.SignExtend? || c.to == I64
    case Call(_, _, w, d) => w == I64 || Given(d) <= clean
    case _ => false
  }

  function CleanWith(insn: IrInsn, clean: set<Reg>): set<Reg> {
    if LeavesClean(insn, clean) then clean + Given(insn.Dst()) else clean
  }

  /** The registers that are sure to have zeros above their width after i instructions, and those of the
      calls whose results are promised to have them. */
  function CleanAfter(ir: seq<IrInsn>, promised: set<Reg>, i: nat): set<Reg>
    requires i <= |ir|
  {
    if i == 0 then promised else CleanWith(ir[i - 1], CleanAfter(ir, promised, i - 1))
  }

  /** The operands that the code generator reads as whole registers though they may be narrower. */
  function NeedsClean(insn: IrInsn): set<Reg> {
    match insn
    case Load(_, _, a) => {a}
    case Store(_, _, a) => {a}
    case Binop(op, _, _, a, b) => if op == CmpEq || op == CmpNe then {a, b} else if op == Shr then {a} else {}
    case Ite(_, _, p, _, _) => {p}
    case Exit(t, g) => Given(g)
    case Call(a, _, _, _) => {a}
    case _ => {}
  }

  /** Only results of calls are promised, and every operand that is read as a whole register is sure to be clean. */
  ghost predicate Supported(ir: seq<IrInsn>, promised: set<Reg>) {
    forall i :: 0 <= i < |ir| ==>
      NeedsClean(ir[i]) <= CleanAfter(ir, promised, i) && (Given(ir[i].Dst()) !! promised || ir[i].Call?)
  }

  /** A call whose result is promised to be clean returns a value of its width. */
  ghost predicate Promised<W>(h: Host<W>, ctx: nat, insn: IrInsn, promised: set<Reg>, env: Env, w: W) {
    insn.Call? && insn.result.Some? && insn.result.value in promised ==>
      h.call(w, Get(env, insn.address), ctx, Args(env, insn.params)).1 < insn.width.Size()
  }

  /** Every call of a run keeps the promise. */
  ghost predicate PromisesKept<W>(h: Host<W>, ctx: nat, ir: seq<IrInsn>, promised: set<Reg>, i: nat, env: Env, w: W)
    requires i <= |ir|
    decreases |ir| - i
  {
    i < |ir| ==>
      && Promised(h, ctx, ir[i], promised, env, w)
      && var s := StepIr(h, ctx, ir[i], env, w);
         s.Next? ==> PromisesKept(h, ctx, ir, promised, i + 1, s.env, s.world)
  }
}
