/** The machine instructions that the x86_64 backend emits, their lengths and their effect. */
module JitMachine {
  import opened Wrappers
  import opened Words
  import opened JitIr
  import opened JitBits

  /** Register numbers as the processor has them; the allocator's slots are r8 to r15. */
  type Num = n: nat | n < 16

  const RAX: Num := 0
  const RCX: Num := 1
  const RDX: Num := 2
  const RSI: Num := 6
  const RDI: Num := 7
  const R8: Num := 8

  datatype Insn =
    | MovImm(r: Num, literal: u64)
    | Clear(r: Num)
    | Mov(r: Num, s: Num)
    | AluRR(op: Op, r: Num, s: Num)
    | ShiftCl(op: Op, r: Num)
    | ShiftImm(op: Op, r: Num, count: nat)
    | RorCl(width: Width, r: Num)
    | CmpRR(r: Num, s: Num)
    | CmpZero(r: Num)
    | Jump(onZero: bool, skip: nat)
    | CmovNz(r: Num, s: Num)
    | LoadMem(width: Width, r: Num, base: Num)
    | StoreMem(width: Width, s: Num, base: Num)
    | ReadCtx(width: Width, r: Num, offset: int)
    | WriteCtx(width: Width, s: Num, offset: int)
    | Push(r: Num)
    | Pop(r: Num)
    | CallRax(given: seq<Option<Width>>)
    | LeaNext(r: Num)
    | Ret
    | Nop
    | JmpRax
  {
    /** The number of bytes of the encoding. */
    function Length(): (n: nat)
      ensures 0 < n <= 10
    {
      match this
      case MovImm(_, _) => 10
      case ShiftImm(_, _, _) => 4
      case RorCl(w, _) => if w == I16 then 4 else 3
      case CmpZero(_) => 7
      case Jump(_, _) => 2
      case CmovNz(_, _) => 4
      case LoadMem(w, _, _) => if w == I16 then 9 else 8
      case StoreMem(w, _, _) => if w == I16 then 9 else 8
      case ReadCtx(w, _, _) => if w == I16 then 8 else 7
      case WriteCtx(w, _, _) => if w == I16 then 8 else 7
      case Push(_) => 2
      case Pop(_) => 2
      case LeaNext(_) => 7
      case Ret => 1
      case Nop => 1
      case JmpRax => 2
      case _ => 3
    }
  }

  /** The size of code in bytes. */
  function Bytes(block: seq<Insn>): nat {
    if block == [] then 0 else block[0].Length() + Bytes(block[1..])
  }

  type Regs = s: seq<u64> | |s| == 16 witness seq(16, _ => 0)

  datatype Machine<+W> = Machine(regs: Regs, stack: seq<u64>, zf: bool, world: W)

  function Put(regs: Regs, r: Num, v: int): Regs { regs[r := Low(I64, v)] }

  /** rsi, rdx, rcx and r8: section 3.2.3 of the System V AMD64 ABI, rdi being taken by the context. */
  function ArgRegister(k: nat): Num {
    if k == 0 then RSI else if k == 1 then RDX else if k == 2 then RCX else R8
  }

  function PassedArgs(regs: Regs, given: seq<Option<Width>>): (a: seq<Option<nat>>)
    ensures |a| == |given|
  {
    seq(|given|, k requires 0 <= k < |given| =>
      if given[k].None? then None else Some(Low(given[k].value, regs[ArgRegister(k)])))
  }

  predicate CallerSaved(r: Num) { r == RCX || r == RDX || r == RSI || r == RDI || 8 <= r <= 11 }

  /** A register after a helper returned v. */
  function RegisterAfterCall<W>(h: Host<W>, regs: Regs, w: W, v: nat, r: Num): u64 {
    if r == RAX then Low(I64, v) else if CallerSaved(r) then Low(I64, h.clobber(w, r)) else regs[r]
  }

  function AfterCall<W>(h: Host<W>, regs: Regs, w: W, v: nat): (after: Regs)
    ensures forall r: Num :: after[r] == RegisterAfterCall(h, regs, w, v, r)
  {
    var after: seq<u64> := seq(16, r requires 0 <= r < 16 => RegisterAfterCall(h, regs, w, v, r));
    after
  }

  /** The instructions that just go on to the next one. */
  function Exec<W>(h: Host<W>, insn: Insn, m: Machine<W>, next: nat): Machine<W> {
    match insn
    case MovImm(r, v) => m.(regs := Put(m.regs, r, v))
    case Clear(r) => m.(regs := Put(m.regs, r, 0), zf := true)
    case Mov(r, s) => m.(regs := Put(m.regs, r, m.regs[s]))
    case AluRR(op, r, s) => m.(regs := Put(m.regs, r, Alu(op, m.regs[r], m.regs[s])))
    case ShiftCl(op, r) => m.(regs := Put(m.regs, r, Shift(op, m.regs[r], m.regs[RCX] % 64)))
    case ShiftImm(op, r, n) => m.(regs := Put(m.regs, r, Shift(op, m.regs[r], n)))
    case RorCl(w, r) => m.(regs := Put(m.regs, r, RotateRight(w, m.regs[r], m.regs[RCX])))
    case CmpRR(r, s) => m.(zf := m.regs[r] == m.regs[s])
    case CmpZero(r) => m.(zf := m.regs[r] == 0)
    case CmovNz(r, s) => if m.zf then m else m.(regs := Put(m.regs, r, m.regs[s]))
    case LoadMem(w, r, b) =>
      m.(regs := Put(m.regs, r, Merge(w, m.regs[r], Low(w, h.load(m.world, w, m.regs[b])))))
    case StoreMem(w, s, b) => m.(world := h.store(m.world, w, m.regs[b], Low(w, m.regs[s])))
    case ReadCtx(w, r, o) =>
      m.(regs := Put(m.regs, r, Merge(w, m.regs[r], Low(w, h.read(m.world, w, m.regs[RDI], o)))))
    case WriteCtx(w, s, o) => m.(world := h.write(m.world, w, m.regs[RDI], o, Low(w, m.regs[s])))
    case Push(r) => m.(stack := [m.regs[r]] + m.stack)
    case Pop(r) => if m.stack == [] then m else m.(regs := Put(m.regs, r, m.stack[0]), stack := m.stack[1..])
    case CallRax(given) =>
      var (w', v) := h.call(m.world, m.regs[RAX], m.regs[RDI], PassedArgs(m.regs, given));
      m.(regs := AfterCall(h, m.regs, w', v), world := w')
    case LeaNext(r) => m.(regs := Put(m.regs, r, next))
    case _ => m
  }

  datatype MOutcome<+W> =
    | Returned(value: nat, link: nat, world: W)
    | Jumped(target: nat, world: W)
    | FellOff(final: Machine<W>)
    | Stuck

  /** Runs code; `tail` instructions follow it.  An address is the number of instructions up to the end. */
  function Run<W>(h: Host<W>, code: seq<Insn>, tail: nat, m: Machine<W>): MOutcome<W>
    decreases |code|
  {
    if code == [] then FellOff(m)
    else
      var rest := code[1..];
      match code[0]
      case Jump(onZero, skip) =>
        if m.zf != onZero then Run(h, rest, tail, m)
        else if skip <= |rest| then Run(h, rest[skip..], tail, m)
        else Stuck
      case Ret => Returned(m.regs[RAX], m.regs[RDX], m.world)
      case JmpRax => Jumped(m.regs[RAX], m.world)
      case insn => Run(h, rest, tail, Exec(h, insn, m, |rest| + tail))
  }

  /** Code that falls off its end goes on with what follows it. */
  lemma {:induction false} RunAppend<W>(h: Host<W>, a: seq<Insn>, b: seq<Insn>, tail: nat, m: Machine<W>)
    ensures var r := Run(h, a, |b| + tail, m);
      match r
      case FellOff(m') => Run(h, a + b, tail, m) == Run(h, b, tail, m')
      case Stuck => true
      case _ => Run(h, a + b, tail, m) == r
    decreases |a|
  {
    hide Exec;
    if a == [] {
      assert a + b == b;
    } else {
      var rest := a[1..];
      assert (a + b)[1..] == rest + b && (a + b)[0] == a[0];
      match a[0]
      case Jump(onZero, skip) =>
        if m.zf != onZero {
          RunAppend(h, rest, b, tail, m);
        } else if skip <= |rest| {
          assert (rest + b)[skip..] == rest[skip..] + b;
          RunAppend(h, rest[skip..], b, tail, m);
        }
      case Ret =>
      case JmpRax =>
      case insn =>
        RunAppend(h, rest, b, tail, Exec(h, insn, m, |rest| + |b| + tail));
    }
  }

  /** One step through an instruction that goes on to the next. */
  lemma RunStep<W>(h: Host<W>, insn: Insn, rest: seq<Insn>, tail: nat, m: Machine<W>)
    requires !insn.Jump? && !insn.Ret? && !insn.JmpRax?
    ensures Run(h, [insn] + rest, tail, m) == Run(h, rest, tail, Exec(h, insn, m, |rest| + tail))
  {
    assert ([insn] + rest)[1..] == rest;
  }

  /** The processor does not ask the host about shifts. */
  lemma {:induction false} ShiftsAreNative<W>(h: Host<W>, f: (Op, Width, nat, nat) -> nat, code: seq<Insn>, tail: nat, m: Machine<W>)
    ensures Run(h.(over := f), code, tail, m) == Run(h, code, tail, m)
    decreases |code|
  {
    hide Exec;
    if code != [] {
      var rest := code[1..];
      match code[0]
      case Jump(onZero, skip) =>
        ShiftsAreNative(h, f, rest, tail, m);
        if skip <= |rest| {
          ShiftsAreNative(h, f, rest[skip..], tail, m);
        }
      case Ret =>
      case JmpRax =>
      case insn =>
        SameStep(h, f, insn, m, |rest| + tail);
        ShiftsAreNative(h, f, rest, tail, Exec(h, insn, m, |rest| + tail));
    }
  }

  lemma SameStep<W>(h: Host<W>, f: (Op, Width, nat, nat) -> nat, insn: Insn, m: Machine<W>, next: nat)
    ensures Exec(h.(over := f), insn, m, next) == Exec(h, insn, m, next)
  {
    if insn.CallRax? {
      var (w', v) := h.call(m.world, m.regs[RAX], m.regs[RDI], PassedArgs(m.regs, insn.given));
      assert AfterCall(h.(over := f), m.regs, w', v) == AfterCall(h, m.regs, w', v);
    }
  }
}
