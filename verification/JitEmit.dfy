/** The code emitters: each pseudo-instruction becomes machine code that does the same on its slots. */
module JitEmit {
  import opened Wrappers
  import opened Words
  import opened JitIr
  import opened JitBits
  import opened JitLower
  import opened JitMachine

  /** The machine register of a slot: r8 to r15. */
  function R(slots: map<V, nat>, v: V): Num {
    if v in slots && slots[v] < 8 then R8 + slots[v] else R8
  }

  /** gen_mov_const_hlp: zero is made with xor. */
  function EmitConst(r: Num, literal: u64): seq<Insn> {
    if literal != 0 then [MovImm(r, literal)] else [Clear(r)]
  }

  /** gen_cmp: all ones, replaced by zero unless the comparison holds. */
  function EmitCmp(isEq: bool, d: Num, a: Num, b: Num): seq<Insn> {
    EmitConst(d, W64 - 1) + [CmpRR(b, a), Jump(isEq, 1)] + EmitConst(d, 0)
  }

  function EmitMask(width: Width, d: Num): seq<Insn> {
    if width == I64 then [] else [MovImm(RCX, width.Size() - 1), AluRR(And, d, RCX)]
  }

  /** gen_binop before the result is masked. */
  function EmitOperation(op: Op, width: Width, d: Num, a: Num, b: Num): seq<Insn> {
    match op
    case CmpEq => EmitCmp(true, d, a, b)
    case CmpNe => EmitCmp(false, d, a, b)
    case Shl => [Mov(RCX, b), Mov(d, a), ShiftCl(op, d)]
    case Shr => [Mov(RCX, b), Mov(d, a), ShiftCl(op, d)]
    case Asr => [Mov(RCX, b), Mov(d, a), ShiftCl(op, d)]
    case Ror => [Mov(RCX, b), Mov(d, a), RorCl(width, d)]
    case _ => [Mov(d, a), AluRR(op, d, b)]
  }

  function EmitCast(c: Cast, d: Num, a: Num): seq<Insn> {
    match c
    case SignExtend(from, _) => [Mov(d, a), ShiftImm(Shl, d, 64 - from.Bits()), ShiftImm(Asr, d, 64 - from.Bits())]
    case ZeroExtend(from, _) => EmitConst(d, from.Size() - 1) + [AluRR(And, d, a)]
    case Truncate(_, to) => EmitConst(d, to.Size() - 1) + [AluRR(And, d, a)]
  }

  /** The exit proper.  A patchable one is followed by the room for a jump to another block. */
  function EmitLeave(t: Num, patchable: bool): seq<Insn> {
    if patchable then [Mov(RAX, t), LeaNext(RDX), Ret, MovImm(RAX, 0), JmpRax, LeaNext(RDX)]
    else [Mov(RAX, t), Clear(RDX), Ret]
  }

  function EmitExit(t: Num, guard: Option<Num>, patchable: bool): seq<Insn> {
    var leave := EmitLeave(t, patchable);
    if guard.Some? then [CmpZero(guard.value), Jump(true, |leave|)] + leave else leave
  }

  const SAVED: seq<Num> := [7, 8, 9, 10, 11, 12]

  function Pushes(rs: seq<Num>): seq<Insn> {
    if rs == [] then [] else [Push(rs[0])] + Pushes(rs[1..])
  }

  function Pops(rs: seq<Num>): seq<Insn> {
    if rs == [] then [] else Pops(rs[1..]) + [Pop(rs[0])]
  }

  /** The argument registers are loaded in an order that leaves r8, which may hold an argument, for the last. */
  function EmitArgs(slots: map<V, nat>, params: seq<Option<V>>): seq<Insn>
    requires |params| == 4
  {
    (if params[2].Some? then [Mov(RCX, R(slots, params[2].value))] else [])
    + (if params[1].Some? then [Mov(RDX, R(slots, params[1].value))] else [])
    + (if params[0].Some? then [Mov(RSI, R(slots, params[0].value))] else [])
    + (if params[3].Some? then [Mov(R8, R(slots, params[3].value))] else [])
  }

  function Given4(params: seq<Option<V>>, widths: seq<Width>): (given: seq<Option<Width>>)
    requires |widths| == |params|
    ensures |given| == |params|
  {
    seq(|params|, k requires 0 <= k < |params| => if params[k].None? then None else Some(widths[k]))
  }

  function EmitCall(slots: map<V, nat>, address: V, params: seq<Option<V>>, widths: seq<Width>, result: Option<V>): seq<Insn>
    requires |params| == 4 == |widths|
  {
    Pushes(SAVED) + [Mov(RAX, R(slots, address))] + EmitArgs(slots, params) + [CallRax(Given4(params, widths))]
    + Pops(SAVED) + (if result.Some? then [Mov(R(slots, result.value), RAX)] else [])
  }

  predicate WellShaped(insn: XInsn) {
    && (insn.XCall? ==> |insn.params| == 4 == |insn.widths|)
    && (insn.XMov? ==> insn.literal < W64)
  }

  /** The code of a pseudo-instruction.  A marker has none: the code generator refuses it, and the search for
      the instruction at an offset only notes it. */
  function Emit(insn: XInsn, slots: map<V, nat>): seq<Insn>
    requires WellShaped(insn)
  {
    match insn
    case XMov(d, v) => EmitConst(R(slots, d), v)
    case XLoad(w, d, a) => [LoadMem(w, R(slots, d), R(slots, a))]
    case XStore(w, s, a) => [StoreMem(w, R(slots, s), R(slots, a))]
    case XBinop(op, w, d, a, b) =>
      EmitOperation(op, w, R(slots, d), R(slots, a), R(slots, b)) + EmitMask(w, R(slots, d))
    case XIte(d, p, t, f) => [Mov(R(slots, d), R(slots, f)), CmpZero(R(slots, p)), CmovNz(R(slots, d), R(slots, t))]
    case XCast(c, d, a) => EmitCast(c, R(slots, d), R(slots, a))
    case XExit(t, g, p) =>
      EmitExit(R(slots, t), if g.Some? then Some(R(slots, g.value)) else None, p)
    case XCall(a, ps, ws, d) => EmitCall(slots, a, ps, ws, d)
    case XRead(w, d, o) => [ReadCtx(w, R(slots, d), o)]
    case XWrite(w, s, o) => [WriteCtx(w, R(slots, s), o)]
    case XMarker(_) => []
  }

  // ---------------------------------------------------------------- straight-line code

  lemma Run1<W>(h: Host<W>, a: Insn, tail: nat, m: Machine<W>)
    requires !a.Jump? && !a.Ret? && !a.JmpRax?
    ensures Run(h, [a], tail, m) == FellOff(Exec(h, a, m, tail))
  {
    RunStep(h, a, [], tail, m);
    assert [a] + [] == [a];
  }

  lemma Run2<W>(h: Host<W>, a: Insn, b: Insn, tail: nat, m: Machine<W>)
    requires !a.Jump? && !a.Ret? && !a.JmpRax? && !b.Jump? && !b.Ret? && !b.JmpRax?
    ensures Run(h, [a, b], tail, m) == FellOff(Exec(h, b, Exec(h, a, m, 1 + tail), tail))
  {
    RunStep(h, a, [b], tail, m);
    assert [a] + [b] == [a, b];
    Run1(h, b, tail, Exec(h, a, m, 1 + tail));
  }

  lemma Run3<W>(h: Host<W>, a: Insn, b: Insn, c: Insn, tail: nat, m: Machine<W>)
    requires !a.Jump? && !a.Ret? && !a.JmpRax? && !b.Jump? && !b.Ret? && !b.JmpRax?
    requires !c.Jump? && !c.Ret? && !c.JmpRax?
    ensures Run(h, [a, b, c], tail, m) == FellOff(Exec(h, c, Exec(h, b, Exec(h, a, m, 2 + tail), 1 + tail), tail))
  {
    RunStep(h, a, [b, c], tail, m);
    assert [a] + [b, c] == [a, b, c];
    Run2(h, b, c, tail, Exec(h, a, m, 2 + tail));
  }

  // ---------------------------------------------------------------- what an emitter must do

  /** The machine after code that writes x to the register d and may use the scratch registers. */
  ghost predicate Wrote<W>(m: Machine<W>, m': Machine<W>, d: Num, x: nat) {
    && m'.world == m.world && m'.stack == m.stack && m'.regs[RDI] == m.regs[RDI]
    && m'.regs[d] == x
    && forall j: Num :: j >= 8 && j != d ==> m'.regs[j] == m.regs[j]
  }

  lemma MaskWrites<W>(h: Host<W>, width: Width, d: Num, x: int, tail: nat, m: Machine<W>, m0: Machine<W>)
    requires d >= 8 && Wrote(m0, m, d, Low(I64, x))
    ensures var r := Run(h, EmitMask(width, d), tail, m);
      r.FellOff? && Wrote(m0, r.final, d, Low(width, x))
  {
    if width != I64 {
      Run2(h, MovImm(RCX, width.Size() - 1), AluRR(And, d, RCX), tail, m);
      MaskedLow(width, Low(I64, x));
      LowOfWord(width, x);
      var mask: u64 := width.Size() - 1;
      LowOfSmall(I64, mask);
      LowOfSmall(I64, Low(width, x));
      hide Low, Bitwise;
    }
  }

  lemma OperationWrites<W>(h: Host<W>, op: Op, width: Width, d: Num, a: Num, b: Num, tail: nat, m: Machine<W>)
    requires d >= 8 && a >= 8 && b >= 8 && d != a && d != b
    ensures var r := Run(h, EmitOperation(op, width, d, a, b), tail, m);
      r.FellOff? && Wrote(m, r.final, d, Low(I64, Unmasked(op, width, m.regs[a], m.regs[b])))
  {
    hide Run, Wrote, Shift, RotateRight, Alu;
    match op
    case CmpEq => CmpWrites(h, true, d, a, b, tail, m);
    case CmpNe => CmpWrites(h, false, d, a, b, tail, m);
    case Shl => ShiftWrites(h, op, d, a, b, tail, m);
    case Shr => ShiftWrites(h, op, d, a, b, tail, m);
    case Asr => ShiftWrites(h, op, d, a, b, tail, m);
    case Ror => RorWrites(h, width, d, a, b, tail, m);
    case _ => AluWrites(h, op, d, a, b, tail, m);
  }

  lemma RorWrites<W>(h: Host<W>, width: Width, d: Num, a: Num, b: Num, tail: nat, m: Machine<W>)
    requires d >= 8 && a >= 8 && b >= 8 && d != a && d != b
    ensures var r := Run(h, [Mov(RCX, b), Mov(d, a), RorCl(width, d)], tail, m);
      r.FellOff? && Wrote(m, r.final, d, Low(I64, RotateRight(width, m.regs[a], m.regs[b])))
  {
    Run3(h, Mov(RCX, b), Mov(d, a), RorCl(width, d), tail, m);
    RegisterIsLow(m.regs[a]);
    RegisterIsLow(m.regs[b]);
    hide RotateRight, Low;
  }

  lemma AluWrites<W>(h: Host<W>, op: Op, d: Num, a: Num, b: Num, tail: nat, m: Machine<W>)
    requires d >= 8 && a >= 8 && b >= 8 && d != a && d != b
    ensures var r := Run(h, [Mov(d, a), AluRR(op, d, b)], tail, m);
      r.FellOff? && Wrote(m, r.final, d, Low(I64, Alu(op, m.regs[a], m.regs[b])))
  {
    Run2(h, Mov(d, a), AluRR(op, d, b), tail, m);
    RegisterIsLow(m.regs[a]);
    hide Alu, Low;
  }

  lemma RegisterIsLow(x: u64)
    ensures Low(I64, x) == x
  {
    LowOfSmall(I64, x);
  }

  lemma ShiftWrites<W>(h: Host<W>, op: Op, d: Num, a: Num, b: Num, tail: nat, m: Machine<W>)
    requires d >= 8 && a >= 8 && b >= 8 && d != a && d != b
    ensures var r := Run(h, [Mov(RCX, b), Mov(d, a), ShiftCl(op, d)], tail, m);
      r.FellOff? && Wrote(m, r.final, d, Low(I64, Shift(op, m.regs[a], m.regs[b] % 64)))
  {
    Run3(h, Mov(RCX, b), Mov(d, a), ShiftCl(op, d), tail, m);
    RegisterIsLow(m.regs[a]);
    RegisterIsLow(m.regs[b]);
    hide Shift, Low;
  }

  lemma ConstWrites<W>(h: Host<W>, d: Num, literal: u64, tail: nat, m: Machine<W>)
    requires d >= 8
    ensures var r := Run(h, EmitConst(d, literal), tail, m);
      r.FellOff? && Wrote(m, r.final, d, literal)
  {
    RegisterIsLow(literal);
    if literal != 0 {
      Run1(h, MovImm(d, literal), tail, m);
    } else {
      Run1(h, Clear(d), tail, m);
    }
  }

  /** The destination is set before the comparison, so it must not be one of the operands. */
  lemma CmpWrites<W>(h: Host<W>, isEq: bool, d: Num, a: Num, b: Num, tail: nat, m: Machine<W>)
    requires d >= 8 && a >= 8 && b >= 8 && d != a && d != b
    ensures var r := Run(h, EmitCmp(isEq, d, a, b), tail, m);
      r.FellOff? && Wrote(m, r.final, d, if (m.regs[a] == m.regs[b]) == isEq then W64 - 1 else 0)
  {
    RegisterIsLow(W64 - 1);
    RegisterIsLow(0);
    var ones, cmp, jump, zero := MovImm(d, W64 - 1), CmpRR(b, a), Jump(isEq, 1), Clear(d);
    assert EmitCmp(isEq, d, a, b) == [ones, cmp, jump, zero];
    RunStep(h, ones, [cmp, jump, zero], tail, m);
    assert [ones] + [cmp, jump, zero] == [ones, cmp, jump, zero];
    var m1 := Exec(h, ones, m, 3 + tail);
    RunStep(h, cmp, [jump, zero], tail, m1);
    assert [cmp] + [jump, zero] == [cmp, jump, zero];
    var m2 := Exec(h, cmp, m1, 2 + tail);
    assert [jump, zero][1..] == [zero] && [zero][1..] == [];
    Run1(h, zero, tail, m2);
  }

  /** Binary operations: the operation, then the mask. */
  lemma BinopWrites<W>(h: Host<W>, op: Op, width: Width, d: Num, a: Num, b: Num, tail: nat, m: Machine<W>)
    requires d >= 8 && a >= 8 && b >= 8 && d != a && d != b
    ensures var r := Run(h, EmitOperation(op, width, d, a, b) + EmitMask(width, d), tail, m);
      r.FellOff? && Wrote(m, r.final, d, Native(op, width, m.regs[a], m.regs[b]))
  {
    var body, mask := EmitOperation(op, width, d, a, b), EmitMask(width, d);
    var x := Unmasked(op, width, m.regs[a], m.regs[b]);
    OperationWrites(h, op, width, d, a, b, |mask| + tail, m);
    RunAppend(h, body, mask, tail, m);
    hide EmitOperation, EmitMask, Unmasked, Low, Wrote, Run;
    MaskWrites(h, width, d, x, tail, Run(h, body, |mask| + tail, m).final, m);
  }

  /** The copy of falseOp comes first, so the destination must not be the predicate or trueOp. */
  lemma IteWrites<W>(h: Host<W>, d: Num, p: Num, t: Num, f: Num, tail: nat, m: Machine<W>)
    requires d >= 8 && p >= 8 && t >= 8 && f >= 8 && d != p && d != t && d != f
    ensures var r := Run(h, [Mov(d, f), CmpZero(p), CmovNz(d, t)], tail, m);
      r.FellOff? && Wrote(m, r.final, d, if m.regs[p] != 0 then m.regs[t] else m.regs[f])
  {
    Run3(h, Mov(d, f), CmpZero(p), CmovNz(d, t), tail, m);
    RegisterIsLow(m.regs[t]);
    RegisterIsLow(m.regs[f]);
  }

  lemma MaskCastWrites<W>(h: Host<W>, w: Width, d: Num, a: Num, tail: nat, m: Machine<W>)
    requires d >= 8 && a >= 8 && d != a && w != I64
    ensures var r := Run(h, EmitConst(d, w.Size() - 1) + [AluRR(And, d, a)], tail, m);
      r.FellOff? && Wrote(m, r.final, d, Low(w, m.regs[a]))
  {
    var mask: u64 := w.Size() - 1;
    assert EmitConst(d, mask) + [AluRR(And, d, a)] == [MovImm(d, mask), AluRR(And, d, a)];
    Run2(h, MovImm(d, mask), AluRR(And, d, a), tail, m);
    RegisterIsLow(mask);
    AndCommutes(mask, m.regs[a], 64);
    MaskedLow(w, m.regs[a]);
    LowOfSmall(I64, Low(w, m.regs[a]));
    hide Low, Bitwise;
  }

  lemma {:induction false} AndCommutes(x: nat, y: nat, n: nat)
    ensures Bitwise(And, x, y, n) == Bitwise(And, y, x, n)
  {
    if n > 0 {
      AndCommutes(x / 2, y / 2, n - 1);
    }
  }

  lemma CastWrites<W>(h: Host<W>, c: Cast, d: Num, a: Num, tail: nat, m: Machine<W>)
    requires d >= 8 && a >= 8 && d != a && c.Valid()
    ensures var r := Run(h, EmitCast(c, d, a), tail, m);
      r.FellOff? && Wrote(m, r.final, d, NativeCast(c, m.regs[a]))
  {
    match c
    case SignExtend(from, _) =>
      var k := 64 - from.Bits();
      Run3(h, Mov(d, a), ShiftImm(Shl, d, k), ShiftImm(Asr, d, k), tail, m);
      RegisterIsLow(m.regs[a]);
      hide Shift, Low;
    case ZeroExtend(from, _) => MaskCastWrites(h, from, d, a, tail, m);
    case Truncate(_, to) => MaskCastWrites(h, to, d, a, tail, m);
  }

  lemma FetchWrites<W>(h: Host<W>, width: Width, d: Num, a: Num, offset: int, tail: nat, m: Machine<W>)
    requires d >= 8 && a >= 8 && d != a
    ensures var r := Run(h, [LoadMem(width, d, a)], tail, m);
      r.FellOff? && Wrote(m, r.final, d, Fetched(width, m.regs[d], h.load(m.world, width, m.regs[a])))
    ensures var r := Run(h, [ReadCtx(width, d, offset)], tail, m);
      r.FellOff? && Wrote(m, r.final, d, Fetched(width, m.regs[d], h.read(m.world, width, m.regs[RDI], offset)))
  {
    Run1(h, LoadMem(width, d, a), tail, m);
    Run1(h, ReadCtx(width, d, offset), tail, m);
    RegisterIsLow(Fetched(width, m.regs[d], h.load(m.world, width, m.regs[a])));
    RegisterIsLow(Fetched(width, m.regs[d], h.read(m.world, width, m.regs[RDI], offset)));
    hide Low, Merge;
  }

  // ---------------------------------------------------------------- exits

  /** An exit returns the value; rdx is zero unless the exit can be patched, and then the address of its ret. */
  lemma LeaveReturns<W>(h: Host<W>, t: Num, patchable: bool, tail: nat, m: Machine<W>)
    requires t >= 8 && tail < W64 - 10
    ensures Run(h, EmitLeave(t, patchable), tail, m)
         == Returned(m.regs[t], if patchable then 4 + tail else 0, m.world)
  {
    hide Run;
    if patchable {
      PatchableReturns(h, t, tail, m);
    } else {
      PlainReturns(h, t, tail, m);
    }
  }

  lemma PatchableReturns<W>(h: Host<W>, t: Num, tail: nat, m: Machine<W>)
    requires t >= 8 && tail < W64 - 10
    ensures Run(h, EmitLeave(t, true), tail, m) == Returned(m.regs[t], 4 + tail, m.world)
  {
    var rest := [Ret, MovImm(RAX, 0), JmpRax, LeaNext(RDX)];
    RegisterIsLow(m.regs[t]);
    RegisterIsLow(4 + tail);
    RunStep(h, Mov(RAX, t), [LeaNext(RDX)] + rest, tail, m);
    assert [Mov(RAX, t)] + ([LeaNext(RDX)] + rest) == EmitLeave(t, true);
    RunStep(h, LeaNext(RDX), rest, tail, Exec(h, Mov(RAX, t), m, 5 + tail));
    hide Run, Low;
    RetReturns(h, rest, tail, Exec(h, LeaNext(RDX), Exec(h, Mov(RAX, t), m, 5 + tail), 4 + tail));
  }

  lemma PlainReturns<W>(h: Host<W>, t: Num, tail: nat, m: Machine<W>)
    requires t >= 8
    ensures Run(h, EmitLeave(t, false), tail, m) == Returned(m.regs[t], 0, m.world)
  {
    RegisterIsLow(m.regs[t]);
    RegisterIsLow(0);
    RunStep(h, Mov(RAX, t), [Clear(RDX)] + [Ret], tail, m);
    assert [Mov(RAX, t)] + ([Clear(RDX)] + [Ret]) == EmitLeave(t, false);
    RunStep(h, Clear(RDX), [Ret], tail, Exec(h, Mov(RAX, t), m, 2 + tail));
    RetReturns(h, [Ret], tail, Exec(h, Clear(RDX), Exec(h, Mov(RAX, t), m, 2 + tail), 1 + tail));
    hide Run, Low;
  }

  lemma RetReturns<W>(h: Host<W>, code: seq<Insn>, tail: nat, m: Machine<W>)
    requires |code| > 0 && code[0] == Ret
    ensures Run(h, code, tail, m) == Returned(m.regs[RAX], m.regs[RDX], m.world)
  {
  }

  /** A guarded exit jumps over itself if its predicate is zero. */
  lemma ExitRuns<W>(h: Host<W>, t: Num, guard: Option<Num>, patchable: bool, tail: nat, m: Machine<W>)
    requires t >= 8 && (guard.Some? ==> guard.value >= 8) && tail < W64 - 10
    ensures var r := Run(h, EmitExit(t, guard, patchable), tail, m);
      if guard.Some? && m.regs[guard.value] == 0 then r == FellOff(m.(zf := true))
      else r == Returned(m.regs[t], if patchable then 4 + tail else 0, m.world)
  {
    hide EmitLeave, Run, Low;
    var leave := EmitLeave(t, patchable);
    if guard.None? {
      LeaveReturns(h, t, patchable, tail, m);
    } else {
      GuardRuns(h, guard.value, leave, tail, m);
      LeaveReturns(h, t, patchable, tail, m.(zf := m.regs[guard.value] == 0));
    }
  }

  lemma GuardRuns<W>(h: Host<W>, guard: Num, body: seq<Insn>, tail: nat, m: Machine<W>)
    ensures Run(h, [CmpZero(guard), Jump(true, |body|)] + body, tail, m)
         == if m.regs[guard] == 0 then FellOff(m.(zf := true)) else Run(h, body, tail, m.(zf := false))
  {
    var cmp, rest := CmpZero(guard), [Jump(true, |body|)] + body;
    assert [cmp, Jump(true, |body|)] + body == [cmp] + rest;
    RunStep(h, cmp, rest, tail, m);
    RunJump(h, true, body, tail, m.(zf := m.regs[guard] == 0));
  }

  lemma RunJump<W>(h: Host<W>, onZero: bool, body: seq<Insn>, tail: nat, m: Machine<W>)
    ensures Run(h, [Jump(onZero, |body|)] + body, tail, m)
         == if m.zf == onZero then FellOff(m) else Run(h, body, tail, m)
  {
    var code := [Jump(onZero, |body|)] + body;
    assert code[1..] == body && body[|body|..] == [];
  }

  // ---------------------------------------------------------------- calls

  /** What pushing the registers leaves on the stack, the last one first. */
  function Saved(regs: Regs, rs: seq<Num>): seq<u64> {
    if rs == [] then [] else Saved(regs, rs[1..]) + [regs[rs[0]]]
  }

  lemma {:induction false} PushesRun<W>(h: Host<W>, rs: seq<Num>, tail: nat, m: Machine<W>)
    ensures Run(h, Pushes(rs), tail, m) == FellOff(m.(stack := Saved(m.regs, rs) + m.stack))
    decreases |rs|
  {
    if rs == [] {
      assert Saved(m.regs, rs) + m.stack == m.stack;
    } else {
      var m1 := m.(stack := [m.regs[rs[0]]] + m.stack);
      RunStep(h, Push(rs[0]), Pushes(rs[1..]), tail, m);
      PushesRun(h, rs[1..], tail, m1);
      assert Saved(m.regs, rs[1..]) + m1.stack == Saved(m.regs, rs) + m.stack;
    }
  }

  /** The registers after popping: those among rs have their saved values again. */
  ghost predicate Restored(regs: Regs, was: Regs, saved: Regs, rs: seq<Num>) {
    forall r: Num :: regs[r] == if r in rs then saved[r] else was[r]
  }

  lemma {:induction false} PopsRun<W>(h: Host<W>, rs: seq<Num>, saved: Regs, stack: seq<u64>, tail: nat, m: Machine<W>)
    requires m.stack == Saved(saved, rs) + stack
    ensures var r := Run(h, Pops(rs), tail, m);
      && r.FellOff? && r.final.stack == stack && r.final.world == m.world
      && Restored(r.final.regs, m.regs, saved, rs)
    decreases |rs|
  {
    if rs == [] {
    } else {
      var pop := Pop(rs[0]);
      var stack1 := [saved[rs[0]]] + stack;
      assert m.stack == Saved(saved, rs[1..]) + stack1;
      PopsRun(h, rs[1..], saved, stack1, 1 + tail, m);
      RunAppend(h, Pops(rs[1..]), [pop], tail, m);
      var m1 := Run(h, Pops(rs[1..]), 1 + tail, m).final;
      Run1(h, pop, tail, m1);
      RegisterIsLow(saved[rs[0]]);
      assert m1.stack[1..] == stack;
      assert forall r: Num :: r in rs <==> r == rs[0] || r in rs[1..];
    }
  }

  function MoveArg(slots: map<V, nat>, param: Option<V>, r: Num): seq<Insn> {
    if param.Some? then [Mov(r, R(slots, param.value))] else []
  }

  lemma MoveArgRuns<W>(h: Host<W>, slots: map<V, nat>, param: Option<V>, r: Num, tail: nat, m: Machine<W>)
    ensures Run(h, MoveArg(slots, param, r), tail, m)
         == FellOff(if param.Some? then m.(regs := m.regs[r := m.regs[R(slots, param.value)]]) else m)
  {
    if param.Some? {
      Run1(h, Mov(r, R(slots, param.value)), tail, m);
      RegisterIsLow(m.regs[R(slots, param.value)]);
    }
  }

  /** The state when the helper is called: the arguments are where it expects them. */
  ghost predicate ArgsInPlace<W>(slots: map<V, nat>, params: seq<Option<V>>, m: Machine<W>, m': Machine<W>)
    requires |params| == 4
  {
    && m'.world == m.world && m'.stack == m.stack && m'.regs[RAX] == m.regs[RAX] && m'.regs[RDI] == m.regs[RDI]
    && (forall j: Num :: j >= 9 ==> m'.regs[j] == m.regs[j])
    && forall k :: 0 <= k < 4 && params[k].Some? ==> m'.regs[ArgRegister(k)] == m.regs[R(slots, params[k].value)]
  }

  lemma ArgsRun<W>(h: Host<W>, slots: map<V, nat>, params: seq<Option<V>>, tail: nat, m: Machine<W>)
    requires |params| == 4
    ensures var r := Run(h, EmitArgs(slots, params), tail, m);
      r.FellOff? && ArgsInPlace(slots, params, m, r.final)
  {
    var c2, c1 := MoveArg(slots, params[2], RCX), MoveArg(slots, params[1], RDX);
    var c0, c3 := MoveArg(slots, params[0], RSI), MoveArg(slots, params[3], R8);
    assert EmitArgs(slots, params) == c2 + (c1 + (c0 + (c3 + [])));
    hide *;
    var m1 := ArgMoved(h, slots, params[2], RCX, c1 + (c0 + (c3 + [])), tail, m);
    var m2 := ArgMoved(h, slots, params[1], RDX, c0 + (c3 + []), tail, m1);
    var m3 := ArgMoved(h, slots, params[0], RSI, c3 + [], tail, m2);
    var m4 := ArgMoved(h, slots, params[3], R8, [], tail, m3);
    RunNothing(h, tail, m4);
    AllArgsInPlace(slots, params, m, m1, m2, m3, m4);
  }

  lemma RunNothing<W>(h: Host<W>, tail: nat, m: Machine<W>)
    ensures Run(h, [], tail, m) == FellOff(m)
  {
  }

  lemma ArgMoved<W>(h: Host<W>, slots: map<V, nat>, param: Option<V>, r: Num, rest: seq<Insn>, tail: nat, m: Machine<W>)
    returns (m': Machine<W>)
    ensures Run(h, MoveArg(slots, param, r) + rest, tail, m) == Run(h, rest, tail, m')
    ensures m' == if param.Some? then m.(regs := m.regs[r := m.regs[R(slots, param.value)]]) else m
  {
    MoveArgRuns(h, slots, param, r, |rest| + tail, m);
    RunAppend(h, MoveArg(slots, param, r), rest, tail, m);
    m' := if param.Some? then m.(regs := m.regs[r := m.regs[R(slots, param.value)]]) else m;
    hide Run, MoveArg, R;
  }

  lemma AllArgsInPlace<W>(slots: map<V, nat>, params: seq<Option<V>>, m: Machine<W>, m1: Machine<W>, m2: Machine<W>,
                          m3: Machine<W>, m4: Machine<W>)
    requires |params| == 4
    requires m1 == if params[2].Some? then m.(regs := m.regs[RCX := m.regs[R(slots, params[2].value)]]) else m
    requires m2 == if params[1].Some? then m1.(regs := m1.regs[RDX := m1.regs[R(slots, params[1].value)]]) else m1
    requires m3 == if params[0].Some? then m2.(regs := m2.regs[RSI := m2.regs[R(slots, params[0].value)]]) else m2
    requires m4 == if params[3].Some? then m3.(regs := m3.regs[R8 := m3.regs[R(slots, params[3].value)]]) else m3
    ensures ArgsInPlace(slots, params, m, m4)
  {
    assert forall j: Num :: j >= 8 ==> m3.regs[j] == m.regs[j];
    assert m4.regs[RSI] == m3.regs[RSI] && m4.regs[RDX] == m3.regs[RDX] && m4.regs[RCX] == m3.regs[RCX];
  }

  lemma PassedAreArgs(slots: map<V, nat>, raw: Raw, params: seq<Option<V>>, widths: seq<Width>, regs: Regs)
    requires |params| == 4 == |widths|
    requires forall k :: 0 <= k < 4 && params[k].Some? ==> regs[ArgRegister(k)] == GetV(raw, params[k].value)
    ensures PassedArgs(regs, Given4(params, widths)) == ArgsV(raw, params, widths)
  {
  }

  /** Everything around the call proper keeps the slots, the context pointer and the stack. */
  lemma CallRuns<W>(h: Host<W>, slots: map<V, nat>, address: V, params: seq<Option<V>>, widths: seq<Width>,
                    result: Option<V>, raw: Raw, tail: nat, m: Machine<W>)
    requires |params| == 4 == |widths|
    requires m.regs[R(slots, address)] == GetV(raw, address)
    requires forall k :: 0 <= k < 4 && params[k].Some? ==> m.regs[R(slots, params[k].value)] == GetV(raw, params[k].value)
    ensures var r := Run(h, EmitCall(slots, address, params, widths, result), tail, m);
      var (w', v) := h.call(m.world, GetV(raw, address), m.regs[RDI], ArgsV(raw, params, widths));
      && r.FellOff?
      && (if result.Some? then Wrote(m.(world := w'), r.final, R(slots, result.value), Low(I64, v))
          else Kept(m.(world := w'), r.final))
  {
    var move := if result.Some? then [Mov(R(slots, result.value), RAX)] else [];
    hide Run, EmitCall, Pops, Wrote, Kept, Saved, Restored, AfterCall, R;
    var regs, m4 := UpToCall(h, slots, address, params, widths, result, raw, Pops(SAVED) + move, tail, m);
    var m5 := AfterPops(h, m.regs, m.stack, move, tail, m4);
    var (w', v) := h.call(m.world, GetV(raw, address), m.regs[RDI], ArgsV(raw, params, widths));
    SlotsRestored(h, m, regs, m5, w', v);
    ResultMoved(h, slots, result, tail, m5);
    var r := Run(h, move, tail, m5);
    WroteAfter(m.(world := w'), m5, r.final, if result.Some? then R(slots, result.value) else RAX, m5.regs[RAX]);
  }

  /** The code of a call up to the return from the helper; `rest` is what follows. */
  lemma UpToCall<W>(h: Host<W>, slots: map<V, nat>, address: V, params: seq<Option<V>>, widths: seq<Width>,
                    result: Option<V>, raw: Raw, rest: seq<Insn>, tail: nat, m: Machine<W>)
    returns (regs: Regs, m4: Machine<W>)
    requires |params| == 4 == |widths|
    requires rest == Pops(SAVED) + (if result.Some? then [Mov(R(slots, result.value), RAX)] else [])
    requires m.regs[R(slots, address)] == GetV(raw, address)
    requires forall k :: 0 <= k < 4 && params[k].Some? ==> m.regs[R(slots, params[k].value)] == GetV(raw, params[k].value)
    ensures Run(h, EmitCall(slots, address, params, widths, result), tail, m) == Run(h, rest, tail, m4)
    ensures var (w', v) := h.call(m.world, GetV(raw, address), m.regs[RDI], ArgsV(raw, params, widths));
      m4.world == w' && m4.regs == AfterCall(h, regs, w', v)
    ensures m4.stack == Saved(m.regs, SAVED) + m.stack
    ensures forall j: Num :: j >= 9 ==> regs[j] == m.regs[j]
  {
    var given := Given4(params, widths);
    var c1, c2, c3 := [Mov(RAX, R(slots, address))], EmitArgs(slots, params), [CallRax(given)];
    CallParts(slots, address, params, widths, result, rest);
    hide Run, EmitCall, EmitArgs, Pushes, Pops, Saved, AfterCall, PassedArgs, R;
    var m1 := AfterPushes(h, c1 + (c2 + (c3 + rest)), tail, m);
    var m2 := AddressMoved(h, slots, address, c2 + (c3 + rest), tail, m1);
    var m3 := ArgsMoved(h, slots, params, c3 + rest, tail, m2);
    SlotsAreHigh(slots);
    assert forall j: Num :: j >= 8 ==> m2.regs[j] == m.regs[j];
    PassedAreArgs(slots, raw, params, widths, m3.regs);
    regs := m3.regs;
    m4 := HelperCalled(h, given, rest, tail, m3);
  }

  lemma SlotsAreHigh(slots: map<V, nat>)
    ensures forall v :: R(slots, v) >= 8
  {
  }

  lemma CallParts(slots: map<V, nat>, address: V, params: seq<Option<V>>, widths: seq<Width>, result: Option<V>, rest: seq<Insn>)
    requires |params| == 4 == |widths|
    requires rest == Pops(SAVED) + (if result.Some? then [Mov(R(slots, result.value), RAX)] else [])
    ensures EmitCall(slots, address, params, widths, result)
         == Pushes(SAVED) + ([Mov(RAX, R(slots, address))] + (EmitArgs(slots, params) + ([CallRax(Given4(params, widths))] + rest)))
  {
    hide Pushes, Pops, EmitArgs;
  }

  lemma SlotsRestored<W>(h: Host<W>, m: Machine<W>, regs: Regs, m5: Machine<W>, w': W, v: nat)
    requires forall j: Num :: j >= 9 ==> regs[j] == m.regs[j]
    requires m5.stack == m.stack && m5.world == w'
    requires Restored(m5.regs, AfterCall(h, regs, w', v), m.regs, SAVED)
    ensures Kept(m.(world := w'), m5) && m5.regs[RAX] == Low(I64, v)
  {
    assert forall r: Num :: r in SAVED <==> 7 <= r <= 12;
  }

  lemma WroteAfter<W>(m: Machine<W>, m5: Machine<W>, m6: Machine<W>, d: Num, x: nat)
    requires Kept(m, m5)
    ensures Wrote(m5, m6, d, x) ==> Wrote(m, m6, d, x)
  {
  }

  /** The slots, the stack, the context pointer and the world stay. */
  ghost predicate Kept<W>(m: Machine<W>, m': Machine<W>) {
    && m'.world == m.world && m'.stack == m.stack && m'.regs[RDI] == m.regs[RDI]
    && forall j: Num :: j >= 8 ==> m'.regs[j] == m.regs[j]
  }

  lemma AfterPushes<W>(h: Host<W>, rest: seq<Insn>, tail: nat, m: Machine<W>) returns (m1: Machine<W>)
    ensures m1 == m.(stack := Saved(m.regs, SAVED) + m.stack)
    ensures Run(h, Pushes(SAVED) + rest, tail, m) == Run(h, rest, tail, m1)
  {
    hide Run, Pushes, Saved;
    m1 := m.(stack := Saved(m.regs, SAVED) + m.stack);
    PushesRun(h, SAVED, |rest| + tail, m);
    RunAppend(h, Pushes(SAVED), rest, tail, m);
  }

  lemma AddressMoved<W>(h: Host<W>, slots: map<V, nat>, address: V, rest: seq<Insn>, tail: nat, m: Machine<W>)
    returns (m2: Machine<W>)
    ensures m2 == m.(regs := m.regs[RAX := m.regs[R(slots, address)]])
    ensures Run(h, [Mov(RAX, R(slots, address))] + rest, tail, m) == Run(h, rest, tail, m2)
  {
    m2 := m.(regs := m.regs[RAX := m.regs[R(slots, address)]]);
    RegisterIsLow(m.regs[R(slots, address)]);
    RunStep(h, Mov(RAX, R(slots, address)), rest, tail, m);
    hide Run, R;
  }

  lemma ArgsMoved<W>(h: Host<W>, slots: map<V, nat>, params: seq<Option<V>>, rest: seq<Insn>, tail: nat, m: Machine<W>)
    returns (m3: Machine<W>)
    requires |params| == 4
    ensures ArgsInPlace(slots, params, m, m3)
    ensures Run(h, EmitArgs(slots, params) + rest, tail, m) == Run(h, rest, tail, m3)
  {
    hide Run, EmitArgs;
    ArgsRun(h, slots, params, |rest| + tail, m);
    RunAppend(h, EmitArgs(slots, params), rest, tail, m);
    m3 := Run(h, EmitArgs(slots, params), |rest| + tail, m).final;
  }

  lemma HelperCalled<W>(h: Host<W>, given: seq<Option<Width>>, rest: seq<Insn>, tail: nat, m: Machine<W>)
    returns (m4: Machine<W>)
    ensures var (w', v) := h.call(m.world, m.regs[RAX], m.regs[RDI], PassedArgs(m.regs, given));
      m4 == m.(regs := AfterCall(h, m.regs, w', v), world := w')
    ensures Run(h, [CallRax(given)] + rest, tail, m) == Run(h, rest, tail, m4)
  {
    m4 := Exec(h, CallRax(given), m, |rest| + tail);
    RunStep(h, CallRax(given), rest, tail, m);
    hide Run;
  }

  lemma AfterPops<W>(h: Host<W>, saved: Regs, stack: seq<u64>, rest: seq<Insn>, tail: nat, m: Machine<W>)
    returns (m5: Machine<W>)
    requires m.stack == Saved(saved, SAVED) + stack
    ensures m5.stack == stack && m5.world == m.world && Restored(m5.regs, m.regs, saved, SAVED)
    ensures Run(h, Pops(SAVED) + rest, tail, m) == Run(h, rest, tail, m5)
  {
    hide Run, Pops, Saved, Restored;
    PopsRun(h, SAVED, saved, stack, |rest| + tail, m);
    RunAppend(h, Pops(SAVED), rest, tail, m);
    m5 := Run(h, Pops(SAVED), |rest| + tail, m).final;
  }

  lemma ResultMoved<W>(h: Host<W>, slots: map<V, nat>, result: Option<V>, tail: nat, m: Machine<W>)
    ensures var move := if result.Some? then [Mov(R(slots, result.value), RAX)] else [];
      var r := Run(h, move, tail, m);
      r.FellOff? && (if result.Some? then Wrote(m, r.final, R(slots, result.value), m.regs[RAX]) else r.final == m)
  {
    if result.Some? {
      Run1(h, Mov(R(slots, result.value), RAX), tail, m);
      RegisterIsLow(m.regs[RAX]);
    }
  }

  // ---------------------------------------------------------------- one pseudo-instruction

  /** The allocator keeps the destination apart from the operands. */
  ghost predicate Apart(insn: XInsn, slots: map<V, nat>) {
    insn.Dst().Some? ==> forall u :: u in insn.Uses() ==> R(slots, u) != R(slots, insn.Dst().value)
  }

  ghost predicate OperandsMatch<W>(insn: XInsn, slots: map<V, nat>, raw: Raw, m: Machine<W>) {
    forall u :: u in insn.Uses() ==> m.regs[R(slots, u)] == GetV(raw, u)
  }

  function OldContents<W>(insn: XInsn, slots: map<V, nat>, m: Machine<W>): nat {
    if insn.Dst().Some? then m.regs[R(slots, insn.Dst().value)] else 0
  }

  predicate Sound(insn: XInsn) { WellShaped(insn) && (insn.XCast? ==> insn.cast.Valid()) }

  /** The outcome of the code of an instruction is what the instruction says. */
  ghost predicate Effect<W>(s: XStep<W>, insn: XInsn, slots: map<V, nat>, m: Machine<W>, tail: nat, r: MOutcome<W>) {
    match s
    case XNext(raw', w') =>
      && r.FellOff?
      && if insn.Dst().Some?
         then Wrote(m.(world := w'), r.final, R(slots, insn.Dst().value), GetV(raw', insn.Dst().value))
         else Kept(m.(world := w'), r.final)
    case XLeave(v, p) => r == Returned(v, if p then 4 + tail else 0, m.world)
  }

  /** Emitted code does on the slots what the pseudo-instruction does on its registers. */
  lemma EmitIsCorrect<W>(h: Host<W>, ctx: nat, insn: XInsn, slots: map<V, nat>, raw: Raw, tail: nat, m: Machine<W>)
    requires Sound(insn) && Apart(insn, slots) && OperandsMatch(insn, slots, raw, m)
    requires m.regs[RDI] == ctx && tail < W64 - 10
    ensures Effect(StepX(h, ctx, insn, raw, m.world, OldContents(insn, slots, m)), insn, slots, m, tail,
                   Run(h, Emit(insn, slots), tail, m))
  {
    SlotsAreHigh(slots);
    match insn
    case XMov(d, v) => ConstWrites(h, R(slots, d), v, tail, m);
    case XLoad(w, d, a) => FetchWrites(h, w, R(slots, d), R(slots, a), 0, tail, m);
    case XStore(w, s, a) => Run1(h, StoreMem(w, R(slots, s), R(slots, a)), tail, m);
    case XBinop(op, w, d, a, b) => BinopWrites(h, op, w, R(slots, d), R(slots, a), R(slots, b), tail, m);
    case XIte(d, p, t, f) => IteWrites(h, R(slots, d), R(slots, p), R(slots, t), R(slots, f), tail, m);
    case XCast(c, d, a) => CastWrites(h, c, R(slots, d), R(slots, a), tail, m);
    case XExit(t, g, p) => ExitIsCorrect(h, ctx, insn, slots, raw, tail, m);
    case XCall(a, ps, ws, d) => CallIsCorrect(h, ctx, insn, slots, raw, tail, m);
    case XRead(w, d, o) => ReadIsCorrect(h, ctx, insn, slots, raw, tail, m);
    case XWrite(w, s, o) => Run1(h, WriteCtx(w, R(slots, s), o), tail, m);
    case XMarker(_) =>
  }

  lemma ExitIsCorrect<W>(h: Host<W>, ctx: nat, insn: XInsn, slots: map<V, nat>, raw: Raw, tail: nat, m: Machine<W>)
    requires insn.XExit? && OperandsMatch(insn, slots, raw, m) && tail < W64 - 10
    ensures Effect(StepX(h, ctx, insn, raw, m.world, 0), insn, slots, m, tail, Run(h, Emit(insn, slots), tail, m))
  {
    SlotsAreHigh(slots);
    assert insn.target in insn.Uses();
    assert insn.guard.Some? ==> insn.guard.value in insn.Uses();
    var g := if insn.guard.Some? then Some(R(slots, insn.guard.value)) else None;
    ExitRuns(h, R(slots, insn.target), g, insn.patchable, tail, m);
    hide Run, EmitExit, R;
  }

  lemma CallIsCorrect<W>(h: Host<W>, ctx: nat, insn: XInsn, slots: map<V, nat>, raw: Raw, tail: nat, m: Machine<W>)
    requires insn.XCall? && Sound(insn) && OperandsMatch(insn, slots, raw, m) && m.regs[RDI] == ctx
    ensures Effect(StepX(h, ctx, insn, raw, m.world, OldContents(insn, slots, m)), insn, slots, m, tail,
                   Run(h, Emit(insn, slots), tail, m))
  {
    forall k | 0 <= k < 4 && insn.params[k].Some?
      ensures m.regs[R(slots, insn.params[k].value)] == GetV(raw, insn.params[k].value)
    {
      assert insn.params[k].value in PassedV(insn.params);
    }
    CallRuns(h, slots, insn.address, insn.params, insn.widths, insn.result, raw, tail, m);
    hide Run, EmitCall, R, Wrote, Kept;
  }

  lemma ReadIsCorrect<W>(h: Host<W>, ctx: nat, insn: XInsn, slots: map<V, nat>, raw: Raw, tail: nat, m: Machine<W>)
    requires insn.XRead? && m.regs[RDI] == ctx
    ensures Effect(StepX(h, ctx, insn, raw, m.world, OldContents(insn, slots, m)), insn, slots, m, tail,
                   Run(h, Emit(insn, slots), tail, m))
  {
    SlotsAreHigh(slots);
    var d := R(slots, insn.dst);
    FetchWrites(h, insn.width, d, if d == 8 then 9 else 8, insn.offset, tail, m);
  }
}
