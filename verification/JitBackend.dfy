/** The backend as it runs: registers whose fields are updated in place, and loops over the instructions. */
module JitBackend {
  import opened Wrappers
  import opened Words
  import opened JitIr
  import opened JitLower
  import opened JitAlloc
  import opened JitMachine
  import opened JitEmit
  import opened JitCompile

  /** struct x86Register; `index` is the order of creation until allocateRegisters makes it the slot. */
  datatype X86Register = X86Register(isConstant: bool, index: nat, firstWriteIndex: int, lastReadIndex: int)

  /** The fields of the registers after code: constant targets and last reads. */
  ghost predicate Describes(registers: map<V, X86Register>, code: seq<XInsn>) {
    && (forall v :: v in registers ==>
          registers[v].isConstant == IsConstant(code, v) && registers[v].lastReadIndex == LastRead(code, v, |code|))
    && (forall k :: 0 <= k < |code| ==> code[k].Uses() + GivenV(code[k].Dst()) <= registers.Keys)
  }

  /** Appending an instruction changes the constant mark of its target and the last reads of its operands. */
  ghost predicate Noted(before: map<V, X86Register>, after: map<V, X86Register>, insn: XInsn, n: nat) {
    && after.Keys == before.Keys && insn.Uses() + GivenV(insn.Dst()) <= before.Keys
    && forall v :: v in before ==>
         && after[v].lastReadIndex == (if v in insn.Uses() then n else before[v].lastReadIndex)
         && after[v].isConstant == (before[v].isConstant || (insn.XMov? && insn.dst == v))
  }

  lemma {:induction false} LastReadOfPrefix(code: seq<XInsn>, insn: XInsn, v: V, n: nat)
    requires n <= |code|
    ensures LastRead(code + [insn], v, n) == LastRead(code, v, n)
  {
    if n > 0 {
      LastReadOfPrefix(code, insn, v, n - 1);
      assert (code + [insn])[n - 1] == code[n - 1];
    }
  }

  lemma DescribesNext(before: map<V, X86Register>, after: map<V, X86Register>, code: seq<XInsn>, insn: XInsn)
    requires Describes(before, code) && Noted(before, after, insn, |code|)
    ensures Describes(after, code + [insn])
  {
    var longer := code + [insn];
    forall v | v in after
      ensures after[v].isConstant == IsConstant(longer, v) && after[v].lastReadIndex == LastRead(longer, v, |longer|)
    {
      ConstantNext(code, insn, v);
      LastReadOfPrefix(code, insn, v, |code|);
      assert longer[|code|] == insn;
    }
    forall k | 0 <= k < |longer|
      ensures longer[k].Uses() + GivenV(longer[k].Dst()) <= after.Keys
    {
      if k < |code| {
        assert longer[k] == code[k];
      }
    }
  }

  /** A fresh register is neither constant nor read. */
  lemma DescribesFresh(registers: map<V, X86Register>, code: seq<XInsn>, v: V, r: X86Register)
    requires Describes(registers, code) && v !in registers && !r.isConstant && r.lastReadIndex == -1
    ensures Describes(registers[v := r], code)
  {
    LastReadIsLast(code, v, |code|);
    assert LastRead(code, v, |code|) == -1;
    assert !IsConstant(code, v);
  }

  lemma PassedNext(params: seq<Option<V>>, i: nat)
    requires i < |params|
    ensures PassedV(params[..i + 1]) == PassedV(params[..i]) + GivenV(params[i])
    ensures GivenV(params[i]) <= PassedV(params)
  {
    assert params[..i + 1] == params[..i] + [params[i]];
  }

  // ---------------------------------------------------------------- helpers for the loops

  /** The operands in the order in which allocateRegisters frees their slots. */
  function Operands(insn: XInsn): seq<V> {
    match insn
    case XLoad(_, _, a) => [a]
    case XStore(_, s, a) => [a, s]
    case XBinop(_, _, _, a, b) => [a, b]
    case XIte(_, p, t, f) => [p, t, f]
    case XCast(_, _, a) => [a]
    case XExit(t, g, _) => if g.Some? then [t, g.value] else [t]
    case XCall(a, ps, _, _) => [a] + Present(ps)
    case XWrite(_, s, _) => [s]
    case _ => []
  }

  function Present(params: seq<Option<V>>): seq<V> {
    if params == [] then []
    else (if params[0].Some? then [params[0].value] else []) + Present(params[1..])
  }

  lemma {:induction false} PresentArePassed(params: seq<Option<V>>, v: V)
    ensures v in Present(params) <==> v in PassedV(params)
  {
    if params != [] {
      PresentArePassed(params[1..], v);
      assert params == [params[0]] + params[1..];
      assert v in PassedV(params) <==> v in GivenV(params[0]) || v in PassedV(params[1..]);
    }
  }

  lemma OperandsAreUses(insn: XInsn, v: V)
    ensures v in Operands(insn) <==> v in insn.Uses()
  {
    if insn.XCall? {
      PresentArePassed(insn.params, v);
    }
  }

  /** The set of the first n elements. */
  function Elements(vs: seq<V>, n: nat): set<V>
    requires n <= |vs|
  {
    set k | 0 <= k < n :: vs[k]
  }

  lemma AllElements(insn: XInsn)
    ensures Elements(Operands(insn), |Operands(insn)|) == insn.Uses()
  {
    forall v
      ensures v in Elements(Operands(insn), |Operands(insn)|) <==> v in insn.Uses()
    {
      OperandsAreUses(insn, v);
    }
  }

  /** Freeing the slot of one more operand. */
  lemma ReleaseNext(free: seq<bool>, slot: map<V, nat>, vs: seq<V>, n: nat, code: seq<XInsn>, i: nat)
    requires n < |vs| && vs[n] in slot && slot[vs[n]] < |free|
    ensures var before, v := Release(free, slot, Elements(vs, n), code, i), vs[n];
      Release(free, slot, Elements(vs, n + 1), code, i)
      == if LastRead(code, v, |code|) == i then before[slot[v] := true] else before
  {
    assert Elements(vs, n + 1) == Elements(vs, n) + {vs[n]};
    hide LastRead, Elements;
    var before := Release(free, slot, Elements(vs, n), code, i);
    var after := Release(free, slot, Elements(vs, n + 1), code, i);
    forall j | 0 <= j < |free|
      ensures after[j] <==> before[j] || (LastRead(code, vs[n], |code|) == i && slot[vs[n]] == j)
    {
    }
  }

  lemma ReleaseNothing(free: seq<bool>, slot: map<V, nat>, vs: seq<V>, code: seq<XInsn>, i: nat)
    ensures Release(free, slot, Elements(vs, 0), code, i) == free
  {
    assert Elements(vs, 0) == {};
  }

  /** Emitted code only depends on the slots of the registers of the instruction. */
  lemma EmitDepends(insn: XInsn, s: map<V, nat>, t: map<V, nat>)
    requires WellShaped(insn) && forall v :: v in insn.Uses() + GivenV(insn.Dst()) ==> R(s, v) == R(t, v)
    ensures Emit(insn, s) == Emit(insn, t)
  {
    match insn
    case XCall(a, ps, ws, d) => CallDepends(insn, s, t);
    case XExit(v, g, p) =>
      assert v in insn.Uses() && (g.Some? ==> g.value in insn.Uses());
    case _ =>
      hide EmitConst, EmitOperation, EmitMask, EmitCast, R;
  }

  lemma CallDepends(insn: XInsn, s: map<V, nat>, t: map<V, nat>)
    requires insn.XCall? && WellShaped(insn)
    requires forall v :: v in insn.Uses() + GivenV(insn.Dst()) ==> R(s, v) == R(t, v)
    ensures Emit(insn, s) == Emit(insn, t)
  {
    forall k | 0 <= k < 4 && insn.params[k].Some?
      ensures R(s, insn.params[k].value) == R(t, insn.params[k].value)
    {
      assert insn.params[k].value in PassedV(insn.params);
    }
    assert insn.address in insn.Uses();
    hide R, Pushes, Pops;
  }

  lemma {:induction false} CodeDepends(code: seq<XInsn>, s: map<V, nat>, t: map<V, nat>, k: nat)
    requires k <= |code| && AllSound(code)
    requires forall j, v :: k <= j < |code| && v in code[j].Uses() + GivenV(code[j].Dst()) ==> R(s, v) == R(t, v)
    ensures CodeFrom(code, s, k) == CodeFrom(code, t, k)
    decreases |code| - k
  {
    if k < |code| {
      EmitDepends(code[k], s, t);
      hide Emit, R, XInsn.Uses, XInsn.Dst;
      CodeDepends(code, s, t, k + 1);
    }
  }

  class Inter {
    var registers: map<V, X86Register>
    var instructions: seq<XInsn>
    var regIndex: nat

    ghost predicate Valid()
      reads this
    {
      regIndex == |registers| && Describes(registers, instructions)
    }

    constructor ()
      ensures Valid() && instructions == []
    {
      registers, instructions, regIndex := map[], [], 0;
    }

    /** allocateRegister: the register of an IR register is made when it is first met. */
    method AllocateRegister(v: V)
      requires Valid()
      modifies this`registers, this`regIndex
      ensures Valid() && registers.Keys == old(registers.Keys) + {v}
    {
      if v !in registers {
        var r := X86Register(false, regIndex, |instructions|, -1);
        DescribesFresh(registers, instructions, v, r);
        registers := registers[v := r];
        regIndex := regIndex + 1;
      }
    }

    /** Notes that the next instruction reads v. */
    method Read(v: V)
      requires v in registers
      modifies this`registers
      ensures registers == old(registers)[v := old(registers[v]).(lastReadIndex := |instructions|)]
    {
      registers := registers[v := registers[v].(lastReadIndex := |instructions|)];
    }

    /** The end of every add_ function: the instruction is stored and the index goes up. */
    method Store(insn: XInsn, ghost before: map<V, X86Register>)
      requires Describes(before, instructions) && regIndex == |before|
      requires Noted(before, registers, insn, |instructions|)
      modifies this`instructions
      ensures Valid() && instructions == old(instructions) + [insn]
    {
      DescribesNext(before, registers, instructions, insn);
      assert |registers.Keys| == |before.Keys|;
      instructions := instructions + [insn];
    }

    method AddMovConst(dst: V, value: u64)
      requires Valid() && dst in registers
      modifies this
      ensures Valid() && instructions == old(instructions) + [XMov(dst, value)]
      ensures registers.Keys == old(registers.Keys)
    {
      hide Describes;
      ghost var before := registers;
      registers := registers[dst := registers[dst].(isConstant := true)];
      Store(XMov(dst, value), before);
    }

    method AddLoad(width: Width, dst: V, address: V)
      requires Valid() && {dst, address} <= registers.Keys
      modifies this
      ensures Valid() && instructions == old(instructions) + [XLoad(width, dst, address)]
      ensures registers.Keys == old(registers.Keys)
    {
      hide Describes;
      ghost var before := registers;
      Read(address);
      Store(XLoad(width, dst, address), before);
    }

    method AddStore(width: Width, src: V, address: V)
      requires Valid() && {src, address} <= registers.Keys
      modifies this
      ensures Valid() && instructions == old(instructions) + [XStore(width, src, address)]
      ensures registers.Keys == old(registers.Keys)
    {
      hide Describes;
      ghost var before := registers;
      Read(address);
      Read(src);
      Store(XStore(width, src, address), before);
    }

    /** add_exit: whether the exit can be patched is decided by the constant mark at this moment. */
    method AddExit(value: V, pred: Option<V>)
      requires Valid() && {value} + GivenV(pred) <= registers.Keys
      modifies this
      ensures Valid()
      ensures instructions == old(instructions) + [XExit(value, pred, IsConstant(old(instructions), value))]
      ensures registers.Keys == old(registers.Keys)
    {
      ghost var before := registers;
      var patchable := registers[value].isConstant;
      Read(value);
      if pred.Some? {
        Read(pred.value);
      }
      Store(XExit(value, pred, patchable), before);
    }

    method AddBinop(op: Op, width: Width, dst: V, op1: V, op2: V)
      requires Valid() && {dst, op1, op2} <= registers.Keys
      modifies this
      ensures Valid() && instructions == old(instructions) + [XBinop(op, width, dst, op1, op2)]
      ensures registers.Keys == old(registers.Keys)
    {
      hide Describes;
      ghost var before := registers;
      Read(op1);
      Read(op2);
      Store(XBinop(op, width, dst, op1, op2), before);
    }

    method AddIte(dst: V, pred: V, trueOp: V, falseOp: V)
      requires Valid() && {dst, pred, trueOp, falseOp} <= registers.Keys
      modifies this
      ensures Valid() && instructions == old(instructions) + [XIte(dst, pred, trueOp, falseOp)]
      ensures registers.Keys == old(registers.Keys)
    {
      hide Describes;
      ghost var before := registers;
      Read(pred);
      Read(trueOp);
      Read(falseOp);
      Store(XIte(dst, pred, trueOp, falseOp), before);
    }

    method AddCast(cast: Cast, dst: V, op: V)
      requires Valid() && {dst, op} <= registers.Keys
      modifies this
      ensures Valid() && instructions == old(instructions) + [XCast(cast, dst, op)]
      ensures registers.Keys == old(registers.Keys)
    {
      hide Describes;
      ghost var before := registers;
      Read(op);
      Store(XCast(cast, dst, op), before);
    }

    method ReadParams(params: seq<Option<V>>)
      requires PassedV(params) <= registers.Keys
      modifies this`registers
      ensures registers.Keys == old(registers.Keys)
      ensures forall v :: v in registers ==>
        registers[v] == if v in PassedV(params) then old(registers[v]).(lastReadIndex := |instructions|) else old(registers[v])
    {
      for i := 0 to |params|
        invariant registers.Keys == old(registers.Keys)
        invariant forall v :: v in registers ==>
          registers[v] == if v in PassedV(params[..i]) then old(registers[v]).(lastReadIndex := |instructions|) else old(registers[v])
      {
        PassedNext(params, i);
        if params[i].Some? {
          Read(params[i].value);
        }
      }
      assert params[..|params|] == params;
    }

    method AddCall(address: V, params: seq<Option<V>>, widths: seq<Width>, result: Option<V>)
      requires Valid() && {address} + PassedV(params) + GivenV(result) <= registers.Keys
      modifies this
      ensures Valid() && instructions == old(instructions) + [XCall(address, params, widths, result)]
      ensures registers.Keys == old(registers.Keys)
    {
      hide Describes;
      ghost var before := registers;
      Read(address);
      ReadParams(params);
      Store(XCall(address, params, widths, result), before);
    }

    method AddRead(width: Width, dst: V, offset: int)
      requires Valid() && dst in registers
      modifies this
      ensures Valid() && instructions == old(instructions) + [XRead(width, dst, offset)]
      ensures registers.Keys == old(registers.Keys)
    {
      Store(XRead(width, dst, offset), registers);
    }

    method AddWrite(width: Width, src: V, offset: int)
      requires Valid() && src in registers
      modifies this
      ensures Valid() && instructions == old(instructions) + [XWrite(width, src, offset)]
      ensures registers.Keys == old(registers.Keys)
    {
      hide Describes;
      ghost var before := registers;
      Read(src);
      Store(XWrite(width, src, offset), before);
    }

    method AddMarker(pc: nat)
      requires Valid()
      modifies this
      ensures Valid() && instructions == old(instructions) + [XMarker(pc)]
      ensures registers.Keys == old(registers.Keys)
    {
      Store(XMarker(pc), registers);
    }

    /** The registers of an optional operand. */
    method AllocateOption(r: Option<Reg>) returns (v: Option<V>)
      requires Valid()
      modifies this`registers, this`regIndex
      ensures Valid() && v == Lift(r) && GivenV(v) <= registers.Keys && old(registers.Keys) <= registers.Keys
    {
      v := Lift(r);
      if r.Some? {
        AllocateRegister(Of(r.value));
      }
    }

    method AllocateParams(params: seq<Option<Reg>>) returns (ps: seq<Option<V>>)
      requires Valid()
      modifies this`registers, this`regIndex
      ensures Valid() && ps == LiftParams(params) && PassedV(ps) <= registers.Keys && old(registers.Keys) <= registers.Keys
    {
      ps := [];
      while |ps| < |params|
        invariant Valid() && |ps| <= |params| && ps == LiftParams(params[..|ps|])
        invariant PassedV(ps) <= registers.Keys && old(registers.Keys) <= registers.Keys
      {
        var p := AllocateOption(params[|ps|]);
        assert params[..|ps| + 1] == params[..|ps|] + [params[|ps|]];
        assert (ps + [p])[..|ps|] == ps;
        PassedNext(ps + [p], |ps|);
        ps := ps + [p];
      }
      assert params[..|params|] == params;
    }

    /** The sign extension in front of a narrow arithmetic shift. */
    method LowerSignExtension(bits: nat, dst: Reg, op1: V) returns (extended: V)
      requires Valid() && op1 in registers && bits <= 64
      modifies this
      ensures Valid() && extended == Temp(dst, 2)
      ensures registers.Keys == old(registers.Keys) + {Temp(dst, 0), Temp(dst, 1), Temp(dst, 2)}
      ensures instructions == old(instructions)
        + [XMov(Temp(dst, 0), 64 - bits)] + [XBinop(Shl, I64, Temp(dst, 1), op1, Temp(dst, 0))]
        + [XBinop(Asr, I64, Temp(dst, 2), Temp(dst, 1), Temp(dst, 0))]
    {
      hide Describes;
      var shiftValue, shiftLeftResult := Temp(dst, 0), Temp(dst, 1);
      extended := Temp(dst, 2);
      AllocateRegister(shiftValue);
      AddMovConst(shiftValue, 64 - bits);
      AllocateRegister(shiftLeftResult);
      AddBinop(Shl, I64, shiftLeftResult, op1, shiftValue);
      AllocateRegister(extended);
      AddBinop(Asr, I64, extended, shiftLeftResult, shiftValue);
    }

    method LowerBinop(insn: IrInsn, types: seq<Width>, ghost used: set<Reg>)
      requires Valid() && insn.Binop?
      modifies this
      ensures Valid()
      ensures instructions == old(instructions) + LowerInsn(insn, types, used, old(instructions))
    {
      hide Describes, IsConstant;
      var d, a, b := Of(insn.dst), Of(insn.op1), Of(insn.op2);
      AllocateRegister(d);
      AllocateRegister(a);
      AllocateRegister(b);
      if insn.op == Asr && insn.width != I64 {
        a := LowerSignExtension(insn.width.Bits(), insn.dst, a);
      }
      AddBinop(insn.op, insn.width, d, a, b);
    }

    /** Moves, loads, stores and context accesses; `isRead` is lastReadIndex != -1 for the destination. */
    method LowerMemory(insn: IrInsn, types: seq<Width>, isRead: bool, ghost used: set<Reg>)
      requires Valid() && (insn.Read? ==> (isRead <==> insn.dst in used))
      requires insn.MovConst? || insn.Load? || insn.Store? || insn.Read? || insn.Write?
      modifies this
      ensures Valid()
      ensures instructions == old(instructions) + LowerInsn(insn, types, used, old(instructions))
    {
      hide Describes, IsConstant;
      match insn
      case MovConst(_, d, v) =>
        AllocateRegister(Of(d));
        AddMovConst(Of(d), v);
      case Load(w, d, a) =>
        AllocateRegister(Of(d));
        AllocateRegister(Of(a));
        AddLoad(w, Of(d), Of(a));
      case Store(w, s, a) =>
        AllocateRegister(Of(s));
        AllocateRegister(Of(a));
        AddStore(w, Of(s), Of(a));
      case Read(w, d, o) =>
        if isRead {
          AllocateRegister(Of(d));
          AddRead(w, Of(d), o);
        }
      case Write(w, s, o) =>
        AllocateRegister(Of(s));
        AddWrite(w, Of(s), o);
    }

    method LowerCall(insn: IrInsn, types: seq<Width>, ghost used: set<Reg>)
      requires Valid() && insn.Call?
      modifies this
      ensures Valid()
      ensures instructions == old(instructions) + LowerInsn(insn, types, used, old(instructions))
    {
      hide Describes, IsConstant, LiftParams, ParamWidths;
      var params := AllocateParams(insn.params);
      var result := AllocateOption(insn.result);
      AllocateRegister(Of(insn.address));
      AddCall(Of(insn.address), params, ParamWidths(types, insn.params), result);
    }

    method LowerSelect(insn: IrInsn, types: seq<Width>, ghost used: set<Reg>)
      requires Valid() && (insn.Ite? || insn.CastTo?)
      modifies this
      ensures Valid()
      ensures instructions == old(instructions) + LowerInsn(insn, types, used, old(instructions))
    {
      hide Describes, IsConstant;
      match insn
      case Ite(_, d, p, t, f) =>
        AllocateRegister(Of(d));
        AllocateRegister(Of(p));
        AllocateRegister(Of(t));
        AllocateRegister(Of(f));
        AddIte(Of(d), Of(p), Of(t), Of(f));
      case CastTo(c, d, a) =>
        AllocateRegister(Of(d));
        AllocateRegister(Of(a));
        AddCast(c, Of(d), Of(a));
    }

    method LowerExit(insn: IrInsn, types: seq<Width>, ghost used: set<Reg>)
      requires Valid() && (insn.Exit? || insn.Marker?)
      modifies this
      ensures Valid()
      ensures instructions == old(instructions) + LowerInsn(insn, types, used, old(instructions))
    {
      hide Describes, IsConstant;
      match insn
      case Exit(t, g) =>
        AllocateRegister(Of(t));
        var pred := AllocateOption(g);
        AddExit(Of(t), pred);
      case Marker(pc) =>
        AddMarker(pc);
    }

    /** One iteration of allocateInstructions. */
    method LowerOne(insn: IrInsn, types: seq<Width>, isRead: bool, ghost used: set<Reg>)
      requires Valid() && (insn.Read? ==> (isRead <==> insn.dst in used))
      modifies this
      ensures Valid()
      ensures instructions == old(instructions) + LowerInsn(insn, types, used, old(instructions))
    {
      hide LowerInsn, Describes;
      if insn.Binop? {
        LowerBinop(insn, types, used);
      } else if insn.Call? {
        LowerCall(insn, types, used);
      } else if insn.Ite? || insn.CastTo? {
        LowerSelect(insn, types, used);
      } else if insn.Exit? || insn.Marker? {
        LowerExit(insn, types, used);
      } else {
        LowerMemory(insn, types, isRead, used);
      }
    }

    /** allocateInstructions, given the lastReadIndex of every IR register. */
    method AllocateInstructions(ir: seq<IrInsn>, types: seq<Width>, irLastRead: seq<int>)
      requires Valid() && instructions == []
      requires forall i :: 0 <= i < |ir| && ir[i].Read? ==>
        ir[i].dst < |irLastRead| && (irLastRead[ir[i].dst] != -1 <==> ir[i].dst in UsedBy(ir, |ir|))
      modifies this
      ensures Valid() && instructions == Lower(ir, types)
    {
      hide LowerInsn, Describes;
      for i := 0 to |ir|
        invariant Valid() && instructions == LowerTo(ir, types, UsedBy(ir, |ir|), i)
      {
        var isRead := ir[i].Read? && irLastRead[ir[i].dst] != -1;
        LowerOne(ir[i], types, isRead, UsedBy(ir, |ir|));
      }
    }

    // ------------------------------------------------------------- slots

    /** getFreeRegRaw; 8 stands for the failed assertion at its end. */
    method GetFreeRegRaw(freeRegList: array<bool>) returns (i: nat)
      modifies freeRegList
      ensures i == FirstFree(old(freeRegList[..]), 0) <= freeRegList.Length
      ensures freeRegList[..] == if i < freeRegList.Length then old(freeRegList[..])[i := false] else old(freeRegList[..])
    {
      i := 0;
      while i < freeRegList.Length
        invariant 0 <= i <= freeRegList.Length && freeRegList[..] == old(freeRegList[..])
        invariant FirstFree(old(freeRegList[..]), 0) == FirstFree(old(freeRegList[..]), i)
      {
        if freeRegList[i] {
          freeRegList[i] := false;
          return;
        }
        i := i + 1;
      }
    }

    /** Frees the slots of the operands that instruction i reads for the last time. */
    method ReleaseOperands(freeRegList: array<bool>, insn: XInsn, i: nat, ghost slot: map<V, nat>)
      requires Valid() && insn.Uses() <= registers.Keys
      requires forall v :: v in insn.Uses() ==> v in slot && registers[v].index == slot[v] < freeRegList.Length
      modifies freeRegList
      ensures freeRegList[..] == Release(old(freeRegList[..]), slot, insn.Uses(), instructions, i)
    {
      hide Release, Elements;
      ghost var start := freeRegList[..];
      var vs := Operands(insn);
      ReleaseNothing(start, slot, vs, instructions, i);
      for n := 0 to |vs|
        invariant freeRegList[..] == Release(start, slot, Elements(vs, n), instructions, i)
      {
        OperandsAreUses(insn, vs[n]);
        ReleaseNext(start, slot, vs, n, instructions, i);
        if registers[vs[n]].lastReadIndex == i {
          freeRegList[registers[vs[n]].index] := true;
        }
      }
      AllElements(insn);
    }

    /** The slots that the index fields stand for. */
    ghost predicate HaveSlots(slot: map<V, nat>)
      reads this
    {
      forall v :: v in slot ==> v in registers && registers[v].index == slot[v]
    }

    /** getFreeReg: the index field becomes the slot; a register that is never read frees it at once. */
    method GetFreeReg(freeRegList: array<bool>, v: V, ghost a: Allocation) returns (ok: bool)
      requires Valid() && v in registers && a.Allocation? && freeRegList[..] == a.free && HaveSlots(a.slot) && v !in a.slot
      modifies this`registers, freeRegList
      ensures Valid() && registers.Keys == old(registers.Keys)
      ensures var b := TakeSlot(a, v, LastRead(instructions, v, |instructions|));
        && (ok <==> b.Allocation?)
        && (ok ==> freeRegList[..] == b.free && HaveSlots(b.slot))
    {
      hide Describes;
      var i := GetFreeRegRaw(freeRegList);
      if i == freeRegList.Length {
        return false;
      }
      IndexIsFree(registers, instructions, v, i);
      registers := registers[v := registers[v].(index := i)];
      if registers[v].lastReadIndex == -1 {
        freeRegList[i] := true;
      }
      return true;
    }

    /** allocateRegisters; false stands for the failed assertion when no slot is free. */
    method AllocateRegisters() returns (ok: bool)
      requires Valid() && SingleAssignment(instructions)
      modifies this`registers
      ensures Valid() && (ok <==> Allocate(instructions).Allocation?)
      ensures ok ==> HaveSlots(Allocate(instructions).slot)
    {
      hide Describes, AllocateInsn, Release, TakeSlot, SingleAssignment;
      var freeRegList := new bool[SLOTS](_ => true);
      ghost var a := AllocateTo(instructions, 0);
      assert freeRegList[..] == a.free;
      for i := 0 to |instructions|
        invariant Valid() && instructions == old(instructions)
        invariant a == AllocateTo(instructions, i) && a.Allocation? && freeRegList[..] == a.free && HaveSlots(a.slot)
      {
        ok, a := AllocateOne(freeRegList, i, a);
        if !ok {
          StillExhausted(instructions, i + 1, |instructions|);
          return false;
        }
      }
      return true;
    }

    /** One iteration: the destination gets its slot, then the operands give theirs back. */
    method AllocateOne(freeRegList: array<bool>, i: nat, ghost a: Allocation) returns (ok: bool, ghost b: Allocation)
      requires Valid() && SingleAssignment(instructions) && i < |instructions| && freeRegList.Length == SLOTS
      requires a == AllocateTo(instructions, i) && a.Allocation? && freeRegList[..] == a.free && HaveSlots(a.slot)
      modifies this`registers, freeRegList
      ensures Valid() && b == AllocateTo(instructions, i + 1) && (ok <==> b.Allocation?)
      ensures ok ==> freeRegList[..] == b.free && HaveSlots(b.slot)
    {
      AllocationIsSound(instructions, i);
      RegistersKnown(registers, instructions, i);
      SlotsKnown(instructions, i, a);
      hide Describes, Release, JitAlloc.Sound, TakeSlot, SingleAssignment;
      var insn := instructions[i];
      ghost var taken := a;
      b := AllocateTo(instructions, i + 1);
      if insn.Dst().Some? {
        ok := GetFreeReg(freeRegList, insn.Dst().value, a);
        taken := TakeSlot(a, insn.Dst().value, LastRead(instructions, insn.Dst().value, |instructions|));
        if !ok {
          return;
        }
        TakenSlots(a, insn.Dst().value, LastRead(instructions, insn.Dst().value, |instructions|));
      }
      ReleaseOperands(freeRegList, insn, i, taken.slot);
      ok := true;
    }

    // ------------------------------------------------------------- code

    function Slots(): map<V, nat>
      reads this
    {
      map v | v in registers :: registers[v].index
    }

    /** generateCode; false stands for the failed assertion at a marker. */
    method GenerateCode() returns (ok: bool, code: seq<Insn>)
      requires AllSound(instructions)
      ensures ok <==> forall k :: 0 <= k < |instructions| ==> !instructions[k].XMarker?
      ensures ok ==> code == CodeFrom(instructions, Slots(), 0)
    {
      hide Emit, JitEmit.Sound;
      code := [];
      for i := 0 to |instructions|
        invariant code + CodeFrom(instructions, Slots(), i) == CodeFrom(instructions, Slots(), 0)
        invariant forall k :: 0 <= k < i ==> !instructions[k].XMarker?
      {
        if instructions[i].XMarker? {
          return false, [];
        }
        CodeFromUnfolds(instructions, Slots(), i);
        ShapeOfSound(instructions[i]);
        code := code + Emit(instructions[i], Slots());
      }
      ok := true;
    }

    /** jit: false if a register does not fit, a marker is met, or the code exceeds the buffer. */
    method Jit(ir: seq<IrInsn>, types: seq<Width>, irLastRead: seq<int>, bufferSize: nat) returns (ok: bool, code: seq<Insn>)
      requires Valid() && instructions == [] && WellFormed(ir, types)
      requires forall i :: 0 <= i < |ir| && ir[i].Read? ==>
        ir[i].dst < |irLastRead| && (irLastRead[ir[i].dst] != -1 <==> ir[i].dst in UsedBy(ir, |ir|))
      modifies this
      ensures Valid()
      ensures ok <==> Compilable(ir, types, bufferSize)
      ensures ok ==> code == Compile(ir, types)
    {
      hide Describes, WellFormed, Lower, SingleAssignment, CodeFrom, AllSound, Allocate, Bytes, Compile;
      AllocateInstructions(ir, types, irLastRead);
      LoweredIsFine(ir, types);
      ok := AllocateRegisters();
      if !ok {
        return false, [];
      }
      ok, code := GenerateCode();
      if ok {
        SlotsAgree(instructions, Slots(), Allocate(instructions).slot);
        CompileIs(ir, types);
        if Bytes(code) > bufferSize {
          return false, [];
        }
      }
    }
  }

  /** All registers get slots, there are no markers, and the code fits into the buffer. */
  ghost predicate Compilable(ir: seq<IrInsn>, types: seq<Width>, bufferSize: nat)
    requires WellFormed(ir, types)
  {
    && JitCompile.Fits(ir, types)
    && (forall k :: 0 <= k < |Lower(ir, types)| ==> !Lower(ir, types)[k].XMarker?)
    && Bytes(Compile(ir, types)) <= bufferSize
  }

  lemma ShapeOfSound(insn: XInsn)
    requires JitEmit.Sound(insn)
    ensures WellShaped(insn)
  {
  }

  lemma LoweredIsFine(ir: seq<IrInsn>, types: seq<Width>)
    requires WellFormed(ir, types)
    ensures SingleAssignment(Lower(ir, types)) && AllSound(Lower(ir, types))
  {
    LoweredSound(ir, types, UsedBy(ir, |ir|), |ir|);
    LoweredTo(ir, types, |ir|);
  }

  lemma CompileIs(ir: seq<IrInsn>, types: seq<Width>)
    requires WellFormed(ir, types) && JitCompile.Fits(ir, types)
    ensures AllSound(Lower(ir, types))
    ensures Compile(ir, types) == CodeFrom(Lower(ir, types), Allocate(Lower(ir, types)).slot, 0)
  {
    LoweredIsFine(ir, types);
  }

  /** The index fields and the allocation give the same code. */
  lemma SlotsAgree(code: seq<XInsn>, s: map<V, nat>, slot: map<V, nat>)
    requires AllSound(code) && SingleAssignment(code) && Allocate(code).Allocation? && slot == Allocate(code).slot
    requires forall v :: v in slot ==> v in s && s[v] == slot[v]
    ensures CodeFrom(code, s, 0) == CodeFrom(code, slot, 0)
  {
    AllocationIsSound(code, |code|);
    forall k, v | 0 <= k < |code| && v in code[k].Uses() + GivenV(code[k].Dst())
      ensures R(s, v) == R(slot, v)
    {
      Defined(code, k, v);
    }
    CodeDepends(code, s, slot, 0);
  }

  lemma Defined(code: seq<XInsn>, k: nat, v: V)
    requires k < |code| && SingleAssignment(code) && v in code[k].Uses() + GivenV(code[k].Dst())
    ensures v in DefsX(code, |code|)
  {
    AssignedFits(code, k);
    DefsGrow(code, k, |code|);
    DefsGrow(code, k + 1, |code|);
  }

  /** The index field takes no part in the description of the code. */
  lemma IndexIsFree(registers: map<V, X86Register>, code: seq<XInsn>, v: V, i: nat)
    requires Describes(registers, code) && v in registers
    ensures Describes(registers[v := registers[v].(index := i)], code)
    ensures |registers[v := registers[v].(index := i)]| == |registers|
    ensures registers[v].lastReadIndex == LastRead(code, v, |code|)
  {
    hide LastRead, IsConstant, XInsn.Uses, XInsn.Dst, GivenV;
    var changed := registers[v := registers[v].(index := i)];
    assert changed.Keys == registers.Keys;
    SameSize(registers, changed);
  }

  lemma SameSize(m: map<V, X86Register>, m': map<V, X86Register>)
    requires m.Keys == m'.Keys
    ensures |m| == |m'|
  {
    assert |m| == |m.Keys| && |m'| == |m'.Keys|;
  }

  lemma {:induction false} StillExhausted(code: seq<XInsn>, i: nat, j: nat)
    requires i <= j <= |code| && AllocateTo(code, i).Exhausted?
    ensures AllocateTo(code, j).Exhausted?
    decreases j
  {
    if i < j {
      StillExhausted(code, i, j - 1);
    }
  }

  lemma RegistersKnown(registers: map<V, X86Register>, code: seq<XInsn>, i: nat)
    requires Describes(registers, code) && i < |code|
    ensures code[i].Uses() + GivenV(code[i].Dst()) <= registers.Keys
  {
  }

  lemma SlotsKnown(code: seq<XInsn>, i: nat, a: Allocation)
    requires i < |code| && SingleAssignment(code) && JitAlloc.Sound(code, i, a)
    ensures |a.free| == SLOTS && (code[i].Dst().Some? ==> code[i].Dst().value !in a.slot)
    ensures forall v :: v in code[i].Uses() ==> v in a.slot && a.slot[v] < SLOTS
    ensures code[i].Dst().Some? ==> code[i].Dst().value !in code[i].Uses()
  {
    AssignedFits(code, i);
  }

  lemma TakenSlots(a: Allocation, v: V, last: int)
    requires a.Allocation? && v !in a.slot && TakeSlot(a, v, last).Allocation?
    ensures var b := TakeSlot(a, v, last);
      |b.free| == |a.free| && forall u :: u in a.slot ==> u in b.slot && b.slot[u] == a.slot[u]
  {
  }
}
