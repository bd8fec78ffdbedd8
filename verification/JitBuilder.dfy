/** The IR builder: every instruction that it adds keeps the IR well formed and the last reads exact. */
module JitBuilder {
  import opened Wrappers
  import opened Words
  import opened JitIr
  import opened JitLower

  /** struct irRegister. */
  datatype IrRegister = IrRegister(width: Width, firstWriteIndex: nat, lastReadIndex: int)

  /** lastReadIndex after the first n instructions: the last one that reads r, or -1. */
  function LastUse(ir: seq<IrInsn>, r: Reg, n: nat): (k: int)
    requires n <= |ir|
    ensures -1 <= k < n
    ensures k >= 0 ==> r in ir[k].Uses()
    ensures forall j :: k < j < n ==> r !in ir[j].Uses()
  {
    if n == 0 then -1
    else if r in ir[n - 1].Uses() then n - 1
    else LastUse(ir, r, n - 1)
  }

  /** A register is read somewhere exactly if its lastReadIndex is not -1. */
  lemma {:induction false} UsedIfRead(ir: seq<IrInsn>, r: Reg, n: nat)
    requires n <= |ir|
    ensures r in UsedBy(ir, n) <==> LastUse(ir, r, n) != -1
  {
    if n > 0 {
      UsedIfRead(ir, r, n - 1);
    }
  }

  function Types(registers: seq<IrRegister>): (types: seq<Width>)
    ensures |types| == |registers|
    ensures forall r :: 0 <= r < |types| ==> types[r] == registers[r].width
  {
    seq(|registers|, r requires 0 <= r < |registers| => registers[r].width)
  }

  /** All registers below n. */
  ghost predicate AllBelow(defs: set<Reg>, n: nat) {
    forall r: nat :: r in defs <==> r < n
  }

  ghost predicate Consistent(ir: seq<IrInsn>, registers: seq<IrRegister>) {
    && WellFormed(ir, Types(registers))
    && AllBelow(Defs(ir, |ir|), |registers|)
    && forall r :: 0 <= r < |registers| ==> registers[r].lastReadIndex == LastUse(ir, r, |ir|)
  }

  lemma {:induction false} DefsOfPrefix(ir: seq<IrInsn>, insn: IrInsn, n: nat)
    requires n <= |ir|
    ensures Defs(ir + [insn], n) == Defs(ir, n)
  {
    if n > 0 {
      DefsOfPrefix(ir, insn, n - 1);
      assert (ir + [insn])[n - 1] == ir[n - 1];
    }
  }

  lemma {:induction false} DefsBounded(ir: seq<IrInsn>, i: nat, n: nat)
    requires i <= n <= |ir|
    ensures Defs(ir, i) <= Defs(ir, n)
    decreases n
  {
    if i < n {
      DefsBounded(ir, i, n - 1);
    }
  }

  lemma {:induction false} LastUseOfPrefix(ir: seq<IrInsn>, insn: IrInsn, r: Reg, n: nat)
    requires n <= |ir|
    ensures LastUse(ir + [insn], r, n) == LastUse(ir, r, n)
  {
    if n > 0 {
      LastUseOfPrefix(ir, insn, r, n - 1);
      assert (ir + [insn])[n - 1] == ir[n - 1];
    }
  }

  /** The registers after an instruction: the operands read now, and one more register if it defines one. */
  ghost predicate Recorded(before: seq<IrRegister>, after: seq<IrRegister>, insn: IrInsn, n: nat) {
    && (forall r :: r in insn.Uses() ==> r < |before|)
    && Typed(insn, Types(after))
    && |after| == |before| + (if insn.Dst().Some? then 1 else 0)
    && (insn.Dst().Some? ==> insn.Dst().value == |before| && after[|before|].lastReadIndex == -1)
    && forall r :: 0 <= r < |before| ==>
         && after[r].width == before[r].width
         && after[r].lastReadIndex == if r in insn.Uses() then n else before[r].lastReadIndex
  }

  /** Types of the registers that are there already do not change. */
  lemma TypedStays(insn: IrInsn, types: seq<Width>, longer: seq<Width>)
    requires Typed(insn, types) && types <= longer
    requires forall r :: r in insn.Uses() ==> r < |types|
    requires insn.Dst().Some? ==> insn.Dst().value < |types|
    ensures Typed(insn, longer)
  {
    forall r: nat | r < |types|
      ensures TypeOf(longer, r) == TypeOf(types, r)
    {
      assert longer[..|types|][r] == types[r];
    }
    match insn
    case Store(_, s, a) => assert s in insn.Uses();
    case Binop(_, _, _, a, b) => assert a in insn.Uses() && b in insn.Uses();
    case Ite(_, _, p, t, f) => assert p in insn.Uses() && t in insn.Uses() && f in insn.Uses();
    case CastTo(_, _, a) => assert a in insn.Uses();
    case Exit(t, _) => assert t in insn.Uses();
    case Write(_, s, _) => assert s in insn.Uses();
    case _ =>
  }

  lemma ConsistentNext(ir: seq<IrInsn>, before: seq<IrRegister>, after: seq<IrRegister>, insn: IrInsn)
    requires Consistent(ir, before) && Recorded(before, after, insn, |ir|)
    ensures Consistent(ir + [insn], after)
  {
    var longer := ir + [insn];
    WellFormedNext(ir, before, after, insn);
    DefinedNext(ir, before, after, insn);
    hide WellFormed, AllBelow, LastUse, Recorded, Defs;
    forall r | 0 <= r < |after|
      ensures after[r].lastReadIndex == LastUse(longer, r, |longer|)
    {
      LastUseNext(ir, before, after, insn, r);
    }
  }

  lemma DefinedNext(ir: seq<IrInsn>, before: seq<IrRegister>, after: seq<IrRegister>, insn: IrInsn)
    requires AllBelow(Defs(ir, |ir|), |before|) && Recorded(before, after, insn, |ir|)
    ensures AllBelow(Defs(ir + [insn], |ir| + 1), |after|)
  {
    DefsOfPrefix(ir, insn, |ir|);
    assert (ir + [insn])[|ir|] == insn;
  }

  lemma LastUseNext(ir: seq<IrInsn>, before: seq<IrRegister>, after: seq<IrRegister>, insn: IrInsn, r: Reg)
    requires Consistent(ir, before) && Recorded(before, after, insn, |ir|) && r < |after|
    ensures after[r].lastReadIndex == LastUse(ir + [insn], r, |ir| + 1)
  {
    LastUseOfPrefix(ir, insn, r, |ir|);
    assert (ir + [insn])[|ir|] == insn;
    if r == |before| {
      NeverRead(ir, r, |ir|);
    }
  }

  lemma NeverRead(ir: seq<IrInsn>, r: Reg, n: nat)
    requires n <= |ir| && r !in Defs(ir, |ir|)
    requires forall i :: 0 <= i < |ir| ==> ir[i].Uses() <= Defs(ir, i)
    ensures LastUse(ir, r, n) == -1
  {
    var k := LastUse(ir, r, n);
    if k >= 0 {
      DefsBounded(ir, k, |ir|);
    }
  }

  lemma WellFormedNext(ir: seq<IrInsn>, before: seq<IrRegister>, after: seq<IrRegister>, insn: IrInsn)
    requires Consistent(ir, before) && Recorded(before, after, insn, |ir|)
    ensures WellFormed(ir + [insn], Types(after))
  {
    hide *;
    var longer := ir + [insn];
    TypesGrow(before, after, insn, |ir|);
    forall i | 0 <= i < |longer|
      ensures FitsAt(longer, Types(after), i)
    {
      if i < |ir| {
        EarlierStays(ir, before, after, insn, i);
      } else {
        LastFits(ir, before, after, insn);
      }
    }
    WellFormedIf(longer, Types(after));
  }

  lemma TypesGrow(before: seq<IrRegister>, after: seq<IrRegister>, insn: IrInsn, n: nat)
    requires Recorded(before, after, insn, n)
    ensures Types(before) <= Types(after)
  {
  }

  ghost predicate FitsAt(ir: seq<IrInsn>, types: seq<Width>, i: nat)
    requires i < |ir|
  {
    Typed(ir[i], types) && ir[i].Uses() <= Defs(ir, i) && Given(ir[i].Dst()) !! Defs(ir, i)
  }

  lemma WellFormedIf(ir: seq<IrInsn>, types: seq<Width>)
    requires forall i :: 0 <= i < |ir| ==> FitsAt(ir, types, i)
    ensures WellFormed(ir, types)
  {
    forall i | 0 <= i < |ir|
      ensures Typed(ir[i], types) && ir[i].Uses() <= Defs(ir, i) && Given(ir[i].Dst()) !! Defs(ir, i)
    {
      assert FitsAt(ir, types, i);
    }
  }

  lemma EarlierStays(ir: seq<IrInsn>, before: seq<IrRegister>, after: seq<IrRegister>, insn: IrInsn, i: nat)
    requires Consistent(ir, before) && Types(before) <= Types(after) && i < |ir|
    ensures FitsAt(ir + [insn], Types(after), i)
  {
    DefsOfPrefix(ir, insn, i);
    assert (ir + [insn])[i] == ir[i];
    RegistersKnown(ir, before, i);
    TypedStays(ir[i], Types(before), Types(after));
    hide Typed, Types, AllBelow, LastUse;
  }

  lemma RegistersKnown(ir: seq<IrInsn>, registers: seq<IrRegister>, i: nat)
    requires Consistent(ir, registers) && i < |ir|
    ensures FitsAt(ir, Types(registers), i)
    ensures forall r :: r in ir[i].Uses() ==> r < |registers|
    ensures ir[i].Dst().Some? ==> ir[i].Dst().value < |registers|
  {
    DefsBounded(ir, i, |ir|);
    DefsBounded(ir, i + 1, |ir|);
    hide Typed;
  }

  lemma LastFits(ir: seq<IrInsn>, before: seq<IrRegister>, after: seq<IrRegister>, insn: IrInsn)
    requires Consistent(ir, before) && Recorded(before, after, insn, |ir|)
    ensures FitsAt(ir + [insn], Types(after), |ir|)
  {
    DefsOfPrefix(ir, insn, |ir|);
    assert (ir + [insn])[|ir|] == insn;
    hide WellFormed, Typed;
  }

  lemma CallRecorded(before: seq<IrRegister>, after: seq<IrRegister>, insn: IrInsn, n: nat)
    requires insn.Call? && |insn.params| == 4 && insn.address < |before|
    requires forall k :: 0 <= k < 4 && insn.params[k].Some? ==> insn.params[k].value < |before|
    requires |after| == |before| + if insn.result.Some? then 1 else 0
    requires insn.result.Some? ==>
      && insn.result.value == |before|
      && after[|before|].width == insn.width && after[|before|].lastReadIndex == -1
    requires forall r :: 0 <= r < |before| ==>
      && after[r].width == before[r].width
      && after[r].lastReadIndex == if r == insn.address || Some(r) in insn.params then n else before[r].lastReadIndex
    ensures Recorded(before, after, insn, n)
  {
    forall r: Reg
      ensures Some(r) in insn.params <==> r in Passed(insn.params)
    {
    }
  }

  class Jitter {
    var registers: seq<IrRegister>
    var instructions: seq<IrInsn>

    ghost predicate Valid()
      reads this
    {
      Consistent(instructions, registers)
    }

    constructor ()
      ensures Valid() && instructions == []
    {
      registers, instructions := [], [];
    }

    /** allocateRegister. */
    method AllocateRegister(width: Width) returns (r: Reg)
      modifies this`registers
      ensures r == |old(registers)| && registers == old(registers) + [IrRegister(width, |instructions|, -1)]
    {
      r := |registers|;
      registers := registers + [IrRegister(width, |instructions|, -1)];
    }

    method Read(r: Reg)
      requires r < |registers|
      modifies this`registers
      ensures registers == old(registers)[r := old(registers[r]).(lastReadIndex := |instructions|)]
    {
      registers := registers[r := registers[r].(lastReadIndex := |instructions|)];
    }

    method Store(insn: IrInsn, ghost before: seq<IrRegister>)
      requires Consistent(instructions, before) && Recorded(before, registers, insn, |instructions|)
      modifies this`instructions
      ensures Valid() && instructions == old(instructions) + [insn]
    {
      ConsistentNext(instructions, before, registers, insn);
      instructions := instructions + [insn];
    }

    method AddMovConst(width: Width, value: u64) returns (dst: Reg)
      requires Valid()
      modifies this
      ensures Valid() && instructions == old(instructions) + [MovConst(width, dst, value)]
    {
      hide Consistent, LastUse;
      ghost var before := registers;
      dst := AllocateRegister(width);
      Store(MovConst(width, dst, value), before);
    }

    method AddLoad(width: Width, address: Reg) returns (dst: Reg)
      requires Valid() && address < |registers|
      modifies this
      ensures Valid() && instructions == old(instructions) + [Load(width, dst, address)]
    {
      hide Consistent, LastUse;
      ghost var before := registers;
      dst := AllocateRegister(width);
      Read(address);
      Store(Load(width, dst, address), before);
    }

    method AddStore(width: Width, src: Reg, address: Reg)
      requires Valid() && src < |registers| && address < |registers| && registers[src].width == width
      modifies this
      ensures Valid() && instructions == old(instructions) + [IrInsn.Store(width, src, address)]
    {
      hide Consistent, LastUse;
      ghost var before := registers;
      Read(address);
      Read(src);
      Store(IrInsn.Store(width, src, address), before);
    }

    /** The add_<op>_<width> functions with the assertions on the operand types. */
    method AddBinop(op: Op, width: Width, op1: Reg, op2: Reg) returns (dst: Reg)
      requires Valid() && op1 < |registers| && op2 < |registers|
      requires registers[op1].width == width && registers[op2].width == if op.IsShift() then I8 else width
      modifies this
      ensures Valid() && instructions == old(instructions) + [Binop(op, width, dst, op1, op2)]
    {
      hide Consistent, LastUse;
      ghost var before := registers;
      dst := AllocateRegister(width);
      Read(op1);
      Read(op2);
      Store(Binop(op, width, dst, op1, op2), before);
    }

    method AddIte(width: Width, pred: Reg, trueOp: Reg, falseOp: Reg) returns (dst: Reg)
      requires Valid() && pred < |registers| && trueOp < |registers| && falseOp < |registers|
      requires registers[pred].width == registers[trueOp].width == registers[falseOp].width == width
      modifies this
      ensures Valid() && instructions == old(instructions) + [Ite(width, dst, pred, trueOp, falseOp)]
    {
      hide Consistent, LastUse;
      ghost var before := registers;
      dst := AllocateRegister(width);
      Read(pred);
      Read(trueOp);
      Read(falseOp);
      Store(Ite(width, dst, pred, trueOp, falseOp), before);
    }

    method AddCast(cast: Cast, op: Reg) returns (dst: Reg)
      requires Valid() && op < |registers| && cast.Valid() && registers[op].width == cast.from
      modifies this
      ensures Valid() && instructions == old(instructions) + [CastTo(cast, dst, op)]
    {
      hide Consistent, LastUse;
      ghost var before := registers;
      dst := AllocateRegister(cast.to);
      Read(op);
      Store(CastTo(cast, dst, op), before);
    }

    method AddExit(value: Reg, pred: Option<Reg>)
      requires Valid() && value < |registers| && (pred.Some? ==> pred.value < |registers|)
      requires registers[value].width == I64
      modifies this
      ensures Valid() && instructions == old(instructions) + [Exit(value, pred)]
    {
      hide Consistent, LastUse;
      ghost var before := registers;
      Read(value);
      if pred.Some? {
        Read(pred.value);
      }
      Store(Exit(value, pred), before);
    }

    method ReadParams(params: seq<Option<Reg>>)
      requires forall k :: 0 <= k < |params| && params[k].Some? ==> params[k].value < |registers|
      modifies this`registers
      ensures |registers| == |old(registers)|
      ensures forall r :: 0 <= r < |registers| ==>
        registers[r] == if Some(r) in params then old(registers[r]).(lastReadIndex := |instructions|) else old(registers[r])
    {
      for i := 0 to |params|
        invariant |registers| == |old(registers)|
        invariant forall r :: 0 <= r < |registers| ==>
          registers[r] == if Some(r) in params[..i] then old(registers[r]).(lastReadIndex := |instructions|) else old(registers[r])
      {
        assert params[..i + 1] == params[..i] + [params[i]];
        if params[i].Some? {
          Read(params[i].value);
        }
      }
      assert params[..|params|] == params;
    }

    method AddCall(address: Reg, params: seq<Option<Reg>>, width: Width, returnsValue: bool) returns (result: Option<Reg>)
      requires Valid() && |params| == 4 && address < |registers|
      requires forall k :: 0 <= k < 4 && params[k].Some? ==> params[k].value < |registers|
      modifies this
      ensures Valid() && (result.Some? <==> returnsValue)
      ensures instructions == old(instructions) + [Call(address, params, width, result)]
    {
      hide Consistent, LastUse;
      ghost var before := registers;
      Read(address);
      ReadParams(params);
      result := None;
      if returnsValue {
        var r := AllocateRegister(width);
        result := Some(r);
      }
      CallRecorded(before, registers, Call(address, params, width, result), |instructions|);
      Store(Call(address, params, width, result), before);
    }

    method AddReadContext(width: Width, offset: int) returns (dst: Reg)
      requires Valid()
      modifies this
      ensures Valid() && instructions == old(instructions) + [IrInsn.Read(width, dst, offset)]
    {
      hide Consistent, LastUse;
      ghost var before := registers;
      dst := AllocateRegister(width);
      Store(IrInsn.Read(width, dst, offset), before);
    }

    method AddWriteContext(width: Width, src: Reg, offset: int)
      requires Valid() && src < |registers| && registers[src].width == width
      modifies this
      ensures Valid() && instructions == old(instructions) + [Write(width, src, offset)]
    {
      hide Consistent, LastUse;
      ghost var before := registers;
      Read(src);
      Store(Write(width, src, offset), before);
    }

    method AddMarker(pc: nat)
      requires Valid()
      modifies this
      ensures Valid() && instructions == old(instructions) + [Marker(pc)]
    {
      Store(Marker(pc), registers);
    }
  }
}
