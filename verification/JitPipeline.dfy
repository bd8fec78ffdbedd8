/** From the builder to machine code: what the builder guarantees is what the backend needs. */
module JitPipeline {
  import opened JitIr
  import opened JitLower
  import opened JitMachine
  import opened JitCompile
  import opened JitBuilder
  import opened JitBackend

  function LastReads(registers: seq<IrRegister>): (r: seq<int>)
    ensures |r| == |registers|
    ensures forall k :: 0 <= k < |r| ==> r[k] == registers[k].lastReadIndex
  {
    seq(|registers|, k requires 0 <= k < |registers| => registers[k].lastReadIndex)
  }

  lemma {:induction false} ReadsKnown(ir: seq<IrInsn>, registers: seq<IrRegister>, i: nat)
    requires Consistent(ir, registers) && i < |ir| && ir[i].Read?
    ensures ir[i].dst < |registers|
    ensures LastReads(registers)[ir[i].dst] != -1 <==> ir[i].dst in UsedBy(ir, |ir|)
  {
    JitBuilder.RegistersKnown(ir, registers, i);
    UsedIfRead(ir, ir[i].dst, |ir|);
  }

  /**
   jitCode.  It succeeds exactly if the IR is compilable, and then the code is that of CompiledCodeIsCorrect;
   the builder guarantees the well-formedness that the theorem asks for.
   */
  method JitCode(jitter: Jitter, inter: Inter, bufferSize: nat) returns (ok: bool, code: seq<Insn>)
    requires jitter.Valid() && inter.Valid() && inter.instructions == []
    modifies inter
    ensures WellFormed(jitter.instructions, Types(jitter.registers))
    ensures ok <==> Compilable(jitter.instructions, Types(jitter.registers), bufferSize)
    ensures ok ==> code == Compile(jitter.instructions, Types(jitter.registers))
  {
    var ir, types := jitter.instructions, Types(jitter.registers);
    forall i | 0 <= i < |ir| && ir[i].Read?
      ensures ir[i].dst < |LastReads(jitter.registers)|
      ensures LastReads(jitter.registers)[ir[i].dst] != -1 <==> ir[i].dst in UsedBy(ir, |ir|)
    {
      ReadsKnown(ir, jitter.registers, i);
    }
    hide WellFormed, Lower, JitCompile.Fits, Bytes, Compile;
    ok, code := inter.Jit(ir, types, LastReads(jitter.registers), bufferSize);
  }
}
