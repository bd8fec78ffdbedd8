/**
 Instruction markers.  They change neither the slots nor the bytes of the code, so lowering the IR once more
 with markers finds the guest instruction that a host address belongs to.
 */
module JitMarker {
  import opened JitIr
  import opened JitLower
  import opened JitAlloc
  import opened JitMachine
  import opened JitEmit
  import opened JitCompile

  // ---------------------------------------------------------------- pseudo-instructions

  /** The first n pseudo-instructions without the markers. */
  function StripTo(code: seq<XInsn>, n: nat): (s: seq<XInsn>)
    requires n <= |code|
    ensures |s| <= n
  {
    if n == 0 then []
    else if code[n - 1].XMarker? then StripTo(code, n - 1)
    else StripTo(code, n - 1) + [code[n - 1]]
  }

  function Strip(code: seq<XInsn>): seq<XInsn> { StripTo(code, |code|) }

  /** Where the instructions from n on start in the stripped code. */
  function Place(code: seq<XInsn>, n: nat): nat
    requires n <= |code|
  {
    |StripTo(code, n)|
  }

  lemma {:induction false} StripPrefix(code: seq<XInsn>, i: nat, n: nat)
    requires i <= n <= |code|
    ensures StripTo(code, i) <= StripTo(code, n)
    ensures i < n && !code[i].XMarker? ==> Place(code, i) < Place(code, n) && StripTo(code, n)[Place(code, i)] == code[i]
    decreases n
  {
    if i < n - 1 {
      StripPrefix(code, i, n - 1);
    }
  }

  lemma MarkerReadsNothing(insn: XInsn)
    ensures insn.XMarker? ==> insn.Uses() == {}
  {
  }

  lemma PlaceWithin(code: seq<XInsn>, n: nat)
    requires n <= |code|
    ensures Place(code, n) <= |Strip(code)|
  {
    StripPrefix(code, n, |code|);
  }

  lemma {:induction false} LastReadStripped(code: seq<XInsn>, v: V, n: nat)
    requires n <= |code|
    ensures Place(code, n) <= |Strip(code)|
    ensures var k := LastRead(code, v, n);
      && (k >= 0 ==> !code[k].XMarker?)
      && LastRead(Strip(code), v, Place(code, n)) == if k == -1 then -1 else Place(code, k)
  {
    hide XInsn.Uses, Strip;
    PlaceWithin(code, n);
    if n > 0 {
      LastReadStripped(code, v, n - 1);
      PlaceNext(code, n - 1);
      MarkerReadsNothing(code[n - 1]);
    }
  }

  lemma PlacesDiffer(code: seq<XInsn>, i: nat, j: nat)
    requires i < |code| && j < |code| && !code[i].XMarker? && !code[j].XMarker?
    ensures Place(code, i) == Place(code, j) <==> i == j
  {
    if i < j {
      StripPrefix(code, i, j);
    } else if j < i {
      StripPrefix(code, j, i);
    }
  }

  /** Which registers are read for the last time does not depend on the markers. */
  lemma SameLastReads(code: seq<XInsn>, v: V, i: nat)
    requires i < |code| && !code[i].XMarker?
    ensures LastRead(Strip(code), v, |Strip(code)|) == -1 <==> LastRead(code, v, |code|) == -1
    ensures LastRead(Strip(code), v, |Strip(code)|) == Place(code, i) <==> LastRead(code, v, |code|) == i
  {
    LastReadStripped(code, v, |code|);
    var k := LastRead(code, v, |code|);
    if k >= 0 {
      PlacesDiffer(code, k, i);
    }
  }

  lemma SameInsn(code: seq<XInsn>, i: nat, a: Allocation)
    requires i < |code| && !code[i].XMarker?
    ensures Place(code, i) < |Strip(code)|
    ensures AllocateInsn(a, Strip(code), Place(code, i)) == AllocateInsn(a, code, i)
  {
    StripPrefix(code, i, |code|);
    var insn := code[i];
    forall v
      ensures LastRead(Strip(code), v, |Strip(code)|) == -1 <==> LastRead(code, v, |code|) == -1
      ensures LastRead(Strip(code), v, |Strip(code)|) == Place(code, i) <==> LastRead(code, v, |code|) == i
    {
      SameLastReads(code, v, i);
    }
    hide LastRead, StripTo, Place, Strip, XInsn.Uses, XInsn.Dst, FirstFree;
    if a.Allocation? {
      var d := insn.Dst();
      var b := if d.Some? then TakeSlot(a, d.value, LastRead(code, d.value, |code|)) else a;
      if b.Allocation? {
        assert Release(b.free, b.slot, insn.Uses(), Strip(code), Place(code, i))
            == Release(b.free, b.slot, insn.Uses(), code, i);
      }
    }
  }

  lemma MarkerKeeps(code: seq<XInsn>, i: nat, a: Allocation)
    requires i < |code| && code[i].XMarker?
    ensures AllocateInsn(a, code, i) == a
  {
    if a.Allocation? {
      assert Release(a.free, a.slot, {}, code, i) == a.free;
    }
  }

  lemma {:induction false} AllocationStripped(code: seq<XInsn>, n: nat)
    requires n <= |code|
    ensures Place(code, n) <= |Strip(code)|
    ensures AllocateTo(Strip(code), Place(code, n)) == AllocateTo(code, n)
  {
    hide AllocateInsn, StripTo;
    NothingStripped(code);
    if n > 0 {
      AllocationStripped(code, n - 1);
      PlaceNext(code, n - 1);
      var a := AllocateTo(code, n - 1);
      if code[n - 1].XMarker? {
        MarkerKeeps(code, n - 1, a);
      } else {
        SameInsn(code, n - 1, a);
      }
    }
  }

  lemma NothingStripped(code: seq<XInsn>)
    ensures Place(code, 0) == 0 && Place(code, |code|) == |Strip(code)|
  {
  }

  lemma PlaceNext(code: seq<XInsn>, i: nat)
    requires i < |code|
    ensures Place(code, i + 1) == (if code[i].XMarker? then Place(code, i) else Place(code, i) + 1) <= |Strip(code)|
    ensures !code[i].XMarker? ==> Strip(code)[Place(code, i)] == code[i]
  {
    StripPrefix(code, i + 1, |code|);
  }

  lemma {:induction false} StripIsSound(code: seq<XInsn>, n: nat)
    requires n <= |code| && AllSound(code)
    ensures AllSound(StripTo(code, n))
  {
    if n > 0 {
      StripIsSound(code, n - 1);
    }
  }

  lemma {:induction false} CodeStripped(code: seq<XInsn>, slots: map<V, nat>, k: nat)
    requires k <= |code| && AllSound(code)
    ensures AllSound(Strip(code)) && Place(code, k) <= |Strip(code)|
    ensures CodeFrom(Strip(code), slots, Place(code, k)) == CodeFrom(code, slots, k)
    decreases |code| - k
  {
    hide StripTo, Emit, AllSound, JitEmit.Sound;
    StripIsSound(code, |code|);
    StrippedWhole(code);
    NothingStripped(code);
    if k < |code| {
      PlaceNext(code, k);
      CodeStripped(code, slots, k + 1);
      CodeFromStep(code, slots, k);
      if !code[k].XMarker? {
        CodeFromStep(Strip(code), slots, Place(code, k));
      }
    } else {
      NoCodeLeft(code, slots);
      NoCodeLeft(Strip(code), slots);
    }
  }

  lemma StrippedWhole(code: seq<XInsn>)
    ensures StripTo(code, |code|) == Strip(code)
  {
  }

  lemma NoCodeLeft(code: seq<XInsn>, slots: map<V, nat>)
    requires AllSound(code)
    ensures CodeFrom(code, slots, |code|) == []
  {
  }

  /** A marker adds nothing to the code. */
  lemma CodeFromStep(code: seq<XInsn>, slots: map<V, nat>, k: nat)
    requires k < |code| && AllSound(code)
    ensures WellShaped(code[k]) && (code[k].XMarker? ==> Emit(code[k], slots) == [])
    ensures CodeFrom(code, slots, k) == Emit(code[k], slots) + CodeFrom(code, slots, k + 1)
  {
  }

  /** Markers anywhere leave the slots and the code as they are. */
  lemma MarkersChangeNothing(code: seq<XInsn>)
    requires AllSound(code)
    ensures Allocate(Strip(code)) == Allocate(code)
    ensures AllSound(Strip(code))
    ensures Allocate(code).Allocation? ==>
      CodeFrom(Strip(code), Allocate(code).slot, 0) == CodeFrom(code, Allocate(code).slot, 0)
  {
    AllocationStripped(code, |code|);
    StripIsSound(code, |code|);
    if Allocate(code).Allocation? {
      CodeStripped(code, Allocate(code).slot, 0);
    }
  }

  // ---------------------------------------------------------------- markers in the IR

  /** The first n IR instructions without the markers. */
  function StripIrTo(ir: seq<IrInsn>, n: nat): (s: seq<IrInsn>)
    requires n <= |ir|
    ensures |s| <= n
  {
    if n == 0 then []
    else if ir[n - 1].Marker? then StripIrTo(ir, n - 1)
    else StripIrTo(ir, n - 1) + [ir[n - 1]]
  }

  lemma {:induction false} StripAppend(a: seq<XInsn>, b: seq<XInsn>, n: nat)
    requires n <= |b|
    ensures StripTo(a + b, |a| + n) == Strip(a) + StripTo(b, n)
    decreases n
  {
    if n == 0 {
      StripOfPrefix(a, b, |a|);
    } else {
      StripAppend(a, b, n - 1);
      assert (a + b)[|a| + n - 1] == b[n - 1];
    }
  }

  lemma {:induction false} StripOfPrefix(a: seq<XInsn>, b: seq<XInsn>, n: nat)
    requires n <= |a|
    ensures StripTo(a + b, n) == StripTo(a, n)
  {
    if n > 0 {
      StripOfPrefix(a, b, n - 1);
      assert (a + b)[n - 1] == a[n - 1];
    }
  }

  lemma {:induction false} NoMarkersToStrip(code: seq<XInsn>, n: nat)
    requires n <= |code| && forall k :: 0 <= k < n ==> !code[k].XMarker?
    ensures StripTo(code, n) == code[..n]
  {
    if n > 0 {
      NoMarkersToStrip(code, n - 1);
    }
  }

  lemma {:induction false} ConstantsStripped(code: seq<XInsn>, n: nat, v: V)
    requires n <= |code|
    ensures IsConstant(StripTo(code, n), v) <==> IsConstant(code[..n], v)
  {
    if n > 0 {
      ConstantsStripped(code, n - 1, v);
      ConstantNext(code[..n - 1], code[n - 1], v);
      assert code[..n - 1] + [code[n - 1]] == code[..n];
      if !code[n - 1].XMarker? {
        ConstantNext(StripTo(code, n - 1), code[n - 1], v);
      }
    }
  }

  /** A block that is no marker is the same after stripping what comes before. */
  lemma BlockStripped(insn: IrInsn, types: seq<Width>, used: set<Reg>, code: seq<XInsn>)
    requires !insn.Marker?
    ensures LowerInsn(insn, types, used, Strip(code)) == LowerInsn(insn, types, used, code)
    ensures Strip(LowerInsn(insn, types, used, code)) == LowerInsn(insn, types, used, code)
  {
    if insn.Exit? {
      ConstantsStripped(code, |code|, Of(insn.target));
      assert code[..|code|] == code;
    }
    var block := LowerInsn(insn, types, used, code);
    assert forall k :: 0 <= k < |block| ==> !block[k].XMarker?;
    NoMarkersToStrip(block, |block|);
    assert block[..|block|] == block;
  }

  lemma {:induction false} LowerOfPrefix(ir: seq<IrInsn>, insn: IrInsn, types: seq<Width>, used: set<Reg>, i: nat)
    requires i <= |ir|
    ensures LowerTo(ir + [insn], types, used, i) == LowerTo(ir, types, used, i)
  {
    if i > 0 {
      LowerOfPrefix(ir, insn, types, used, i - 1);
      assert (ir + [insn])[i - 1] == ir[i - 1];
    }
  }

  /** Lowering IR with markers and stripping them is lowering the IR without markers. */
  lemma {:induction false} LowerStripped(ir: seq<IrInsn>, types: seq<Width>, used: set<Reg>, i: nat)
    requires i <= |ir|
    ensures var s := StripIrTo(ir, i);
      Strip(LowerTo(ir, types, used, i)) == LowerTo(s, types, used, |s|)
  {
    hide LowerInsn, Strip;
    StripNothing();
    if i > 0 {
      LowerStripped(ir, types, used, i - 1);
      LowerStrippedNext(ir[i - 1], types, used, LowerTo(ir, types, used, i - 1), StripIrTo(ir, i - 1));
    }
  }

  lemma StripNothing()
    ensures Strip([]) == []
  {
  }

  lemma LowerStrippedNext(insn: IrInsn, types: seq<Width>, used: set<Reg>, code: seq<XInsn>, s: seq<IrInsn>)
    requires Strip(code) == LowerTo(s, types, used, |s|)
    ensures var longer, block := s + [insn], LowerInsn(insn, types, used, code);
      Strip(code + block) == if insn.Marker? then Strip(code) else LowerTo(longer, types, used, |longer|)
  {
    var longer, block := s + [insn], LowerInsn(insn, types, used, code);
    StripAppend(code, block, |block|);
    assert StripTo(code + block, |code + block|) == Strip(code) + Strip(block);
    if insn.Marker? {
      OneMarkerStripped(block);
    } else {
      BlockStripped(insn, types, used, code);
      LowerOfPrefix(s, insn, types, used, |s|);
      LastLowered(longer, types, used, insn);
    }
  }

  lemma LastLowered(longer: seq<IrInsn>, types: seq<Width>, used: set<Reg>, insn: IrInsn)
    requires |longer| > 0 && longer[|longer| - 1] == insn
    ensures var code := LowerTo(longer, types, used, |longer| - 1);
      LowerTo(longer, types, used, |longer|) == code + LowerInsn(insn, types, used, code)
  {
  }

  lemma OneMarkerStripped(block: seq<XInsn>)
    requires |block| == 1 && block[0].XMarker?
    ensures Strip(block) == []
  {
    assert StripTo(block, 0) == [];
  }

  lemma {:induction false} UsedOfPrefix(ir: seq<IrInsn>, insn: IrInsn, i: nat)
    requires i <= |ir|
    ensures UsedBy(ir + [insn], i) == UsedBy(ir, i)
  {
    if i > 0 {
      UsedOfPrefix(ir, insn, i - 1);
      assert (ir + [insn])[i - 1] == ir[i - 1];
    }
  }

  lemma {:induction false} UsedStripped(ir: seq<IrInsn>, i: nat)
    requires i <= |ir|
    ensures var s := StripIrTo(ir, i); UsedBy(s, |s|) == UsedBy(ir, i)
  {
    if i > 0 {
      UsedStripped(ir, i - 1);
      if !ir[i - 1].Marker? {
        var s := StripIrTo(ir, i - 1);
        UsedOfPrefix(s, ir[i - 1], |s|);
        assert (s + [ir[i - 1]])[|s|] == ir[i - 1];
      }
    }
  }

  /** IR with markers anywhere has the slots and the code of the IR without them. */
  lemma MarkersInIrChangeNothing(ir: seq<IrInsn>, types: seq<Width>)
    requires WellFormed(ir, types)
    ensures var code, bare := Lower(ir, types), Lower(StripIrTo(ir, |ir|), types);
      && bare == Strip(code) && AllSound(code) && AllSound(bare)
      && Allocate(bare) == Allocate(code)
      && (Allocate(code).Allocation? ==>
            CodeFrom(bare, Allocate(bare).slot, 0) == CodeFrom(code, Allocate(code).slot, 0))
  {
    var used := UsedBy(ir, |ir|);
    UsedStripped(ir, |ir|);
    LowerStripped(ir, types, used, |ir|);
    LoweredSound(ir, types, used, |ir|);
    MarkersChangeNothing(Lower(ir, types));
  }

  // ---------------------------------------------------------------- the search

  /** The offset at which the code of pseudo-instruction k starts. */
  ghost function Start(code: seq<XInsn>, slots: map<V, nat>, k: nat): nat
    requires k <= |code| && AllSound(code)
  {
    if k == 0 then 0 else Start(code, slots, k - 1) + Bytes(Emit(code[k - 1], slots))
  }

  /** The last marker before pseudo-instruction k, all ones if there is none. */
  function LastMarker(code: seq<XInsn>, k: nat): nat
    requires k <= |code|
  {
    if k == 0 then 0xFFFF_FFFF
    else if code[k - 1].XMarker? then code[k - 1].pc
    else LastMarker(code, k - 1)
  }

  lemma {:induction false} LastMarkerIsLast(code: seq<XInsn>, k: nat)
    requires k <= |code|
    ensures var pc := LastMarker(code, k);
      || (pc == 0xFFFF_FFFF && forall j :: 0 <= j < k ==> !code[j].XMarker?)
      || exists i :: 0 <= i < k && code[i] == XMarker(pc) && forall j :: i < j < k ==> !code[j].XMarker?
  {
    if k > 0 && !code[k - 1].XMarker? {
      LastMarkerIsLast(code, k - 1);
    } else if k > 0 {
      assert code[k - 1] == XMarker(LastMarker(code, k));
    }
  }

  lemma {:induction false} StartsGrow(code: seq<XInsn>, slots: map<V, nat>, i: nat, j: nat)
    requires i <= j <= |code| && AllSound(code)
    ensures Start(code, slots, i) <= Start(code, slots, j)
    decreases j
  {
    hide Emit, Bytes, JitEmit.Sound;
    if i < j {
      StartsGrow(code, slots, i, j - 1);
    }
  }

  /** The instruction whose code spans an offset, its last byte included. */
  ghost predicate Spans(code: seq<XInsn>, slots: map<V, nat>, e: nat, offset: nat)
    requires AllSound(code)
  {
    e < |code| && !code[e].XMarker? && Start(code, slots, e) < offset <= Start(code, slots, e + 1)
  }

  /** findInsnInCode: generates the code again and stops at the offset. */
  method FindInsnInCode(code: seq<XInsn>, slots: map<V, nat>, offset: nat) returns (res: nat)
    requires AllSound(code)
    ensures forall e: nat :: Spans(code, slots, e, offset) ==> res == LastMarker(code, e)
  {
    hide Emit, Bytes, JitEmit.Sound, Spans;
    res := 0xFFFF_FFFF;
    var i, pos := 0, 0;
    while i < |code|
      invariant 0 <= i <= |code| && pos == Start(code, slots, i) && res == LastMarker(code, i)
      invariant i > 0 ==> pos < offset
    {
      CodeFromStep(code, slots, i);
      if code[i].XMarker? {
        res := code[i].pc;
      }
      pos := pos + Bytes(Emit(code[i], slots));
      i := i + 1;
      if pos >= offset {
        SpannedBy(code, slots, i - 1, offset);
        return;
      }
    }
    NotSpanned(code, slots, offset);
  }

  /** The first instruction whose code reaches an offset is the only one that can span it. */
  lemma SpannedBy(code: seq<XInsn>, slots: map<V, nat>, i: nat, offset: nat)
    requires i < |code| && AllSound(code) && offset <= Start(code, slots, i + 1)
    requires i > 0 ==> Start(code, slots, i) < offset
    ensures forall e: nat :: Spans(code, slots, e, offset) ==> LastMarker(code, i + 1) == LastMarker(code, e)
  {
    hide Emit, Bytes, AllSound;
    forall e: nat | Spans(code, slots, e, offset)
      ensures e == i
    {
      if e < i {
        StartsGrow(code, slots, e + 1, i);
      } else if e > i {
        StartsGrow(code, slots, i + 1, e);
      }
    }
  }

  lemma NotSpanned(code: seq<XInsn>, slots: map<V, nat>, offset: nat)
    requires AllSound(code) && (|code| > 0 ==> Start(code, slots, |code|) < offset)
    ensures forall e: nat :: !Spans(code, slots, e, offset)
  {
    hide Emit, Bytes, AllSound;
    forall e: nat | Spans(code, slots, e, offset)
      ensures false
    {
      StartsGrow(code, slots, e + 1, |code|);
    }
  }
}
