/**
 Register allocation of the x86_64 backend: eight slots handed out in one pass, each freed at the last read
 of the register that holds it.
 */
module JitAlloc {
  import opened JitIr
  import opened JitLower

  const SLOTS: nat := 8

  // ---------------------------------------------------------------- last reads

  /** lastReadIndex after the first n pseudo-instructions: the last one that reads v, or -1. */
  function LastRead(code: seq<XInsn>, v: V, n: nat): (k: int)
    requires n <= |code|
    ensures -1 <= k < n
  {
    if n == 0 then -1
    else if v in code[n - 1].Uses() then n - 1
    else LastRead(code, v, n - 1)
  }

  lemma {:induction false} LastReadIsLast(code: seq<XInsn>, v: V, n: nat)
    requires n <= |code|
    ensures var k := LastRead(code, v, n);
      && (k >= 0 ==> v in code[k].Uses())
      && forall j :: k < j < n ==> v !in code[j].Uses()
  {
    if n > 0 && v !in code[n - 1].Uses() {
      LastReadIsLast(code, v, n - 1);
    }
  }

  /** The registers that the first i pseudo-instructions define. */
  function DefsX(code: seq<XInsn>, i: nat): set<V>
    requires i <= |code|
  {
    if i == 0 then {} else DefsX(code, i - 1) + GivenV(code[i - 1].Dst())
  }

  /** Single assignment form with uses after definitions. */
  ghost predicate SingleAssignment(code: seq<XInsn>) {
    forall i :: 0 <= i < |code| ==> AssignedAt(code, i)
  }

  ghost predicate AssignedAt(code: seq<XInsn>, i: nat)
    requires i < |code|
  {
    Fits(code[i], DefsX(code, i))
  }

  predicate Fits(insn: XInsn, defs: set<V>) {
    insn.Uses() <= defs && GivenV(insn.Dst()) !! defs
  }

  lemma AssignedOnce(code: seq<XInsn>, i: nat)
    requires i < |code| && SingleAssignment(code)
    ensures Fits(code[i], DefsX(code, i)) && DefsX(code, i + 1) == DefsX(code, i) + GivenV(code[i].Dst())
    ensures code[i].Dst().Some? ==> code[i].Dst().value !in DefsX(code, i) && code[i].Dst().value in DefsX(code, i + 1)
  {
    hide DefsX;
    AssignedFits(code, i);
    DefsNext(code, i);
    hide XInsn.Uses, XInsn.Dst, SingleAssignment;
  }

  lemma AssignedFits(code: seq<XInsn>, i: nat)
    requires i < |code| && SingleAssignment(code)
    ensures Fits(code[i], DefsX(code, i))
  {
    assert AssignedAt(code, i);
    hide XInsn.Uses, XInsn.Dst, Fits, DefsX;
  }

  lemma DefsNext(code: seq<XInsn>, i: nat)
    requires i < |code|
    ensures DefsX(code, i + 1) == DefsX(code, i) + GivenV(code[i].Dst())
  {
    hide XInsn.Dst, GivenV;
  }

  lemma {:induction false} DefsGrow(code: seq<XInsn>, i: nat, j: nat)
    requires i <= j <= |code|
    ensures DefsX(code, i) <= DefsX(code, j)
    decreases j
  {
    if i < j {
      DefsGrow(code, i, j - 1);
    }
  }

  /** Defined before instruction i and still to be read at i or later. */
  predicate Live(code: seq<XInsn>, v: V, i: nat)
    requires i <= |code|
  {
    v in DefsX(code, i) && LastRead(code, v, |code|) >= i
  }

  // ---------------------------------------------------------------- the allocation

  /** freeRegList and the index of every register that has been given a slot. */
  datatype Allocation = Allocation(free: seq<bool>, slot: map<V, nat>) | Exhausted

  /** getFreeRegRaw: the first free slot, or 8 if there is none. */
  function FirstFree(free: seq<bool>, from: nat): (i: nat)
    requires from <= |free|
    ensures from <= i <= |free| && (i < |free| ==> free[i])
    ensures forall j :: from <= j < i ==> !free[j]
    decreases |free| - from
  {
    if from == |free| || free[from] then from else FirstFree(free, from + 1)
  }

  /** getFreeReg: a register that is never read gives its slot back at once. */
  function TakeSlot(a: Allocation, v: V, last: int): Allocation
    requires a.Allocation?
  {
    var i := FirstFree(a.free, 0);
    if i == |a.free| then Exhausted
    else Allocation(if last == -1 then a.free else a.free[i := false], a.slot[v := i])
  }

  /** Frees the slots of the registers among vs that instruction i reads for the last time. */
  function Release(free: seq<bool>, slot: map<V, nat>, vs: set<V>, code: seq<XInsn>, i: nat): (r: seq<bool>)
    ensures |r| == |free|
  {
    seq(|free|, j requires 0 <= j < |free| =>
      free[j] || exists v :: v in vs && LastRead(code, v, |code|) == i && v in slot && slot[v] == j)
  }

  /** One iteration of allocateRegisters: the destination gets its slot before any operand is freed. */
  function AllocateInsn(a: Allocation, code: seq<XInsn>, i: nat): Allocation
    requires i < |code|
  {
    if a.Exhausted? then Exhausted
    else
      var d := code[i].Dst();
      var b := if d.Some? then TakeSlot(a, d.value, LastRead(code, d.value, |code|)) else a;
      if b.Exhausted? then Exhausted
      else Allocation(Release(b.free, b.slot, code[i].Uses(), code, i), b.slot)
  }

  function AllocateTo(code: seq<XInsn>, i: nat): Allocation
    requires i <= |code|
  {
    if i == 0 then Allocation(seq(SLOTS, _ => true), map[])
    else AllocateInsn(AllocateTo(code, i - 1), code, i - 1)
  }

  function Allocate(code: seq<XInsn>): Allocation { AllocateTo(code, |code|) }

  // ---------------------------------------------------------------- what it keeps

  predicate HoldsSlot(code: seq<XInsn>, slot: map<V, nat>, i: nat, v: V, j: nat)
    requires i <= |code|
  {
    Live(code, v, i) && v in slot && slot[v] == j
  }

  ghost predicate Held(code: seq<XInsn>, slot: map<V, nat>, i: nat, j: nat)
    requires i <= |code|
  {
    exists v :: HoldsSlot(code, slot, i, v, j)
  }

  /** Every defined register has a slot; a slot is taken exactly if a live register holds it, and by one only. */
  ghost predicate Sound(code: seq<XInsn>, i: nat, a: Allocation)
    requires i <= |code|
  {
    && a.Allocation? && |a.free| == SLOTS
    && a.slot.Keys == DefsX(code, i)
    && (forall v :: v in a.slot ==> a.slot[v] < SLOTS)
    && (forall j :: 0 <= j < SLOTS ==> (!a.free[j] <==> Held(code, a.slot, i, j)))
    && (forall u, v :: Live(code, u, i) && Live(code, v, i) && u != v ==> a.slot[u] != a.slot[v])
  }

  lemma LaterRead(code: seq<XInsn>, v: V, i: nat)
    requires i < |code| && v in code[i].Uses()
    ensures LastRead(code, v, |code|) >= i
  {
    LastReadIsLast(code, v, |code|);
  }

  /** A register is not read before it is defined. */
  lemma ReadAfterDefinition(code: seq<XInsn>, i: nat)
    requires i < |code| && SingleAssignment(code) && code[i].Dst().Some?
    ensures var k := LastRead(code, code[i].Dst().value, |code|); k == -1 || k > i
  {
    var d := code[i].Dst().value;
    var k := LastRead(code, d, |code|);
    LastReadIsLast(code, d, |code|);
    if 0 <= k <= i {
      AssignedFits(code, k);
      AssignedFits(code, i);
      DefsGrow(code, k, i);
    }
  }

  lemma TakenIsHeld(code: seq<XInsn>, i: nat, a: Allocation, j: nat) returns (v: V)
    requires i <= |code| && Sound(code, i, a) && j < SLOTS && !a.free[j]
    ensures HoldsSlot(code, a.slot, i, v, j)
  {
    v :| HoldsSlot(code, a.slot, i, v, j);
  }

  /** A slot that is taken after an instruction is held by a register that is live there. */
  lemma TakenAfter(code: seq<XInsn>, i: nat, a: Allocation, j: nat)
    requires i < |code| && SingleAssignment(code) && Sound(code, i, a)
    requires var b := AllocateInsn(a, code, i);
      b.Allocation? && |b.free| == SLOTS && j < SLOTS && !b.free[j]
    ensures Held(code, AllocateInsn(a, code, i).slot, i + 1, j)
  {
    var insn, b := code[i], AllocateInsn(a, code, i);
    AssignedOnce(code, i);
    if insn.Dst().Some? && b.slot[insn.Dst().value] == j && LastRead(code, insn.Dst().value, |code|) != -1 {
      ReadAfterDefinition(code, i);
      assert HoldsSlot(code, b.slot, i + 1, insn.Dst().value, j);
    } else {
      var v := TakenIsHeld(code, i, a, j);
      LastReadIsLast(code, v, |code|);
      assert HoldsSlot(code, b.slot, i + 1, v, j);
    }
  }

  /** A register that is live after an instruction keeps its slot. */
  lemma HeldAfter(code: seq<XInsn>, i: nat, a: Allocation, v: V)
    requires i < |code| && SingleAssignment(code) && Sound(code, i, a) && Live(code, v, i + 1)
    requires AllocateInsn(a, code, i).Allocation?
    ensures var b := AllocateInsn(a, code, i);
      |b.free| == SLOTS && v in b.slot && b.slot[v] < SLOTS && !b.free[b.slot[v]]
  {
    hide XInsn.Uses, XInsn.Dst, LastRead;
    var b := AllocateInsn(a, code, i);
    if v in DefsX(code, i) {
      assert HoldsSlot(code, a.slot, i, v, a.slot[v]);
      assert Held(code, a.slot, i, a.slot[v]);
    }
    forall u | u in code[i].Uses() && LastRead(code, u, |code|) == i && u in b.slot
      ensures b.slot[u] != b.slot[v]
    {
      ReleasedElsewhere(code, i, a, u, v);
    }
  }

  /** An operand that is read for the last time does not share its slot with what stays live. */
  lemma ReleasedElsewhere(code: seq<XInsn>, i: nat, a: Allocation, u: V, v: V)
    requires i < |code| && SingleAssignment(code) && Sound(code, i, a) && Live(code, v, i + 1)
    requires AllocateInsn(a, code, i).Allocation?
    requires u in code[i].Uses() && LastRead(code, u, |code|) == i
    ensures var slot := AllocateInsn(a, code, i).slot;
      u in slot && v in slot && slot[u] != slot[v]
  {
    AssignedOnce(code, i);
    assert Live(code, u, i) && u != v;
    assert HoldsSlot(code, a.slot, i, u, a.slot[u]);
    assert Held(code, a.slot, i, a.slot[u]);
    if v in DefsX(code, i) {
      assert Live(code, v, i);
    }
  }

  /** Two registers that are live after an instruction have different slots. */
  lemma ApartAfter(code: seq<XInsn>, i: nat, a: Allocation, u: V, v: V)
    requires i < |code| && SingleAssignment(code) && Sound(code, i, a)
    requires Live(code, u, i + 1) && Live(code, v, i + 1) && u != v
    requires AllocateInsn(a, code, i).Allocation?
    ensures var b := AllocateInsn(a, code, i);
      u in b.slot && v in b.slot && b.slot[u] != b.slot[v]
  {
    if u in DefsX(code, i) {
      assert HoldsSlot(code, a.slot, i, u, a.slot[u]);
    }
    if v in DefsX(code, i) {
      assert HoldsSlot(code, a.slot, i, v, a.slot[v]);
    }
  }

  lemma SoundAfter(code: seq<XInsn>, i: nat, a: Allocation)
    requires i < |code| && SingleAssignment(code) && Sound(code, i, a)
    requires AllocateInsn(a, code, i).Allocation?
    ensures Sound(code, i + 1, AllocateInsn(a, code, i))
  {
    var b := AllocateInsn(a, code, i);
    assert |b.free| == SLOTS && b.slot.Keys == DefsX(code, i + 1);
    hide AllocateInsn, SingleAssignment, Live, DefsX;
    forall j | 0 <= j < SLOTS
      ensures !b.free[j] <==> Held(code, b.slot, i + 1, j)
    {
      if !b.free[j] {
        TakenAfter(code, i, a, j);
      }
      if Held(code, b.slot, i + 1, j) {
        var v :| HoldsSlot(code, b.slot, i + 1, v, j);
        HeldAfter(code, i, a, v);
      }
    }
    forall u, v | Live(code, u, i + 1) && Live(code, v, i + 1) && u != v
      ensures b.slot[u] != b.slot[v]
    {
      ApartAfter(code, i, a, u, v);
    }
  }

  lemma {:induction false} AllocationIsSound(code: seq<XInsn>, i: nat)
    requires i <= |code| && SingleAssignment(code) && AllocateTo(code, i).Allocation?
    ensures Sound(code, i, AllocateTo(code, i))
  {
    hide AllocateInsn, SingleAssignment;
    if i == 0 {
      NothingTaken(code);
    } else {
      AllocatedNext(code, i - 1);
      hide Sound, AllocateTo;
      AllocationIsSound(code, i - 1);
      SoundAfter(code, i - 1, AllocateTo(code, i - 1));
    }
  }

  lemma NothingTaken(code: seq<XInsn>)
    ensures Sound(code, 0, AllocateTo(code, 0))
  {
    assert DefsX(code, 0) == {};
    hide LastRead, DefsX;
  }

  lemma AllocatedNext(code: seq<XInsn>, i: nat)
    requires i < |code|
    ensures AllocateTo(code, i + 1) == AllocateInsn(AllocateTo(code, i), code, i)
    ensures AllocateTo(code, i + 1).Allocation? ==> AllocateTo(code, i).Allocation?
  {
  }

  /** The slots given to registers are never changed. */
  lemma {:induction false} SlotsStay(code: seq<XInsn>, i: nat, j: nat)
    requires i <= j <= |code| && SingleAssignment(code) && AllocateTo(code, j).Allocation?
    ensures AllocateTo(code, i).Allocation?
    ensures Extends(AllocateTo(code, i).slot, AllocateTo(code, j).slot)
    decreases j
  {
    hide AllocateTo, SingleAssignment;
    if i < j {
      SlotsStayOnce(code, j);
      SlotsStay(code, i, j - 1);
    }
  }

  lemma SlotsStayOnce(code: seq<XInsn>, j: nat)
    requires 0 < j <= |code| && SingleAssignment(code) && AllocateTo(code, j).Allocation?
    ensures AllocateTo(code, j - 1).Allocation?
    ensures Extends(AllocateTo(code, j - 1).slot, AllocateTo(code, j).slot)
  {
    var a := AllocateTo(code, j - 1);
    hide AllocateTo, AllocateInsn, Sound, SingleAssignment, Extends;
    AllocatedNext(code, j - 1);
    AllocationIsSound(code, j - 1);
    StepKeepsSlots(code, j - 1, a);
  }

  ghost predicate Extends(s: map<V, nat>, t: map<V, nat>) {
    forall v :: v in s ==> v in t && t[v] == s[v]
  }

  lemma StepKeepsSlots(code: seq<XInsn>, i: nat, a: Allocation)
    requires i < |code| && SingleAssignment(code) && Sound(code, i, a) && AllocateInsn(a, code, i).Allocation?
    ensures var b := AllocateInsn(a, code, i);
      && Extends(a.slot, b.slot)
      && (code[i].Dst().Some? ==> code[i].Dst().value in b.slot && a.free[b.slot[code[i].Dst().value]])
  {
    AssignedFits(code, i);
    hide DefsX, LastRead;
  }

  // ---------------------------------------------------------------- what it guarantees

  /** No two registers share a slot while both are live. */
  lemma LiveAreApart(code: seq<XInsn>, i: nat, u: V, v: V)
    requires i <= |code| && SingleAssignment(code) && Allocate(code).Allocation?
    requires Live(code, u, i) && Live(code, v, i) && u != v
    ensures u in Allocate(code).slot && v in Allocate(code).slot
    ensures Allocate(code).slot[u] != Allocate(code).slot[v]
    ensures Allocate(code).slot[u] < SLOTS
  {
    SlotsStay(code, i, |code|);
    AllocationIsSound(code, i);
  }

  /** The destination of an instruction is apart from all its operands and from all that is read later. */
  lemma DestinationIsApart(code: seq<XInsn>, i: nat, u: V)
    requires i < |code| && SingleAssignment(code) && Allocate(code).Allocation?
    requires code[i].Dst().Some? && Live(code, u, i)
    ensures var slot, d := Allocate(code).slot, code[i].Dst().value;
      && d in slot && u in slot && d != u && slot[d] != slot[u] && slot[d] < SLOTS && slot[u] < SLOTS
  {
    SlotsStay(code, i + 1, |code|);
    SlotsStay(code, i, i + 1);
    AllocationIsSound(code, i);
    AllocationIsSound(code, i + 1);
    var a := AllocateTo(code, i);
    StepKeepsSlots(code, i, a);
    assert HoldsSlot(code, a.slot, i, u, a.slot[u]);
    assert Held(code, a.slot, i, a.slot[u]);
    hide Live, AllocateInsn, HoldsSlot, AllocateTo;
  }

  /** Operands are live where they are read. */
  lemma OperandsAreLive(code: seq<XInsn>, i: nat, v: V)
    requires i < |code| && SingleAssignment(code) && v in code[i].Uses()
    ensures Live(code, v, i)
  {
    AssignedFits(code, i);
    LaterRead(code, v, i);
    hide DefsX, LastRead;
  }

  /** Allocation fails at an instruction exactly if it defines a register while all eight slots are held by
      registers whose last read is at the instruction or after it. */
  lemma ExhaustedExactly(code: seq<XInsn>, i: nat)
    requires i < |code| && SingleAssignment(code) && AllocateTo(code, i).Allocation?
    ensures AllocateTo(code, i + 1).Exhausted? <==>
      code[i].Dst().Some?
      && forall j :: 0 <= j < SLOTS ==> Held(code, AllocateTo(code, i).slot, i, j)
  {
    AllocationIsSound(code, i);
    var a := AllocateTo(code, i);
    assert AllocateTo(code, i + 1) == AllocateInsn(a, code, i);
    var k := FirstFree(a.free, 0);
    hide AllocateTo, HoldsSlot, Live;
    if k < SLOTS {
      assert !Held(code, a.slot, i, k);
    }
  }

  /** The registers that are live before instruction i. */
  ghost function LiveAt(code: seq<XInsn>, i: nat): set<V>
    requires i <= |code|
  {
    set v | v in DefsX(code, i) && LastRead(code, v, |code|) >= i
  }

  lemma {:induction false} InjectionGrows<A, B>(s: set<A>, f: map<A, B>, t: set<B>)
    requires s <= f.Keys && (forall x :: x in s ==> f[x] in t)
    requires forall x, y :: x in s && y in s && x != y ==> f[x] != f[y]
    ensures |s| <= |t|
  {
    if s != {} {
      var x :| x in s;
      InjectionGrows(s - {x}, f, t - {f[x]});
    }
  }

  ghost function SlotSet(n: nat): set<nat> {
    if n == 0 then {} else SlotSet(n - 1) + {n - 1}
  }

  lemma {:induction false} SlotSetIs(n: nat)
    ensures |SlotSet(n)| == n && forall j: nat :: j in SlotSet(n) <==> j < n
  {
    if n > 0 {
      SlotSetIs(n - 1);
    }
  }

  /** All slots are held exactly if eight registers are live. */
  lemma HeldByLive(code: seq<XInsn>, i: nat, a: Allocation)
    requires i <= |code| && Sound(code, i, a)
    ensures (forall j :: 0 <= j < SLOTS ==> Held(code, a.slot, i, j)) <==> |LiveAt(code, i)| >= SLOTS
  {
    hide *;
    SoundIsAllocation(code, i, a);
    if j: nat :| j < SLOTS && !Held(code, a.slot, i, j) {
      SomeNotHeld(code, i, a, j);
    } else {
      AllHeld(code, i, a.slot);
    }
  }

  lemma SoundIsAllocation(code: seq<XInsn>, i: nat, a: Allocation)
    requires i <= |code| && Sound(code, i, a)
    ensures a.Allocation?
  {
  }

  lemma SomeNotHeld(code: seq<XInsn>, i: nat, a: Allocation, k: nat)
    requires i <= |code| && Sound(code, i, a) && k < SLOTS && !Held(code, a.slot, i, k)
    ensures |LiveAt(code, i)| < SLOTS
  {
    SlotSetIs(SLOTS);
    LiveAreHolders(code, i, a);
    hide LiveAt, Sound;
    forall v | v in LiveAt(code, i)
      ensures a.slot[v] in SlotSet(SLOTS) - {k}
    {
      assert HoldsSlot(code, a.slot, i, v, a.slot[v]);
    }
    hide HoldsSlot;
    InjectionGrows(LiveAt(code, i), a.slot, SlotSet(SLOTS) - {k});
  }

  lemma LiveAreHolders(code: seq<XInsn>, i: nat, a: Allocation)
    requires i <= |code| && Sound(code, i, a)
    ensures LiveAt(code, i) <= a.slot.Keys
    ensures forall v :: v in LiveAt(code, i) ==> a.slot[v] < SLOTS && HoldsSlot(code, a.slot, i, v, a.slot[v])
    ensures forall u, v :: u in LiveAt(code, i) && v in LiveAt(code, i) && u != v ==> a.slot[u] != a.slot[v]
  {
    hide LastRead, DefsX;
  }

  lemma AllHeld(code: seq<XInsn>, i: nat, slot: map<V, nat>)
    requires i <= |code| && forall j :: 0 <= j < SLOTS ==> Held(code, slot, i, j)
    ensures |LiveAt(code, i)| >= SLOTS
  {
    var holder: map<nat, V> := map j: nat | j < SLOTS :: Holder(code, slot, i, j);
    SlotSetIs(SLOTS);
    forall j | j in SlotSet(SLOTS)
      ensures holder[j] in LiveAt(code, i) && slot[holder[j]] == j
    {
    }
    hide LiveAt, Held;
    InjectionGrows(SlotSet(SLOTS), holder, LiveAt(code, i));
  }

  ghost function Holder(code: seq<XInsn>, slot: map<V, nat>, i: nat, j: nat): (v: V)
    requires i <= |code| && Held(code, slot, i, j)
    ensures HoldsSlot(code, slot, i, v, j)
  {
    var v :| HoldsSlot(code, slot, i, v, j);
    v
  }

  /** All registers get slots exactly if fewer than eight are live wherever one more is defined. */
  lemma {:induction false} FitsExactly(code: seq<XInsn>, n: nat)
    requires n <= |code| && SingleAssignment(code)
    ensures AllocateTo(code, n).Allocation?
       <==> forall i :: 0 <= i < n && code[i].Dst().Some? ==> |LiveAt(code, i)| < SLOTS
  {
    hide LiveAt, SingleAssignment, AllocateInsn;
    if n > 0 {
      FitsExactly(code, n - 1);
      if AllocateTo(code, n - 1).Allocation? {
        AllocationIsSound(code, n - 1);
        ExhaustedExactly(code, n - 1);
        HeldByLive(code, n - 1, AllocateTo(code, n - 1));
      } else {
        StaysExhausted(code, n);
      }
    }
  }

  lemma StaysExhausted(code: seq<XInsn>, n: nat)
    requires 0 < n <= |code| && AllocateTo(code, n - 1).Exhausted?
    ensures AllocateTo(code, n).Exhausted?
  {
  }

  // ---------------------------------------------------------------- lowered code

  /** A block whose instructions only use what is defined before and define something new. */
  ghost predicate Extension(defs: set<V>, block: seq<XInsn>)
    decreases |block|
  {
    block != [] ==>
      && Fits(block[0], defs)
      && Extension(defs + GivenV(block[0].Dst()), block[1..])
  }

  lemma {:induction false} DefsOfPrefix(code: seq<XInsn>, more: seq<XInsn>, i: nat)
    requires i <= |code|
    ensures DefsX(code + more, i) == DefsX(code, i)
  {
    if i > 0 {
      DefsOfPrefix(code, more, i - 1);
    }
  }

  lemma ExtendByOne(code: seq<XInsn>, insn: XInsn)
    requires SingleAssignment(code)
    requires Fits(insn, DefsX(code, |code|))
    ensures SingleAssignment(code + [insn])
    ensures DefsX(code + [insn], |code| + 1) == DefsX(code, |code|) + GivenV(insn.Dst())
  {
    var longer := code + [insn];
    DefsOfLonger(code, insn, longer);
    hide *;
    forall i | 0 <= i < |longer|
      ensures Fits(longer[i], DefsX(longer, i))
    {
      FitsAt(code, insn, longer, i);
    }
    FitEverywhere(longer);
  }

  lemma FitEverywhere(code: seq<XInsn>)
    requires forall i :: 0 <= i < |code| ==> Fits(code[i], DefsX(code, i))
    ensures SingleAssignment(code)
  {
  }

  lemma DefsOfLonger(code: seq<XInsn>, insn: XInsn, longer: seq<XInsn>)
    requires longer == code + [insn]
    ensures DefsX(longer, |code| + 1) == DefsX(code, |code|) + GivenV(insn.Dst())
  {
    DefsOfPrefix(code, [insn], |code|);
    var n := |code|;
    assert longer[n] == insn;
    hide GivenV, XInsn.Dst;
  }

  lemma FitsAt(code: seq<XInsn>, insn: XInsn, longer: seq<XInsn>, i: nat)
    requires SingleAssignment(code) && Fits(insn, DefsX(code, |code|)) && i <= |code|
    requires longer == code + [insn]
    ensures Fits(longer[i], DefsX(longer, i))
  {
    hide Fits, DefsX;
    DefsOfPrefix(code, [insn], i);
    if i < |code| {
      AssignedFits(code, i);
      assert longer[i] == code[i];
    } else {
      assert longer[i] == insn;
    }
  }

  lemma {:induction false} ExtendByBlock(code: seq<XInsn>, block: seq<XInsn>)
    requires SingleAssignment(code) && Extension(DefsX(code, |code|), block)
    ensures SingleAssignment(code + block)
    decreases |block|
  {
    if block == [] {
      assert code + block == code;
    } else {
      ExtendByOne(code, block[0]);
      ExtendByBlock(code + [block[0]], block[1..]);
      assert code + [block[0]] + block[1..] == code + block;
    }
  }

  lemma {:induction false} DefsOfBlock(code: seq<XInsn>, block: seq<XInsn>, v: V)
    ensures v in DefsX(code + block, |code + block|) <==>
      v in DefsX(code, |code|) || exists k :: 0 <= k < |block| && v in GivenV(block[k].Dst())
    decreases |block|
  {
    if block == [] {
      assert code + block == code;
    } else {
      var init, last := block[..|block| - 1], block[|block| - 1];
      DefsOfBlock(code, init, v);
      DefsOfPrefix(code + init, [last], |code + init|);
      assert code + init + [last] == code + block;
    }
  }

  function Owner(v: V): Reg { if v.Of? then v.reg else v.owner }

  /** The registers of the lowered prefix: those of its IR registers that are read, and temporaries. */
  ghost predicate Named(ir: seq<IrInsn>, used: set<Reg>, i: nat, defs: set<V>)
    requires i <= |ir|
  {
    && (forall v :: v in defs ==> Owner(v) in Defs(ir, i))
    && (forall r :: r in Defs(ir, i) && r in used ==> Of(r) in defs)
  }

  lemma LowerExtends(ir: seq<IrInsn>, types: seq<Width>, used: set<Reg>, i: nat, code: seq<XInsn>)
    requires i < |ir| && WellFormed(ir, types) && ir[i].Uses() <= used
    requires Named(ir, used, i, DefsX(code, |code|))
    ensures Extension(DefsX(code, |code|), LowerInsn(ir[i], types, used, code))
  {
    var insn, defs := ir[i], DefsX(code, |code|);
    assert insn.Uses() <= Defs(ir, i) && Given(insn.Dst()) !! Defs(ir, i);
    hide WellFormed, DefsX, Defs, LowerInsn, IrInsn.Uses, IrInsn.Dst;
    forall v | v in defs && insn.Dst().Some?
      ensures Owner(v) != insn.Dst().value
    {
      assert Owner(v) in Defs(ir, i);
    }
    BlockExtends(insn, types, used, code, defs);
  }

  lemma BlockExtends(insn: IrInsn, types: seq<Width>, used: set<Reg>, code: seq<XInsn>, defs: set<V>)
    requires forall r :: r in insn.Uses() ==> Of(r) in defs
    requires insn.Dst().Some? ==> forall v :: v in defs ==> Owner(v) != insn.Dst().value
    ensures Extension(defs, LowerInsn(insn, types, used, code))
  {
    var block := LowerInsn(insn, types, used, code);
    if IsNarrowAsr(insn) {
      AsrExtension(defs, insn, types, used, code);
    } else if |block| == 1 {
      LiftedUses(insn, types, used, code);
      SingleExtends(insn, block, defs);
    }
  }

  lemma SingleExtends(insn: IrInsn, block: seq<XInsn>, defs: set<V>)
    requires forall r :: r in insn.Uses() ==> Of(r) in defs
    requires insn.Dst().Some? ==> forall v :: v in defs ==> Owner(v) != insn.Dst().value
    requires |block| == 1 && block[0].Dst() == Lift(insn.Dst())
    requires forall v :: v in block[0].Uses() ==> v.Of? && v.reg in insn.Uses()
    ensures Extension(defs, block)
  {
    hide IrInsn.Uses, IrInsn.Dst, XInsn.Uses, XInsn.Dst;
    assert block[1..] == [];
  }

  lemma LiftedUses(insn: IrInsn, types: seq<Width>, used: set<Reg>, code: seq<XInsn>)
    requires !IsNarrowAsr(insn) && |LowerInsn(insn, types, used, code)| == 1
    ensures var x := LowerInsn(insn, types, used, code)[0];
      && (forall v :: v in x.Uses() ==> v.Of? && v.reg in insn.Uses())
      && x.Dst() == Lift(insn.Dst())
  {
  }

  lemma AsrExtension(defs: set<V>, insn: IrInsn, types: seq<Width>, used: set<Reg>, code: seq<XInsn>)
    requires IsNarrowAsr(insn) && Of(insn.op1) in defs && Of(insn.op2) in defs
    requires forall v :: v in defs ==> Owner(v) != insn.dst
    ensures Extension(defs, LowerInsn(insn, types, used, code))
  {
    var block := LowerInsn(insn, types, used, code);
    var t := insn.dst;
    assert block[1..][1..][1..][1..] == [];
    assert Extension(defs + {Temp(t, 0)} + {Temp(t, 1)} + {Temp(t, 2)}, block[1..][1..][1..]);
    assert Extension(defs + {Temp(t, 0)} + {Temp(t, 1)}, block[1..][1..]);
    assert Extension(defs + {Temp(t, 0)}, block[1..]);
  }

  lemma NamedAfter(ir: seq<IrInsn>, types: seq<Width>, used: set<Reg>, i: nat, code: seq<XInsn>)
    requires i < |ir| && Named(ir, used, i, DefsX(code, |code|))
    ensures var block := LowerInsn(ir[i], types, used, code);
      Named(ir, used, i + 1, DefsX(code + block, |code + block|))
  {
    var insn := ir[i];
    var block := LowerInsn(insn, types, used, code);
    var defs := DefsX(code + block, |code + block|);
    forall v | v in defs
      ensures Owner(v) in Defs(ir, i + 1)
    {
      DefsOfBlock(code, block, v);
    }
    forall r | r in Defs(ir, i + 1) && r in used
      ensures Of(r) in defs
    {
      DefsOfBlock(code, block, Of(r));
      if r !in Defs(ir, i) {
        assert Of(r) in GivenV(block[|block| - 1].Dst());
      }
    }
  }

  /** The lowered code is in single assignment form if the IR is. */
  lemma {:induction false} LoweredTo(ir: seq<IrInsn>, types: seq<Width>, i: nat)
    requires i <= |ir| && WellFormed(ir, types)
    ensures var code := LowerTo(ir, types, UsedBy(ir, |ir|), i);
      SingleAssignment(code) && Named(ir, UsedBy(ir, |ir|), i, DefsX(code, |code|))
  {
    hide SingleAssignment, Named, WellFormed, LowerInsn, UsedBy, Extension;
    NothingLowered(ir, types);
    if i > 0 {
      var used := UsedBy(ir, |ir|);
      LoweredTo(ir, types, i - 1);
      var code := LowerTo(ir, types, used, i - 1);
      UsesAreUsed(ir, i - 1, |ir|);
      LowerExtends(ir, types, used, i - 1, code);
      ExtendByBlock(code, LowerInsn(ir[i - 1], types, used, code));
      NamedAfter(ir, types, used, i - 1, code);
    }
  }

  lemma NothingLowered(ir: seq<IrInsn>, types: seq<Width>)
    ensures SingleAssignment([]) && Named(ir, UsedBy(ir, |ir|), 0, DefsX([], 0))
  {
  }
}
