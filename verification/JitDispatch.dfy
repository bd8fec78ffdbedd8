/**
 The guest that the dispatch loop runs, made of compiled blocks.  What the loop takes for granted of a guest
 program, that a patchable exit always returns the same pc, is what the code generator guarantees.
 */
module JitDispatch {
  import opened Wrappers
  import opened Words
  import opened JitIr
  import opened JitBits
  import opened JitMachine
  import opened JitCompile
  import opened JitLink
  import Dispatch

  /** The IR for the block at a pc, with the types of its registers. */
  datatype Translation = Translation(ir: seq<IrInsn>, types: seq<Width>)

  /** The translation compiles, and its code fits into the buffer of the dispatch loop. */
  ghost predicate Compiles(t: Translation) {
    && WellFormed(t.ir, t.types) && JitCompile.Fits(t.ir, t.types) && |Compile(t.ir, t.types)| < W64 - 10
    && 0 < Bytes(Compile(t.ir, t.types)) <= 16 * 1024
  }

  /** What a block reports in rax and rdx; a block that falls off its end reports nothing of use. */
  ghost function Report<W>(r: MOutcome<W>, w: W): Dispatch.Execution<W> {
    if r.Returned? then
      Dispatch.Execution(if r.link == 0 then None else Some(r.link), r.value, r.world)
    else Dispatch.Execution(None, 0, w)
  }

  /** One block from the state of the machine in which the loop enters it. */
  ghost function RunBlock<W>(h: Host<W>, enter: W -> Machine<W>, t: Translation, w: W): Dispatch.Execution<W> {
    if Compiles(t) then Report(Run(h, Compile(t.ir, t.types), 0, enter(w)), w)
    else Dispatch.Execution(None, 0, w)
  }

  ghost predicate LeavesThrough<W>(h: Host<W>, enter: W -> Machine<W>, t: Translation, w: W, link: nat) {
    RunBlock(h, enter, t, w).exit == Some(link)
  }

  ghost function SomeState<W(!new)>(h: Host<W>, enter: W -> Machine<W>, t: Translation, link: nat): (w: W)
    requires exists w :: LeavesThrough(h, enter, t, w, link)
    ensures LeavesThrough(h, enter, t, w, link)
  {
    var w :| LeavesThrough(h, enter, t, w, link);
    w
  }

  /** The pc that a patchable exit returns, whatever the state: that of some run that leaves through it. */
  ghost function ExitPc<W(!new)>(h: Host<W>, enter: W -> Machine<W>, t: Translation, link: nat): nat {
    if exists w :: LeavesThrough(h, enter, t, w, link)
    then RunBlock(h, enter, t, SomeState(h, enter, t, link)).next
    else 0
  }

  ghost function Size(t: Translation): nat {
    if Compiles(t) then Bytes(Compile(t.ir, t.types)) else 0
  }

  ghost function CompiledGuest<W(!new)>(h: Host<W>, enter: W -> Machine<W>, translate: nat -> Translation,
                                        looping: W -> bool): Dispatch.Guest<W>
  {
    Dispatch.Guest(
      (pc: nat) => Size(translate(pc)),
      (pc: nat, w: W) => RunBlock(h, enter, translate(pc), w),
      (pc: nat, link: nat) => ExitPc(h, enter, translate(pc), link),
      looping)
  }

  /** Compiled blocks are a guest program as the dispatch loop needs it. */
  lemma CompiledGuestIsWellBehaved<W(!new)>(h: Host<W>, enter: W -> Machine<W>, translate: nat -> Translation,
                                            looping: W -> bool)
    requires forall pc :: Compiles(translate(pc))
    ensures Dispatch.WellBehaved(CompiledGuest(h, enter, translate, looping))
  {
    hide Compiles, RunBlock, ExitPc, Size;
    var g := CompiledGuest(h, enter, translate, looping);
    forall pc: nat, w: W
      ensures var e := g.run(pc, w); e.exit.Some? ==> e.next == g.constant(pc, e.exit.value)
    {
      SameExitSamePc(h, enter, translate(pc), w);
    }
    forall pc: nat
      ensures 0 < g.size(pc) <= 16 * 1024
    {
      SizeFits(translate(pc));
    }
  }

  lemma SizeFits(t: Translation)
    requires Compiles(t)
    ensures 0 < Size(t) <= 16 * 1024
  {
    hide Compile, Bytes, WellFormed, JitCompile.Fits;
  }

  lemma SameExitSamePc<W(!new)>(h: Host<W>, enter: W -> Machine<W>, t: Translation, w: W)
    requires Compiles(t)
    ensures var e := RunBlock(h, enter, t, w); e.exit.Some? ==> e.next == ExitPc(h, enter, t, e.exit.value)
  {
    hide Compiles, RunBlock;
    var e := RunBlock(h, enter, t, w);
    if e.exit.Some? {
      var link := e.exit.value;
      assert LeavesThrough(h, enter, t, w, link);
      SameLink(h, enter, t, w, SomeState(h, enter, t, link), link);
    }
  }

  lemma SameLink<W>(h: Host<W>, enter: W -> Machine<W>, t: Translation, w: W, w': W, link: nat)
    requires Compiles(t) && LeavesThrough(h, enter, t, w, link) && LeavesThrough(h, enter, t, w', link)
    ensures RunBlock(h, enter, t, w).next == RunBlock(h, enter, t, w').next
  {
    hide Run, Compile, WellFormed, JitCompile.Fits, Bytes;
    LinkDeterminesValue(h, h, t.ir, t.types, enter(w), enter(w'));
  }

  /** It makes no difference whether a block is entered from the loop or through a link: with the same context and
      world, whatever the other registers hold, it reports the same exit, pc and world. */
  lemma EntryDoesNotMatter<W>(h: Host<W>, enter: W -> Machine<W>, enter': W -> Machine<W>, t: Translation,
                              promised: set<Reg>, w: W)
    requires Compiles(t) && Supported(t.ir, promised)
    requires enter(w).world == w == enter'(w).world && enter(w).regs[RDI] == enter'(w).regs[RDI]
    requires PromisesKept(OnX86(h), enter(w).regs[RDI], t.ir, promised, 0, map[], w)
    ensures RunBlock(h, enter, t, w) == RunBlock(h, enter', t, w)
  {
    hide Run, Compile, WellFormed, JitCompile.Fits, Bytes, Supported, PromisesKept;
    RegistersDoNotMatter(h, t.ir, t.types, promised, enter(w), enter'(w));
  }
}
