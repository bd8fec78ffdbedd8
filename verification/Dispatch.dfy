/**
 The dispatch loop.  Exits of cached blocks are patched to jump straight to other blocks; the guest still runs
 through the same sequence of pcs as without any patching, and chains of linked blocks are finite.
 */
module Dispatch {
  import opened Wrappers
  import opened Cache

  /** What the execution of one block reports: the patchable exit that it left through, if any. */
  datatype Execution<+S> = Execution(exit: Option<nat>, next: nat, state: S)

  /** The guest program: for each pc the size and the behaviour of its translation. */
  datatype Guest<!S> = Guest(size: nat -> nat, run: (nat, S) -> Execution<S>, constant: (nat, nat) -> nat, looping: S -> bool)

  /** A patchable exit always returns the same pc; translations fit into the buffer of the loop. */
  ghost predicate WellBehaved<S(!new)>(g: Guest<S>) {
    && (forall pc, s :: var e := g.run(pc, s); e.exit.Some? ==> e.next == g.constant(pc, e.exit.value))
    && forall pc :: 0 < g.size(pc) <= 16 * 1024
  }

  // ---------------------------------------------------------------- without links

  /** The pcs of the first n blocks when every block returns to the dispatcher. */
  function Pcs<S>(g: Guest<S>, pc: nat, s: S, n: nat): seq<nat>
    decreases n
  {
    if n == 0 then []
    else
      var e := g.run(pc, s);
      [pc] + Pcs(g, e.next, e.state, n - 1)
  }

  function After<S>(g: Guest<S>, pc: nat, s: S, n: nat): (nat, S)
    decreases n
  {
    if n == 0 then (pc, s)
    else
      var e := g.run(pc, s);
      After(g, e.next, e.state, n - 1)
  }

  lemma {:induction false} RunsCompose<S>(g: Guest<S>, pc: nat, s: S, m: nat, n: nat)
    ensures var (pc', s') := After(g, pc, s, m);
      && Pcs(g, pc, s, m + n) == Pcs(g, pc, s, m) + Pcs(g, pc', s', n)
      && After(g, pc, s, m + n) == After(g, pc', s', n)
    decreases m
  {
    if m == 0 {
      assert Pcs(g, pc, s, 0) + Pcs(g, pc, s, n) == Pcs(g, pc, s, n);
    } else {
      var e := g.run(pc, s);
      RunsCompose(g, e.next, e.state, m - 1, n);
    }
  }

  /** Block i is the one at which the guest has arrived after i blocks, each of which ran from the state left by
      the one before. */
  lemma PcsAre<S>(g: Guest<S>, pc: nat, s: S, n: nat, i: nat)
    requires i < n
    ensures |Pcs(g, pc, s, n)| == n && After(g, pc, s, 0) == (pc, s)
    ensures var (pc', s') := After(g, pc, s, i);
      var e := g.run(pc', s');
      Pcs(g, pc, s, n)[i] == pc' && After(g, pc, s, i + 1) == (e.next, e.state)
  {
    var (pc', s') := After(g, pc, s, i);
    var e := g.run(pc', s');
    PcsLength(g, pc, s, n);
    PcsLength(g, pc, s, i);
    RunsCompose(g, pc, s, i, n - i);
    RunsCompose(g, pc, s, i, 1);
    assert After(g, pc', s', 1) == After(g, e.next, e.state, 0) == (e.next, e.state);
    assert Pcs(g, pc', s', n - i) == [pc'] + Pcs(g, e.next, e.state, n - i - 1);
    hide Pcs, After;
  }

  lemma NothingRun<S>(g: Guest<S>, pc: nat, s: S)
    ensures Pcs(g, pc, s, 0) == [] && After(g, pc, s, 0) == (pc, s)
  {
  }

  /** Only the cache and the patched exits matter for what a miss has done. */
  lemma SameCache<S>(g: Guest<S>, m: Moment<S>, e: Moment<S>, t: Moment<S>, m': Moment<S>)
    requires e.pc == m.pc && e.patched == m.patched
    requires t.order == m'.order && t.arena == m'.arena && t.contents == m'.contents && t.writePos == m'.writePos
    requires t.patched == m'.patched
    ensures RestartedIn(g, e, t) ==> RestartedIn(g, m, m')
    ensures e == m && TranslatedIn(g, e, t) ==> TranslatedIn(g, m, m')
  {
  }

  lemma NoPassYet<S>(g: Guest<S>, areaSize: nat, m: Moment<S>, cleanRequests: seq<bool>)
    ensures Passes(g, areaSize, [m], cleanRequests)
  {
  }

  lemma OnePassMore<S>(g: Guest<S>, areaSize: nat, history: seq<Moment<S>>, m: Moment<S>, cleanRequests: seq<bool>)
    requires Passes(g, areaSize, history, cleanRequests) && 0 < |history| <= |cleanRequests|
    requires g.looping(history[|history| - 1].state)
    requires Pass(g, areaSize, history[|history| - 1], m, cleanRequests[|history| - 1])
    ensures Passes(g, areaSize, history + [m], cleanRequests)
  {
    hide Pass;
  }

  lemma {:induction false} PcsLength<S>(g: Guest<S>, pc: nat, s: S, n: nat)
    ensures |Pcs(g, pc, s, n)| == n
    decreases n
  {
    if n > 0 {
      var e := g.run(pc, s);
      PcsLength(g, e.next, e.state, n - 1);
    }
  }

  // ---------------------------------------------------------------- with links

  /** Where a run ends that starts in block k: the block and the exit that it leaves through, the next pc, the
      state, and the number of blocks. */
  datatype Left<+S> = Left(block: nat, exit: Option<nat>, pc: nat, state: S, blocks: nat)

  /** From block k through patched exits; `limit` bounds the addresses of the blocks. */
  ghost function Follow<S>(g: Guest<S>, order: seq<nat>, arena: map<int, Block>, patched: map<nat, map<nat, nat>>,
                           limit: nat, k: nat, s: S): Left<S>
    requires Linked(g, order, arena, patched) && k in order && forall i :: 0 <= i < |order| ==> order[i] < limit
    decreases limit - k
  {
    LinksOf(g, order, arena, patched, k);
    var e := g.run(arena[k].guestPc, s);
    if e.exit.Some? && e.exit.value in patched[k] then
      var left := Follow(g, order, arena, patched, limit, patched[k][e.exit.value], e.state);
      left.(blocks := left.blocks + 1)
    else Left(k, e.exit, e.next, e.state, 1)
  }

  /** The code of a live block: its patched exits lead to later blocks, for the pc that they return. */
  ghost predicate SoundLinks<S>(g: Guest<S>, order: seq<nat>, arena: map<int, Block>, patched: map<nat, map<nat, nat>>, k: nat) {
    && k in arena && k in patched
    && forall e :: e in patched[k] ==>
         patched[k][e] in order && patched[k][e] in arena && k < patched[k][e]
         && arena[patched[k][e]].guestPc == g.constant(arena[k].guestPc, e)
  }

  /** backend->patch. */
  function Patch(patched: map<nat, map<nat, nat>>, from: nat, exit: nat, target: nat): map<nat, map<nat, nat>>
    requires from in patched
  {
    var exits: map<nat, nat> := patched[from];
    var more: map<nat, nat> := exits[exit := target];
    patched[from := more]
  }

  /** `prevCurrentPc < currentPc && result.link_patch_area`. */
  predicate Guard(prevPc: nat, pc: nat, link: Option<(nat, nat)>) { prevPc < pc && link.Some? }

  /** The patched exits after the block for the current pc has been appended at k. */
  function LinkedTo(patched: map<nat, map<nat, nat>>, prevPc: nat, pc: nat, link: Option<(nat, nat)>, k: nat): map<nat, map<nat, nat>>
  {
    var more := patched[k := map[]];
    if Guard(prevPc, pc, link) && link.value.0 in more then Patch(more, link.value.0, link.value.1, k) else more
  }

  /** The new block has no patched exits, the exit that led to it jumps to it if the guard says so, and every other
      exit of every block is as it was. */
  lemma LinkedToIs(patched: map<nat, map<nat, nat>>, prevPc: nat, pc: nat, link: Option<(nat, nat)>, k: nat, b: nat, e: nat)
    requires link.Some? ==> link.value.0 in patched && link.value.0 != k
    ensures var p := LinkedTo(patched, prevPc, pc, link, k);
      && p.Keys == patched.Keys + {k} && p[k] == map[]
      && (b in patched && b != k ==>
            if link == Some((b, e)) && prevPc < pc then e in p[b] && p[b][e] == k
            else (e in p[b] <==> e in patched[b]) && (e in patched[b] ==> p[b][e] == patched[b][e]))
  {
  }

  ghost predicate Linked<S>(g: Guest<S>, order: seq<nat>, arena: map<int, Block>, patched: map<nat, map<nat, nat>>) {
    forall i :: 0 <= i < |order| ==> SoundLinks(g, order, arena, patched, order[i])
  }

  /** The exit that was left through: in a live block, not patched, and returning the current pc. */
  ghost predicate LiveExit<S>(g: Guest<S>, order: seq<nat>, arena: map<int, Block>, patched: map<nat, map<nat, nat>>,
                              link: (nat, nat), pc: nat) {
    && link.0 in order && link.0 in arena && link.0 in patched && link.1 !in patched[link.0]
    && g.constant(arena[link.0].guestPc, link.1) == pc
  }

  /** Block i of a chain leads to the next one through a patched exit; the last one leaves through an exit that is
      not patched. */
  ghost predicate ChainAt<S>(g: Guest<S>, arena: map<int, Block>, patched: map<nat, map<nat, nat>>, path: seq<nat>,
                             states: seq<S>, left: Left<S>, i: nat)
    requires i < |path| == |states|
  {
    && path[i] in arena && path[i] in patched
    && var e := g.run(arena[path[i]].guestPc, states[i]);
       if i < |path| - 1 then
         && e.exit.Some? && e.exit.value in patched[path[i]]
         && path[i + 1] == patched[path[i]][e.exit.value] && states[i + 1] == e.state
       else
         && left == Left(path[i], e.exit, e.next, e.state, |path|)
         && (e.exit.Some? ==> e.exit.value !in patched[path[i]])
  }

  ghost predicate IsChain<S>(g: Guest<S>, arena: map<int, Block>, patched: map<nat, map<nat, nat>>, path: seq<nat>,
                             states: seq<S>, left: Left<S>) {
    && |path| == |states| == left.blocks && |path| > 0
    && forall i :: 0 <= i < |path| ==> ChainAt(g, arena, patched, path, states, left, i)
  }

  /** The run from a block is the chain of the blocks that its patched exits lead to. */
  lemma {:induction false} FollowIsChain<S>(g: Guest<S>, order: seq<nat>, arena: map<int, Block>,
                                            patched: map<nat, map<nat, nat>>, limit: nat, k: nat, s: S)
    returns (path: seq<nat>, states: seq<S>)
    requires Linked(g, order, arena, patched) && k in order && forall i :: 0 <= i < |order| ==> order[i] < limit
    ensures IsChain(g, arena, patched, path, states, Follow(g, order, arena, patched, limit, k, s))
    ensures path[0] == k && states[0] == s
    decreases limit - k
  {
    LinksOf(g, order, arena, patched, k);
    var e := g.run(arena[k].guestPc, s);
    path, states := [k], [s];
    if e.exit.Some? && e.exit.value in patched[k] {
      var next := patched[k][e.exit.value];
      var rest, later := FollowIsChain(g, order, arena, patched, limit, next, e.state);
      var left := Follow(g, order, arena, patched, limit, next, e.state);
      hide Linked, Follow;
      path, states := path + rest, states + later;
      ChainGrows(g, arena, patched, k, s, rest, later, left);
    }
  }

  lemma ChainGrows<S>(g: Guest<S>, arena: map<int, Block>, patched: map<nat, map<nat, nat>>, k: nat, s: S, path: seq<nat>,
                      states: seq<S>, left: Left<S>)
    requires IsChain(g, arena, patched, path, states, left) && k in arena && k in patched
    requires var e := g.run(arena[k].guestPc, s);
      e.exit.Some? && e.exit.value in patched[k] && patched[k][e.exit.value] == path[0] && states[0] == e.state
    ensures IsChain(g, arena, patched, [k] + path, [s] + states, left.(blocks := left.blocks + 1))
  {
    var path', states', left' := [k] + path, [s] + states, left.(blocks := left.blocks + 1);
    forall i | 0 <= i < |path'|
      ensures ChainAt(g, arena, patched, path', states', left', i)
    {
      if i > 0 {
        assert ChainAt(g, arena, patched, path, states, left, i - 1);
      }
    }
  }

  // ---------------------------------------------------------------- passes

  /** What the dispatcher and its cache are between two passes of the loop. */
  datatype Moment<+S> = Moment(pc: nat, prevPc: nat, link: Option<(nat, nat)>, state: S, blocks: nat, trace: seq<nat>,
                               patched: map<nat, map<nat, nat>>, order: seq<nat>, arena: map<int, Block>,
                               contents: map<nat, int>, writePos: nat, clean: bool)

  /** The run from block k in the cache of a moment has led to it. */
  ghost predicate ArrivedFrom<S>(g: Guest<S>, m: Moment<S>, k: nat, s: S) {
    && Linked(g, m.order, m.arena, m.patched) && k in m.order && (forall i :: 0 <= i < |m.order| ==> m.order[i] < m.writePos)
    && var left := Follow(g, m.order, m.arena, m.patched, m.writePos, k, s);
       && m.pc == left.pc && m.state == left.state && m.blocks == left.blocks
       && m.link == if left.exit.Some? then Some((left.block, left.exit.value)) else None
  }

  /** The cache has been emptied and holds the block for the pc of the pass, no exit of which is patched. */
  ghost predicate RestartedIn<S>(g: Guest<S>, m: Moment<S>, m': Moment<S>) {
    && m'.order == [0] && m'.writePos == g.size(m.pc) + HEADER && m'.contents == map[m.pc := 0]
    && 0 in m'.arena && m'.arena[0].guestPc == m.pc && m'.patched == m.patched[0 := map[]]
  }

  /** The blocks of an order are as they were. */
  ghost predicate Kept(order: seq<nat>, was: map<int, Block>, arena: map<int, Block>) {
    forall i :: 0 <= i < |order| ==> order[i] in was && order[i] in arena && arena[order[i]] == was[order[i]]
  }

  /** The block has been appended, and the exit that led to it has been patched if the guard says so. */
  ghost predicate TranslatedIn<S>(g: Guest<S>, m: Moment<S>, m': Moment<S>) {
    var k := m.writePos;
    && m'.order == m.order + [k] && m'.writePos == k + g.size(m.pc) + HEADER && m'.contents == m.contents[m.pc := k]
    && k in m'.arena && m'.arena[k].guestPc == m.pc
    && Kept(m.order, m.arena, m'.arena)
    && m'.patched == LinkedTo(m.patched, m.prevPc, m.pc, m.link, k)
  }

  /** One pass: after a request to clean the cache starts anew; a hit changes nothing in the cache; a miss
      appends the block, anew if the arena is full.  The block is run, and the chain of links after it. */
  ghost predicate Pass<S>(g: Guest<S>, areaSize: nat, m: Moment<S>, m': Moment<S>, cleanRequested: bool) {
    && m'.prevPc == m.pc && !m'.clean && m'.blocks > 0 && m'.trace == m.trace + Pcs(g, m.pc, m.state, m'.blocks)
    && if cleanRequested || m.clean then RestartedIn(g, m, m') && ArrivedFrom(g, m', 0, m.state)
       else if m.pc in m.contents then
         && m'.patched == m.patched && m'.order == m.order && m'.arena == m.arena && m'.contents == m.contents
         && m'.writePos == m.writePos && m.contents[m.pc] >= 0 && ArrivedFrom(g, m', m.contents[m.pc], m.state)
       else if m.writePos + g.size(m.pc) + HEADER <= areaSize then
         TranslatedIn(g, m, m') && ArrivedFrom(g, m', m.writePos, m.state)
       else RestartedIn(g, m, m') && ArrivedFrom(g, m', 0, m.state)
  }

  /** A number of passes one after the other, pass i with or without the request i, each entered while the guest
      is looping. */
  ghost predicate Passes<S>(g: Guest<S>, areaSize: nat, history: seq<Moment<S>>, cleanRequests: seq<bool>) {
    && 1 <= |history| <= |cleanRequests| + 1
    && forall i :: 0 <= i < |history| - 1 ==>
         g.looping(history[i].state) && Pass(g, areaSize, history[i], history[i + 1], cleanRequests[i])
  }

  class Dispatcher<S(!new)> {
    const guest: Guest<S>
    const cache: TranslationCache
    /** The code in the arena: for the block at each address, where its patched exits jump. */
    var patched: map<nat, map<nat, nat>>
    var currentPc: nat
    var prevCurrentPc: nat
    var link: Option<(nat, nat)>
    var state: S
    ghost var trace: seq<nat>
    /** The number of blocks that the last pass ran. */
    ghost var blocks: nat

    ghost predicate Valid()
      reads this, cache
    {
      && cache.Valid() && cache.IsDistinct() && WellBehaved(guest) && 16 * 1024 + HEADER <= cache.areaSize
      && Linked(guest, cache.order, cache.arena, patched)
      && (link.Some? ==>
            && LiveExit(guest, cache.order, cache.arena, patched, link.value, currentPc)
            && (blocks == 1 <==> cache.arena[link.value.0].guestPc == prevCurrentPc))
    }

    ghost function Now(): Moment<S>
      requires cache.Valid()
      reads this, cache
    {
      Moment(currentPc, prevCurrentPc, link, state, blocks, trace, patched, cache.order, cache.arena, cache.Contents(),
             cache.writePos, cache.clean)
    }

    /** The run from a block through patched exits. */
    ghost function RunFrom(block: nat, s: S): Left<S>
      requires cache.Valid() && Linked(guest, cache.order, cache.arena, patched) && block in cache.order
      reads `patched, cache
    {
      hide *;
      Within(cache);
      Follow(guest, cache.order, cache.arena, patched, cache.writePos, block, s)
    }

    /** The run from a block has just ended. */
    ghost predicate Arrived(block: nat, s: S)
      reads this, cache
    {
      cache.Valid() && ArrivedFrom(guest, Now(), block, s)
    }

    constructor (guest: Guest<S>, areaSize: nat, entry: nat, start: S)
      requires WellBehaved(guest) && 16 * 1024 + HEADER <= areaSize
      ensures Valid() && fresh(cache) && this.guest == guest && currentPc == entry && state == start && trace == []
      ensures link.None? && !cache.clean && cache.order == [] && cache.writePos == 0 && cache.Contents() == map[]
      ensures cache.areaSize == areaSize && patched == map[]
    {
      this.guest := guest;
      var c := new TranslationCache(areaSize);
      cache := c;
      patched, currentPc, prevCurrentPc, link, state := map[], entry, 0xFFFF_FFFF_FFFF_FFFF, None, start;
      trace, blocks := [], 0;
    }

    /** execute: runs a block and whatever its patched exits lead to, until an exit returns. */
    method Execute(block: nat)
      requires cache.Valid() && cache.IsDistinct() && WellBehaved(guest)
      requires Linked(guest, cache.order, cache.arena, patched)
      requires block in cache.order && block in cache.arena && cache.arena[block].guestPc == currentPc
      modifies `currentPc, `link, `state, `trace, `blocks
      ensures link.Some? ==>
        && LiveExit(guest, cache.order, cache.arena, patched, link.value, currentPc)
        && (blocks == 1 <==> cache.arena[link.value.0].guestPc == old(currentPc))
      ensures blocks > 0 && Ran(old(currentPc), old(state), old(trace), blocks)
      ensures Arrived(block, old(state))
    {
      hide TranslationCache.Valid, TranslationCache.IsDistinct, Linked, Follow, WellBehaved, Pcs, After, Arrived, RunFrom,
        LiveExit, SoundLinks;
      var k := block;
      blocks := 1;
      ghost var n := 0;
      NothingRun(guest, currentPc, state);
      ghost var whole := RunFrom(block, state);
      while true
        invariant k in cache.order && k in cache.arena && Ran(old(currentPc), old(state), old(trace), n)
        invariant cache.arena[k].guestPc == currentPc && blocks > 0
        invariant n == blocks - 1 && if blocks == 1 then k == block else k > block
        invariant var left := RunFrom(k, state); whole == left.(blocks := left.blocks + blocks - 1)
        decreases cache.writePos - k
      {
        var pc := cache.arena[k].guestPc;
        var e := guest.run(pc, state);
        ConstantExit(guest, pc, state);
        OneMore(old(currentPc), old(state), old(trace), n);
        RunOnce(k, state);
        LinkOnce(k, pc, e);
        trace, state, currentPc := trace + [pc], e.state, e.next;
        n := n + 1;
        if e.exit.Some? && e.exit.value in patched[k] {
          k := patched[k][e.exit.value];
          blocks := blocks + 1;
        } else {
          link := if e.exit.Some? then Some((k, e.exit.value)) else None;
          OnePerPc(cache, k, block);
          ArrivedThere(block, old(state));
          assert Ran(old(currentPc), old(state), old(trace), n);
          return;
        }
      }
    }

    lemma ArrivedThere(block: nat, s: S)
      requires cache.Valid() && Linked(guest, cache.order, cache.arena, patched) && block in cache.order
      requires var left := RunFrom(block, s);
        && currentPc == left.pc && state == left.state && blocks == left.blocks
        && link == if left.exit.Some? then Some((left.block, left.exit.value)) else None
      ensures Arrived(block, s)
    {
      Within(cache);
      hide TranslationCache.Valid, Linked, Follow;
    }

    /** The exit that a block is left through: patched to jump to a later block, or alive. */
    lemma LinkOnce(k: nat, pc: nat, e: Execution<S>)
      requires cache.Valid() && Linked(guest, cache.order, cache.arena, patched) && k in cache.order
      requires k in cache.arena && cache.arena[k].guestPc == pc
      requires e.exit.Some? ==> e.next == guest.constant(pc, e.exit.value)
      ensures k in patched && k < cache.writePos
      ensures e.exit.Some? ==>
        if e.exit.value in patched[k] then
          var t := patched[k][e.exit.value];
          t in cache.order && t in cache.arena && cache.arena[t].guestPc == e.next && k < t < cache.writePos
        else LiveExit(guest, cache.order, cache.arena, patched, (k, e.exit.value), e.next)
    {
      LinksOf(guest, cache.order, cache.arena, patched, k);
      Within(cache);
      hide TranslationCache.Valid, Linked;
    }

    /** The blocks since a state are the first n that the guest runs through without links. */
    ghost predicate Ran(pc: nat, s: S, before: seq<nat>, n: nat)
      reads this
    {
      trace == before + Pcs(guest, pc, s, n) && (currentPc, state) == After(guest, pc, s, n)
    }

    /** loop_common for a number of passes, some of them after a request to clean: the guest has run through
        the pcs that it runs through when every block returns to the dispatcher. */
    method Loop(cleanRequests: seq<bool>) returns (ghost history: seq<Moment<S>>)
      requires Valid()
      modifies this, cache
      ensures Valid()
      ensures exists n: nat :: Ran(old(currentPc), old(state), old(trace), n)
      ensures Passes(guest, cache.areaSize, history, cleanRequests)
      ensures history[0] == old(Now()) && history[|history| - 1] == Now()
      ensures |history| == |cleanRequests| + 1 || !guest.looping(state)
    {
      hide TranslationCache.Valid, Linked, WellBehaved, Valid, Pcs, After, Pass, Passes;
      ghost var n: nat := 0;
      NothingRun(guest, currentPc, state);
      assert Ran(old(currentPc), old(state), old(trace), n);
      ValidCache();
      history := [Now()];
      NoPassYet(guest, cache.areaSize, Now(), cleanRequests);
      var i := 0;
      while i < |cleanRequests| && guest.looping(state)
        invariant Valid() && cache.Valid() && i <= |cleanRequests| && Ran(old(currentPc), old(state), old(trace), n)
        invariant |history| == i + 1 && history[0] == old(Now()) && history[i] == Now()
        invariant Passes(guest, cache.areaSize, history, cleanRequests)
      {
        ghost var before := history;
        Iterate(cleanRequests[i]);
        ValidCache();
        RunsCompose(guest, old(currentPc), old(state), n, blocks);
        n := n + blocks;
        history := history + [Now()];
        OnePassMore(guest, cache.areaSize, before, Now(), cleanRequests);
        i := i + 1;
      }
    }

    lemma ValidCache()
      requires Valid()
      ensures cache.Valid()
    {
    }

    /** One pass through the loop, after a possible request to clean the cache. */
    method Iterate(cleanRequested: bool)
      requires Valid()
      modifies this, cache
      ensures Valid() && prevCurrentPc == old(currentPc) && !cache.clean
      ensures blocks > 0 && Ran(old(currentPc), old(state), old(trace), blocks)
      ensures cache.Valid() && Pass(guest, cache.areaSize, old(Now()), Now(), cleanRequested)
    {
      hide TranslationCache.Valid, Linked, Follow, ArrivedFrom, RestartedIn, TranslatedIn, LiveExit, WellBehaved, Pcs, After;
      ghost var before := Now();
      if cleanRequested {
        cache.clean := true;
      }
      var cacheArea := -1;
      var isCacheWasCleaned := cache.clean;
      if cache.clean {
        cache.Reset();
        assert Linked(guest, [], cache.arena, patched) by {
          NothingLinked(guest, cache.arena, patched);
        }
      } else {
        cacheArea := cache.Search(currentPc);
      }
      if cacheArea != -1 {
        prevCurrentPc := currentPc;
        Execute(cacheArea);
      } else {
        ghost var entered := Now();
        var block := Translate(isCacheWasCleaned);
        ghost var translated := Now();
        prevCurrentPc := currentPc;
        Execute(block);
        SameCache(guest, before, entered, translated, Now());
      }
    }

    lemma OneMore(pc: nat, s: S, before: seq<nat>, n: nat)
      requires Ran(pc, s, before, n)
      ensures var e := guest.run(currentPc, state);
        trace + [currentPc] == before + Pcs(guest, pc, s, n + 1) && (e.next, e.state) == After(guest, pc, s, n + 1)
    {
      var e := guest.run(currentPc, state);
      RunsCompose(guest, pc, s, n, 1);
      assert Pcs(guest, e.next, e.state, 0) == [];
      assert Pcs(guest, currentPc, state, 1) == [currentPc];
      assert After(guest, currentPc, state, 1) == (e.next, e.state);
    }

    /** A miss: the block is translated and appended, and the exit that led here may be patched. */
    method Translate(cleaned: bool) returns (block: nat)
      requires cache.Valid() && cache.IsDistinct() && WellBehaved(guest) && 16 * 1024 + HEADER <= cache.areaSize
      requires currentPc !in cache.Contents() && Linked(guest, cache.order, cache.arena, patched)
      requires if cleaned then cache.order == []
               else link.Some? ==> LiveExit(guest, cache.order, cache.arena, patched, link.value, currentPc)
      modifies `patched, cache
      ensures cache.Valid() && cache.IsDistinct() && Linked(guest, cache.order, cache.arena, patched)
      ensures block in cache.order && block in cache.arena && cache.arena[block].guestPc == currentPc
      ensures cleaned || old(cache.writePos + guest.size(currentPc) + HEADER > cache.areaSize) ==>
        block == 0 && RestartedIn(guest, old(Now()), Now())
      ensures cache.clean ==> old(cache.clean)
      ensures !cleaned && old(cache.writePos + guest.size(currentPc) + HEADER <= cache.areaSize) ==>
        block == old(cache.writePos) && TranslatedIn(guest, old(Now()), Now())
    {
      hide TranslationCache.Valid, Linked, WellBehaved, Kept;
      NothingCached();
      var isFull;
      block, isFull := AppendBlock(cleaned);
      if Guard(prevCurrentPc, currentPc, link) && !(cleaned || isFull) {
        PatchableLink(old(patched), block);
        LinkedPatch(guest, cache.order, cache.arena, patched, link.value.0, link.value.1, block);
        patched := Patch(patched, link.value.0, link.value.1, block);
      }
    }

    /** The exit that may be patched is in an older block, and not patched yet. */
    lemma PatchableLink(was: map<nat, map<nat, nat>>, block: nat)
      requires link.Some? && link.value.0 in was && link.value.1 !in was[link.value.0]
      requires patched == was[block := map[]] && link.value.0 != block
      ensures link.value.0 in patched && link.value.1 !in patched[link.value.0]
    {
    }

    /** append and the entry for the new block, whose exits are not patched. */
    method AppendBlock(cleaned: bool) returns (block: nat, isFull: bool)
      requires cache.Valid() && cache.IsDistinct() && WellBehaved(guest) && 16 * 1024 + HEADER <= cache.areaSize
      requires currentPc !in cache.Contents() && Linked(guest, cache.order, cache.arena, patched)
      requires if cleaned then cache.order == []
               else link.Some? ==> LiveExit(guest, cache.order, cache.arena, patched, link.value, currentPc)
      modifies `patched, cache
      ensures cache.Valid() && cache.IsDistinct() && Linked(guest, cache.order, cache.arena, patched)
      ensures cache.order == (if cleaned || isFull then [] else old(cache.order)) + [block]
      ensures block in cache.arena && cache.arena[block].guestPc == currentPc && cache.clean == (old(cache.clean) && !isFull)
      ensures patched == old(patched)[block := map[]]
      ensures isFull <==> old(cache.writePos + guest.size(currentPc) + HEADER > cache.areaSize)
      ensures isFull ==>
        && block == 0 && cache.writePos == guest.size(currentPc) + HEADER && cache.Contents() == map[currentPc := block]
      ensures !isFull ==>
        && block == old(cache.writePos) && cache.writePos == block + guest.size(currentPc) + HEADER
        && cache.Contents() == old(cache.Contents())[currentPc := block]
        && Kept(old(cache.order), old(cache.arena), cache.arena)
      ensures link.Some? && !(cleaned || isFull) ==>
        && link.value.0 in cache.arena && link.value.0 < block && link.value.0 in cache.order
        && guest.constant(cache.arena[link.value.0].guestPc, link.value.1) == currentPc
    {
      hide TranslationCache.Valid, Linked, WellBehaved;
      SizeFits(guest, currentPc);
      ghost var arena, before := cache.arena, cache.order;
      NotFast();
      block, isFull := cache.Append(currentPc, guest.size(currentPc));
      if isFull {
        before := [];
        NothingLinked(guest, arena, patched);
      }
      assert link.Some? && !(cleaned || isFull) ==> link.value.0 in before;
      LinkedFresh(guest, before, arena, patched, cache.arena, block);
      patched := patched[block := map[]];
    }

    lemma NotFast()
      requires cache.Valid() && currentPc !in cache.Contents()
      ensures !cache.InFast(currentPc)
    {
      FastIsKnown(cache.order, cache.arena, cache.list, cache.cached, currentPc);
    }

    lemma NothingCached()
      requires cache.Valid()
      ensures cache.order == [] ==> cache.writePos == 0 && cache.Contents() == map[]
    {
    }

    /** The guard tells forward links, for every pc that the exit might lead to, if and only if the last pass ran
        one block. */
    lemma ForwardIffOneBlock()
      requires Valid() && link.Some?
      ensures blocks == 1
         <==> forall pc: nat :: Guard(prevCurrentPc, pc, link) <==> cache.arena[link.value.0].guestPc < pc
    {
      var left := cache.arena[link.value.0].guestPc;
      if left != prevCurrentPc {
        var pc := if left < prevCurrentPc then prevCurrentPc else left;
        assert !(Guard(prevCurrentPc, pc, link) <==> left < pc);
      }
    }

    lemma RunOnce(k: nat, s: S)
      requires cache.Valid() && Linked(guest, cache.order, cache.arena, patched) && k in cache.order
      ensures k in cache.arena && k in patched
      ensures var e, left := guest.run(cache.arena[k].guestPc, s), RunFrom(k, s);
        if e.exit.Some? && e.exit.value in patched[k] then
          && patched[k][e.exit.value] in cache.order
          && var rest := RunFrom(patched[k][e.exit.value], e.state); left == rest.(blocks := rest.blocks + 1)
        else left == Left(k, e.exit, e.next, e.state, 1)
    {
      Within(cache);
      FollowOnce(guest, cache.order, cache.arena, patched, cache.writePos, k, s);
      hide Linked, Follow, TranslationCache.Valid;
    }
  }

  /** Two blocks have two pcs. */
  lemma OnePerPc(cache: TranslationCache, k: nat, j: nat)
    requires cache.Valid() && cache.IsDistinct() && k in cache.order && j in cache.order
    ensures k in cache.arena && j in cache.arena
    ensures cache.arena[k].guestPc == cache.arena[j].guestPc <==> k == j
  {
    BlocksKnown(cache.order, cache.arena, cache.writePos);
    var a :| 0 <= a < |cache.order| && cache.order[a] == k;
    var b :| 0 <= b < |cache.order| && cache.order[b] == j;
    hide Tiled, Chained;
  }

  lemma Within(cache: TranslationCache)
    requires cache.Valid()
    ensures forall i :: 0 <= i < |cache.order| ==> cache.order[i] < cache.writePos
  {
    hide Tiled, Chained;
    BelowWritePos(cache.order, cache.arena, cache.writePos);
    assert forall i :: 0 <= i < |cache.order| ==> cache.order[i] in cache.order;
  }

  lemma FollowOnce<S>(g: Guest<S>, order: seq<nat>, arena: map<int, Block>, patched: map<nat, map<nat, nat>>,
                      limit: nat, k: nat, s: S)
    requires Linked(g, order, arena, patched) && k in order && forall i :: 0 <= i < |order| ==> order[i] < limit
    ensures k in arena && k in patched
    ensures var e, left := g.run(arena[k].guestPc, s), Follow(g, order, arena, patched, limit, k, s);
      if e.exit.Some? && e.exit.value in patched[k] then
        && patched[k][e.exit.value] in order
        && var rest := Follow(g, order, arena, patched, limit, patched[k][e.exit.value], e.state);
           left == rest.(blocks := rest.blocks + 1)
      else left == Left(k, e.exit, e.next, e.state, 1)
  {
    LinksOf(g, order, arena, patched, k);
    hide Linked;
  }

  lemma SizeFits<S(!new)>(g: Guest<S>, pc: nat)
    requires WellBehaved(g)
    ensures 0 < g.size(pc) <= 16 * 1024
  {
  }

  lemma ConstantExit<S(!new)>(g: Guest<S>, pc: nat, s: S)
    requires WellBehaved(g)
    ensures var e := g.run(pc, s); e.exit.Some? ==> e.next == g.constant(pc, e.exit.value)
  {
  }

  lemma NothingLinked<S>(g: Guest<S>, arena: map<int, Block>, patched: map<nat, map<nat, nat>>)
    ensures Linked(g, [], arena, patched)
  {
  }

  lemma LinksOf<S>(g: Guest<S>, order: seq<nat>, arena: map<int, Block>, patched: map<nat, map<nat, nat>>, k: nat)
    requires Linked(g, order, arena, patched) && k in order
    ensures SoundLinks(g, order, arena, patched, k)
  {
  }

  /** A fresh block has no links yet, and nothing changes for the others. */
  lemma LinkedFresh<S>(g: Guest<S>, before: seq<nat>, was: map<int, Block>, patched: map<nat, map<nat, nat>>,
                       arena: map<int, Block>, k: nat)
    requires k in arena && forall i :: 0 <= i < |before| ==>
      before[i] < k && before[i] in arena && before[i] in was && arena[before[i]] == was[before[i]]
    requires Linked(g, before, was, patched)
    ensures Linked(g, before + [k], arena, patched[k := map[]])
  {
    var order, patched' := before + [k], patched[k := map[]];
    forall i | 0 <= i < |order|
      ensures SoundLinks(g, order, arena, patched', order[i])
    {
      if i < |before| {
        assert SoundLinks(g, before, was, patched, before[i]);
        assert forall t :: t in before ==> t in order && t in arena && arena[t] == was[t];
      }
    }
  }

  /** Patching an exit of an older block keeps all links sound. */
  lemma LinkedPatch<S>(g: Guest<S>, order: seq<nat>, arena: map<int, Block>, patched: map<nat, map<nat, nat>>,
                       from: nat, exit: nat, k: nat)
    requires Linked(g, order, arena, patched) && from in order && from in patched
    requires k in order && k in arena && from < k && from in arena
    requires g.constant(arena[from].guestPc, exit) == arena[k].guestPc
    ensures Linked(g, order, arena, Patch(patched, from, exit, k))
  {
    var patched' := Patch(patched, from, exit, k);
    forall i | 0 <= i < |order|
      ensures SoundLinks(g, order, arena, patched', order[i])
    {
      assert SoundLinks(g, order, arena, patched, order[i]);
    }
  }

  // ---------------------------------------------------------------- a link that goes back

  /** A guest whose block at 30 goes back to 10 at first and on to 20 from then on. */
  function Zigzag(): Guest<nat> {
    Guest(
      (pc: nat) => 16,
      (pc: nat, s: nat) =>
        if pc == 10 then Execution(Some(0), 30, s)
        else if pc == 30 && s == 0 then Execution(Some(0), 10, 1)
        else Execution(Some(1), 20, s),
      (pc: nat, exit: nat) => if exit == 1 then 20 else if pc == 10 then 30 else 10,
      (s: nat) => true)
  }

  /** What Zigzag has in the cache, its patched exits, and where the last pass has arrived. */
  ghost predicate Stage(d: Dispatcher<nat>, order: seq<nat>, contents: map<nat, int>, patched: map<nat, map<nat, nat>>,
                        link: (nat, nat), pc: nat, s: nat)
    reads d, d.cache
  {
    && d.Valid() && d.guest == Zigzag() && !d.cache.clean && d.cache.areaSize == 0x10_0000
    && d.cache.writePos == 34 * |order| && d.cache.order == order && d.cache.Contents() == contents
    && (forall p :: p in contents ==> contents[p] in d.cache.arena && d.cache.arena[contents[p]].guestPc == p)
    && d.patched == patched && d.link == Some(link) && d.currentPc == pc && d.state == s
  }

  method FirstPass() returns (d: Dispatcher<nat>)
    ensures fresh(d) && fresh(d.cache) && Stage(d, [0], map[10 := 0], map[0 := map[]], (0, 0), 30, 0) && d.prevCurrentPc == 10
  {
    hide TranslationCache.Valid, Linked, Follow;
    d := new Dispatcher(Zigzag(), 0x10_0000, 10, 0);
    d.Iterate(false);
    d.RunOnce(0, 0);
  }

  method SecondPass(d: Dispatcher<nat>)
    requires Stage(d, [0], map[10 := 0], map[0 := map[]], (0, 0), 30, 0) && d.prevCurrentPc == 10
    modifies d, d.cache
    ensures Stage(d, [0, 34], map[10 := 0, 30 := 34], map[0 := map[0 := 34], 34 := map[]], (34, 0), 10, 1)
  {
    hide TranslationCache.Valid, Linked, Follow;
    d.Iterate(false);
    d.RunOnce(34, 0);
  }

  method ThirdPass(d: Dispatcher<nat>)
    requires Stage(d, [0, 34], map[10 := 0, 30 := 34], map[0 := map[0 := 34], 34 := map[]], (34, 0), 10, 1)
    modifies d, d.cache
    ensures Stage(d, [0, 34], map[10 := 0, 30 := 34], map[0 := map[0 := 34], 34 := map[]], (34, 1), 20, 1) && d.prevCurrentPc == 10
  {
    hide TranslationCache.Valid, Linked, Follow;
    d.Iterate(false);
    d.RunOnce(34, 1);
    d.RunOnce(0, 1);
  }

  method FourthPass(d: Dispatcher<nat>)
    requires Stage(d, [0, 34], map[10 := 0, 30 := 34], map[0 := map[0 := 34], 34 := map[]], (34, 1), 20, 1)
    requires d.prevCurrentPc == 10
    modifies d, d.cache
    ensures d.Valid() && d.guest == Zigzag()
    ensures 34 in d.cache.arena && d.cache.arena[34].guestPc == 30
    ensures 68 in d.cache.arena && d.cache.arena[68].guestPc == 20
    ensures d.patched == map[0 := map[0 := 34], 34 := map[1 := 68], 68 := map[]]
  {
    hide TranslationCache.Valid, Linked, ArrivedFrom;
    assert 30 in d.cache.Contents() && d.cache.Contents()[30] == 34 && d.cache.order[1] == 34;
    d.Iterate(false);
  }

  /**
   The guard looks at the pc with which the last pass began.  When that pass went on through a link, the exit
   that it left may belong to a block of higher pc than the new one: here the exit of the block at 30 is patched
   to jump to the block at 20.
   */
  method LinkThatGoesBack() returns (d: Dispatcher<nat>)
    ensures d.Valid() && d.guest == Zigzag()
    ensures 34 in d.cache.arena && d.cache.arena[34].guestPc == 30
    ensures 68 in d.cache.arena && d.cache.arena[68].guestPc == 20
    ensures 34 in d.patched && 1 in d.patched[34] && d.patched[34][1] == 68
  {
    hide TranslationCache.Valid, Linked, Follow;
    d := FirstPass();
    SecondPass(d);
    ThirdPass(d);
    FourthPass(d);
  }
}
