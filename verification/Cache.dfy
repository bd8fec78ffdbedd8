/**
 The translation cache: a bump arena of blocks, hash chains through the block headers and one fast slot per
 bucket, which together behave like a map that is emptied at each reset.
 */
module Cache {
  const HASH_ENTRY_NB: nat := 16384

  /** sizeof(struct tb): a 16-bit size, the guest pc and the chain pointer, packed. */
  const HEADER: nat := 18

  /** Pointers are offsets into the arena; -1 is NULL. */
  datatype Block = Block(size: nat, guestPc: nat, next: int)

  function HashPc(pc: nat): (h: nat)
    ensures h < HASH_ENTRY_NB
  {
    pc / 4 % 16384
  }

  function End(arena: map<int, Block>, k: int): int
    requires k in arena
  {
    k + arena[k].size
  }

  /** The blocks in the order of their addresses tile the arena up to the write position. */
  ghost predicate Tiled(order: seq<nat>, arena: map<int, Block>, writePos: nat) {
    && (forall i :: 0 <= i < |order| ==> order[i] in arena && arena[order[i]].size >= HEADER)
    && (if |order| == 0 then writePos == 0
        else order[0] == 0 && End(arena, order[|order| - 1]) == writePos)
    && forall i :: 0 <= i < |order| - 1 ==> End(arena, order[i]) == order[i + 1]
  }

  /** The newest of the first n blocks with this hash, or -1. */
  function Newest(order: seq<nat>, arena: map<int, Block>, h: nat, n: nat): int
    requires n <= |order| && forall i :: 0 <= i < |order| ==> order[i] in arena
  {
    if n == 0 then -1
    else if HashPc(arena[order[n - 1]].guestPc) == h then order[n - 1]
    else Newest(order, arena, h, n - 1)
  }

  lemma {:induction false} NewestIs(order: seq<nat>, arena: map<int, Block>, h: nat, n: nat) returns (j: int)
    requires n <= |order| && forall i :: 0 <= i < |order| ==> order[i] in arena
    ensures -1 <= j < n && (j == -1 <==> Newest(order, arena, h, n) == -1)
    ensures j >= 0 ==> Newest(order, arena, h, n) == order[j] && HashPc(arena[order[j]].guestPc) == h
    ensures forall i :: j < i < n ==> HashPc(arena[order[i]].guestPc) != h
  {
    if n == 0 {
      j := -1;
    } else if HashPc(arena[order[n - 1]].guestPc) == h {
      j := n - 1;
    } else {
      j := NewestIs(order, arena, h, n - 1);
    }
  }

  /** The chain of every bucket goes from its newest block to older ones, the fast slot holds one of them. */
  ghost predicate Chained(order: seq<nat>, arena: map<int, Block>, list: seq<int>, cached: seq<int>)
    requires forall i :: 0 <= i < |order| ==> order[i] in arena
  {
    && |list| == HASH_ENTRY_NB == |cached|
    && (forall h :: 0 <= h < HASH_ENTRY_NB ==> list[h] == Newest(order, arena, h, |order|))
    && (forall i :: 0 <= i < |order| ==>
          arena[order[i]].next == Newest(order, arena, HashPc(arena[order[i]].guestPc), i))
    && (forall h :: 0 <= h < HASH_ENTRY_NB && cached[h] != -1 ==>
          cached[h] in order && HashPc(arena[cached[h]].guestPc) == h)
  }

  /** The newest of the first n blocks for this pc, or -1. */
  function NewestOf(order: seq<nat>, arena: map<int, Block>, pc: nat, n: nat): int
    requires n <= |order| && forall i :: 0 <= i < |order| ==> order[i] in arena
  {
    if n == 0 then -1
    else if arena[order[n - 1]].guestPc == pc then order[n - 1]
    else NewestOf(order, arena, pc, n - 1)
  }

  /** What lookup finds for a pc: the block in the fast slot of the bucket if it is for this pc, or else the
      newest one for it. */
  function Found(order: seq<nat>, arena: map<int, Block>, cached: seq<int>, pc: nat): int
    requires |cached| == HASH_ENTRY_NB && forall i :: 0 <= i < |order| ==> order[i] in arena
  {
    if InFastSlot(arena, cached, pc) then cached[HashPc(pc)] else NewestOf(order, arena, pc, |order|)
  }

  predicate InFastSlot(arena: map<int, Block>, cached: seq<int>, pc: nat)
    requires |cached| == HASH_ENTRY_NB
  {
    var k := cached[HashPc(pc)];
    k != -1 && k in arena && arena[k].guestPc == pc
  }

  function PcsOf(order: seq<nat>, arena: map<int, Block>): set<nat>
    requires forall i :: 0 <= i < |order| ==> order[i] in arena
  {
    set i | 0 <= i < |order| :: arena[order[i]].guestPc
  }

  /** The map that the cache stands for: from guest pc to the block that is found. */
  function ContentsOf(order: seq<nat>, arena: map<int, Block>, cached: seq<int>): map<nat, int>
    requires |cached| == HASH_ENTRY_NB && forall i :: 0 <= i < |order| ==> order[i] in arena
  {
    map pc | pc in PcsOf(order, arena) :: Found(order, arena, cached, pc)
  }

  /** No pc has two blocks. */
  ghost predicate Distinct(order: seq<nat>, arena: map<int, Block>)
    requires forall i :: 0 <= i < |order| ==> order[i] in arena
  {
    forall i, j :: 0 <= i < j < |order| ==> arena[order[i]].guestPc != arena[order[j]].guestPc
  }

  lemma {:induction false} NewestOfIs(order: seq<nat>, arena: map<int, Block>, pc: nat, n: nat) returns (j: int)
    requires n <= |order| && forall i :: 0 <= i < |order| ==> order[i] in arena
    ensures -1 <= j < n && forall i :: j < i < n ==> arena[order[i]].guestPc != pc
    ensures if j == -1 then NewestOf(order, arena, pc, n) == -1
            else NewestOf(order, arena, pc, n) == order[j] && arena[order[j]].guestPc == pc
  {
    if n == 0 {
      j := -1;
    } else if arena[order[n - 1]].guestPc == pc {
      j := n - 1;
    } else {
      j := NewestOfIs(order, arena, pc, n - 1);
    }
  }

  /** What is found is a block for the pc. */
  lemma FoundIsBlock(order: seq<nat>, arena: map<int, Block>, list: seq<int>, cached: seq<int>, pc: nat)
    requires (forall i :: 0 <= i < |order| ==> order[i] in arena) && Chained(order, arena, list, cached)
    ensures var k := Found(order, arena, cached, pc);
      if pc in PcsOf(order, arena) then k in order && k in arena && arena[k].guestPc == pc else k == -1
  {
    var j := NewestOfIs(order, arena, pc, |order|);
    if j >= 0 {
      assert order[j] in order;
    }
    if InFastSlot(arena, cached, pc) {
      var i :| 0 <= i < |order| && order[i] == cached[HashPc(pc)];
      assert pc in PcsOf(order, arena);
    }
    hide Newest, NewestOf;
  }

  /** If no pc has two blocks the fast slots make no difference. */
  lemma DistinctContents(order: seq<nat>, arena: map<int, Block>, list: seq<int>, cached: seq<int>, cached': seq<int>)
    requires forall i :: 0 <= i < |order| ==> order[i] in arena
    requires Distinct(order, arena) && Chained(order, arena, list, cached) && Chained(order, arena, list, cached')
    ensures ContentsOf(order, arena, cached') == ContentsOf(order, arena, cached)
  {
    forall pc | pc in PcsOf(order, arena)
      ensures Found(order, arena, cached', pc) == Found(order, arena, cached, pc)
    {
      FoundIsBlock(order, arena, list, cached, pc);
      FoundIsBlock(order, arena, list, cached', pc);
      hide Found, Chained;
      var k, k' := Found(order, arena, cached, pc), Found(order, arena, cached', pc);
      var i :| 0 <= i < |order| && order[i] == k;
      var i' :| 0 <= i' < |order| && order[i'] == k';
    }
  }

  lemma {:induction false} NewestFrame(order: seq<nat>, arena: map<int, Block>, more: seq<nat>, arena': map<int, Block>, h: nat, n: nat)
    requires n <= |order| && forall i :: 0 <= i < |order| ==> order[i] in arena
    requires forall i :: 0 <= i < |order + more| ==> (order + more)[i] in arena'
    requires forall i :: 0 <= i < |order| ==>
      order[i] in arena' && arena'[order[i]].guestPc == arena[order[i]].guestPc
    ensures Newest(order + more, arena', h, n) == Newest(order, arena, h, n)
  {
    if n > 0 {
      assert (order + more)[n - 1] == order[n - 1];
      NewestFrame(order, arena, more, arena', h, n - 1);
    }
  }

  /** Addresses increase along the order, so the chain pointers lead to strictly lower addresses. */
  lemma {:induction false} OrderIncreases(order: seq<nat>, arena: map<int, Block>, writePos: nat, i: nat, j: nat)
    requires Tiled(order, arena, writePos) && i < j < |order|
    ensures End(arena, order[i]) <= order[j] < writePos && order[i] < order[j]
    decreases j - i
  {
    BlockEnds(order, arena, writePos, j);
    if i < j - 1 {
      OrderIncreases(order, arena, writePos, i, j - 1);
      assert End(arena, order[j - 1]) == order[j];
    } else {
      assert End(arena, order[i]) == order[i + 1];
    }
  }

  lemma {:induction false} BlockEnds(order: seq<nat>, arena: map<int, Block>, writePos: nat, j: nat)
    requires Tiled(order, arena, writePos) && j < |order|
    ensures order[j] < End(arena, order[j]) <= writePos
    decreases |order| - j
  {
    if j < |order| - 1 {
      BlockEnds(order, arena, writePos, j + 1);
      assert End(arena, order[j]) == order[j + 1];
    }
  }

  /** Blocks do not overlap. */
  lemma BlocksAreDisjoint(order: seq<nat>, arena: map<int, Block>, writePos: nat, i: nat, j: nat, x: nat)
    requires Tiled(order, arena, writePos) && i < |order| && j < |order|
    requires order[i] <= x < End(arena, order[i]) && order[j] <= x < End(arena, order[j])
    ensures i == j
  {
    if i < j {
      OrderIncreases(order, arena, writePos, i, j);
    } else if j < i {
      OrderIncreases(order, arena, writePos, j, i);
    }
  }

  lemma ChainsGoDown(order: seq<nat>, arena: map<int, Block>, writePos: nat, list: seq<int>, cached: seq<int>, i: nat)
    requires Tiled(order, arena, writePos) && Chained(order, arena, list, cached) && i < |order|
    ensures -1 <= arena[order[i]].next < order[i]
  {
    var h := HashPc(arena[order[i]].guestPc);
    var j := NewestIs(order, arena, h, i);
    if j >= 0 {
      OrderIncreases(order, arena, writePos, j, i);
    }
  }

  class TranslationCache {
    const areaSize: nat
    var writePos: nat
    var clean: bool
    var cached: seq<int>
    var list: seq<int>
    var arena: map<int, Block>
    ghost var order: seq<nat>

    ghost predicate Valid()
      reads `writePos, `cached, `list, `arena, `order
    {
      && writePos <= areaSize
      && Tiled(order, arena, writePos)
      && Chained(order, arena, list, cached)
    }

    ghost function Contents(): map<nat, int>
      requires Valid()
      reads `writePos, `cached, `list, `arena, `order
    {
      BlocksKnown(order, arena, writePos);
      ContentsOf(order, arena, cached)
    }

    /** No pc has been appended twice since the last reset. */
    ghost predicate IsDistinct()
      requires Valid()
      reads `writePos, `cached, `list, `arena, `order
    {
      BlocksKnown(order, arena, writePos);
      Distinct(order, arena)
    }

    /** The fast slot of its bucket is that of this pc. */
    ghost predicate InFast(pc: nat)
      requires Valid()
      reads `writePos, `cached, `list, `arena, `order
    {
      InFastSlot(arena, cached, pc)
    }

    /** createCache. */
    constructor (areaSize: nat)
      ensures Valid() && this.areaSize == areaSize && Contents() == map[] && order == [] && IsDistinct() && !clean
    {
      this.areaSize := areaSize;
      writePos, clean, arena := 0, false, map[];
      cached, list := seq(HASH_ENTRY_NB, _ => -1), seq(HASH_ENTRY_NB, _ => -1);
      order := [];
    }

    /** reset: the arena keeps its bytes, but nothing refers to them any more. */
    method Reset()
      modifies this
      ensures Valid() && Contents() == map[] && order == [] && IsDistinct() && !clean && arena == old(arena)
      ensures writePos == 0
    {
      writePos, clean := 0, false;
      cached, list := seq(HASH_ENTRY_NB, _ => -1), seq(HASH_ENTRY_NB, _ => -1);
      order := [];
      assert forall h :: 0 <= h < HASH_ENTRY_NB ==> list[h] == -1 == cached[h];
    }

    /** The search of lookup: the fast slot, then the chain.  What is found goes to the fast slot. */
    method Search(pc: nat) returns (k: int)
      requires Valid()
      modifies this`cached
      ensures Valid()
      ensures k == if pc in old(Contents()) then old(Contents())[pc] else -1
      ensures k == -1 <==> pc !in old(Contents())
      ensures cached == if k == -1 then old(cached) else old(cached)[HashPc(pc) := k]
      ensures IsDistinct() ==> Contents() == old(Contents())
      ensures k != -1 ==> k in order && k in arena && arena[k].guestPc == pc
    {
      hide Tiled, ContentsOf, Distinct;
      var hash := HashPc(pc);
      BlocksKnown(order, arena, writePos);
      ContentsHas(order, arena, cached, pc);
      FoundIsBlock(order, arena, list, cached, pc);
      k := cached[hash];
      if k != -1 && arena[k].guestPc == pc {
        return;
      }
      k := list[hash];
      ghost var n := |order|;
      ghost var last := NewestOfIs(order, arena, pc, |order|);
      hide NewestOf;
      while k != -1
        invariant cached == old(cached)
        invariant 0 <= n <= |order| && k == Newest(order, arena, hash, n)
        invariant forall i :: n <= i < |order| ==> arena[order[i]].guestPc != pc
        decreases n
      {
        ghost var j := NewestIs(order, arena, hash, n);
        if arena[k].guestPc == pc {
          assert k == order[j] && k in order && last == j;
          cached := cached[hash := k];
          if Distinct(order, arena) {
            DistinctContents(order, arena, list, old(cached), cached);
          }
          return;
        }
        k := arena[k].next;
        n := j;
      }
      ghost var j := NewestIs(order, arena, hash, n);
    }

    /** append: a full arena is emptied first; the block goes to the head of its chain.  It is what lookup finds
        from now on, unless the fast slot has an older block for the pc. */
    method Append(pc: nat, size: nat) returns (k: nat, cleanEvent: bool)
      requires Valid()
      requires size + HEADER < 65536 && size + HEADER <= areaSize
      modifies this
      ensures Valid() && k in order && clean == (old(clean) && !cleanEvent)
      ensures cleanEvent <==> old(writePos) + size + HEADER > areaSize
      ensures k == (if cleanEvent then 0 else old(writePos)) && writePos == k + size + HEADER
      ensures Contents() ==
        if cleanEvent then map[pc := k] else if old(InFast(pc)) then old(Contents()) else old(Contents())[pc := k]
      ensures cleanEvent || (old(IsDistinct()) && pc !in old(Contents())) ==> IsDistinct()
      ensures order == (if cleanEvent then [] else old(order)) + [k]
      ensures Appended(if cleanEvent then [] else old(order), old(arena), pc, k)
    {
      cleanEvent := false;
      if writePos + size + HEADER > areaSize {
        Reset();
        cleanEvent := true;
      }
      k := Insert(pc, size);
    }

    /** The new block lies behind the others, which are as they were. */
    ghost predicate Appended(before: seq<nat>, was: map<int, Block>, pc: nat, k: nat)
      reads `arena
    {
      && k in arena && arena[k].guestPc == pc
      && forall i :: 0 <= i < |before| ==>
           before[i] < k && before[i] in arena && before[i] in was && arena[before[i]] == was[before[i]]
    }

    /** The part of append after the check for room. */
    method Insert(pc: nat, size: nat) returns (k: nat)
      requires Valid() && writePos + size + HEADER <= areaSize
      modifies this
      ensures Valid() && clean == old(clean) && order == old(order) + [k]
      ensures k == old(writePos) && writePos == k + size + HEADER
      ensures Contents() == if old(InFast(pc)) then old(Contents()) else old(Contents())[pc := k]
      ensures old(IsDistinct()) && pc !in old(Contents()) ==> IsDistinct()
      ensures Appended(old(order), old(arena), pc, k)
    {
      hide Tiled, Chained, Newest, ContentsOf, Distinct, InFastSlot, PcsOf;
      var hash := HashPc(pc);
      k := writePos;
      ListIsFull(order, arena, writePos, list, cached);
      var block := Block(size + HEADER, pc, list[hash]);
      TiledNext(order, arena, writePos, block);
      ChainedNext(order, arena, writePos, list, cached, block);
      ContentsNext(order, arena, writePos, list, cached, block);
      BelowWritePos(order, arena, writePos);
      BlocksKnown(order, arena, writePos);
      arena := arena[k := block];
      list := list[hash := k];
      writePos := writePos + size + HEADER;
      assert forall i :: 0 <= i < |order| ==> order[i] in order;
      order := order + [k];
    }

    /** lookup_pc for an address inside the blocks: the owner's pc and where its code starts. */
    method LookupPc(hostPc: nat) returns (pc: nat, start: nat)
      requires Valid() && hostPc < writePos
      ensures exists k :: k in order && k <= hostPc < End(arena, k) && pc == arena[k].guestPc && start == k + HEADER
    {
      BlocksKnown(order, arena, writePos);
      var k := 0;
      ghost var i := 0;
      while !(k <= hostPc < k + arena[k].size)
        invariant 0 <= i < |order| && k == order[i] && k in arena && k <= hostPc
        decreases |order| - i
      {
        BlockEnds(order, arena, writePos, i);
        assert i < |order| - 1 ==> End(arena, order[i]) == order[i + 1];
        k := k + arena[k].size;
        i := i + 1;
      }
      assert k in order;
      return arena[k].guestPc, k + HEADER;
    }
  }

  // ---------------------------------------------------------------- steps of the invariant

  lemma BlocksKnown(order: seq<nat>, arena: map<int, Block>, writePos: nat)
    requires Tiled(order, arena, writePos)
    ensures forall i :: 0 <= i < |order| ==> order[i] in arena
    ensures forall k :: k in order ==> k in arena
    ensures writePos > 0 ==> |order| > 0 && order[0] == 0
  {
  }

  lemma ContentsHas(order: seq<nat>, arena: map<int, Block>, cached: seq<int>, pc: nat)
    requires |cached| == HASH_ENTRY_NB && forall i :: 0 <= i < |order| ==> order[i] in arena
    ensures pc in ContentsOf(order, arena, cached) <==> pc in PcsOf(order, arena)
    ensures pc in PcsOf(order, arena) ==> ContentsOf(order, arena, cached)[pc] == Found(order, arena, cached, pc)
  {
  }

  lemma ListIsFull(order: seq<nat>, arena: map<int, Block>, writePos: nat, list: seq<int>, cached: seq<int>)
    requires Tiled(order, arena, writePos) && Chained(order, arena, list, cached)
    ensures |list| == HASH_ENTRY_NB
  {
  }

  lemma BelowWritePos(order: seq<nat>, arena: map<int, Block>, writePos: nat)
    requires Tiled(order, arena, writePos)
    ensures forall k :: k in order ==> k < writePos
  {
    forall i | 0 <= i < |order|
      ensures order[i] < writePos
    {
      BlockEnds(order, arena, writePos, i);
    }
  }

  lemma TiledNext(order: seq<nat>, arena: map<int, Block>, writePos: nat, block: Block)
    requires Tiled(order, arena, writePos) && block.size >= HEADER
    ensures Tiled(order + [writePos], arena[writePos := block], writePos + block.size)
  {
    BelowWritePos(order, arena, writePos);
    var order', arena' := order + [writePos], arena[writePos := block];
    forall i | 0 <= i < |order|
      ensures order'[i] == order[i] && order'[i] in arena' && arena'[order'[i]] == arena[order[i]]
    {
      assert order[i] in order;
    }
    forall i | 0 <= i < |order'| - 1
      ensures End(arena', order'[i]) == order'[i + 1]
    {
      if i < |order| - 1 {
        assert End(arena, order[i]) == order[i + 1];
      }
    }
  }

  lemma ChainedNext(order: seq<nat>, arena: map<int, Block>, writePos: nat, list: seq<int>, cached: seq<int>, block: Block)
    requires Tiled(order, arena, writePos) && Chained(order, arena, list, cached)
    requires block.next == list[HashPc(block.guestPc)]
    ensures var order', arena' := order + [writePos], arena[writePos := block];
      && (forall i :: 0 <= i < |order'| ==> order'[i] in arena')
      && Chained(order', arena', list[HashPc(block.guestPc) := writePos], cached)
  {
    BelowWritePos(order, arena, writePos);
    var order', arena' := order + [writePos], arena[writePos := block];
    forall i | 0 <= i < |order|
      ensures order'[i] == order[i] && order[i] in arena' && arena'[order[i]] == arena[order[i]]
    {
      assert order[i] in order;
    }
    assert order'[|order|] == writePos;
    forall h, n | 0 <= n <= |order|
      ensures Newest(order', arena', h, n) == Newest(order, arena, h, n)
    {
      NewestFrame(order, arena, [writePos], arena', h, n);
    }
  }

  /** One more block at the end, the others as they were. */
  ghost predicate Grown(order: seq<nat>, arena: map<int, Block>, k: nat, arena': map<int, Block>) {
    && k in arena'
    && forall i :: 0 <= i < |order| ==> order[i] in arena && order[i] in arena' && arena'[order[i]] == arena[order[i]]
  }

  lemma GrownBy(order: seq<nat>, arena: map<int, Block>, writePos: nat, block: Block)
    requires Tiled(order, arena, writePos)
    ensures Grown(order, arena, writePos, arena[writePos := block])
  {
    BelowWritePos(order, arena, writePos);
    assert forall i :: 0 <= i < |order| ==> order[i] in order;
  }

  lemma GrownKnown(order: seq<nat>, arena: map<int, Block>, k: nat, arena': map<int, Block>)
    requires Grown(order, arena, k, arena')
    ensures forall i :: 0 <= i < |order + [k]| ==> (order + [k])[i] in arena'
    ensures forall i :: 0 <= i < |order| ==> order[i] in arena
  {
  }

  lemma PcsNext(order: seq<nat>, arena: map<int, Block>, k: nat, arena': map<int, Block>)
    requires Grown(order, arena, k, arena')
    requires forall i :: 0 <= i < |order + [k]| ==> (order + [k])[i] in arena'
    ensures PcsOf(order + [k], arena') == PcsOf(order, arena) + {arena'[k].guestPc}
    ensures Distinct(order, arena) && arena'[k].guestPc !in PcsOf(order, arena) ==> Distinct(order + [k], arena')
  {
    var order' := order + [k];
    assert forall i :: 0 <= i < |order| ==> order'[i] == order[i];
    assert order'[|order|] == k;
    forall p | p in PcsOf(order, arena) + {arena'[k].guestPc}
      ensures p in PcsOf(order', arena')
    {
      if p in PcsOf(order, arena) {
        var i :| 0 <= i < |order| && arena[order[i]].guestPc == p;
        assert arena'[order'[i]].guestPc == p;
      } else {
        assert arena'[order'[|order|]].guestPc == p;
      }
    }
  }

  /** What is found for a pc after the new block has come. */
  lemma FoundNext(order: seq<nat>, arena: map<int, Block>, writePos: nat, list: seq<int>, cached: seq<int>, block: Block, pc: nat)
    requires Tiled(order, arena, writePos) && Chained(order, arena, list, cached)
    requires forall i :: 0 <= i < |order + [writePos]| ==> (order + [writePos])[i] in arena[writePos := block]
    ensures Found(order + [writePos], arena[writePos := block], cached, pc)
      == if pc == block.guestPc && !InFastSlot(arena, cached, pc) then writePos else Found(order, arena, cached, pc)
  {
    var order', arena' := order + [writePos], arena[writePos := block];
    GrownBy(order, arena, writePos, block);
    GrownKnown(order, arena, writePos, arena');
    FastSlotFrame(order, arena, writePos, list, cached, block, pc);
    NewestOfNext(order, arena, writePos, arena', pc);
    FoundIs(order, arena, cached, pc);
    FoundIs(order', arena', cached, pc);
    hide *;
  }

  lemma FoundIs(order: seq<nat>, arena: map<int, Block>, cached: seq<int>, pc: nat)
    requires |cached| == HASH_ENTRY_NB && forall i :: 0 <= i < |order| ==> order[i] in arena
    ensures Found(order, arena, cached, pc)
         == if InFastSlot(arena, cached, pc) then cached[HashPc(pc)] else NewestOf(order, arena, pc, |order|)
  {
    hide NewestOf, InFastSlot;
  }

  lemma NewestOfNext(order: seq<nat>, arena: map<int, Block>, k: nat, arena': map<int, Block>, pc: nat)
    requires Grown(order, arena, k, arena') && forall i :: 0 <= i < |order + [k]| ==> (order + [k])[i] in arena'
    ensures NewestOf(order + [k], arena', pc, |order + [k]|)
         == if arena'[k].guestPc == pc then k else NewestOf(order, arena, pc, |order|)
  {
    NewestOfFrame(order, arena, k, arena', pc, |order|);
    assert (order + [k])[|order|] == k;
    hide Grown;
  }

  /** The new block is found unless the fast slot has one for its pc; for other pcs nothing changes. */
  lemma ContentsNext(order: seq<nat>, arena: map<int, Block>, writePos: nat, list: seq<int>, cached: seq<int>, block: Block)
    requires Tiled(order, arena, writePos) && Chained(order, arena, list, cached)
    ensures var order', arena', pc := order + [writePos], arena[writePos := block], block.guestPc;
      && (forall i :: 0 <= i < |order'| ==> order'[i] in arena')
      && ContentsOf(order', arena', cached)
         == (if InFastSlot(arena, cached, pc) then ContentsOf(order, arena, cached)
             else ContentsOf(order, arena, cached)[pc := writePos])
      && (Distinct(order, arena) && pc !in ContentsOf(order, arena, cached) ==> Distinct(order', arena'))
  {
    var order', arena', pc := order + [writePos], arena[writePos := block], block.guestPc;
    GrownBy(order, arena, writePos, block);
    GrownKnown(order, arena, writePos, arena');
    PcsNext(order, arena, writePos, arena');
    FastIsKnown(order, arena, list, cached, pc);
    var contents, contents' := ContentsOf(order, arena, cached), ContentsOf(order', arena', cached);
    assert contents.Keys == PcsOf(order, arena) && contents'.Keys == PcsOf(order', arena');
    forall p | p in contents'.Keys
      ensures contents'[p] == if p == pc && !InFastSlot(arena, cached, pc) then writePos else contents[p]
    {
      FoundNext(order, arena, writePos, list, cached, block, p);
    }
    hide *;
    SameMap(contents, contents', pc, writePos, InFastSlot(arena, cached, pc));
  }

  lemma SameMap(m: map<nat, int>, m': map<nat, int>, pc: nat, k: int, fast: bool)
    requires m'.Keys == m.Keys + {pc} && (fast ==> pc in m)
    requires forall p :: p in m'.Keys ==> m'[p] == if p == pc && !fast then k else m[p]
    ensures m' == if fast then m else m[pc := k]
  {
    assert fast ==> m'.Keys == m.Keys;
  }

  lemma FastIsKnown(order: seq<nat>, arena: map<int, Block>, list: seq<int>, cached: seq<int>, pc: nat)
    requires (forall i :: 0 <= i < |order| ==> order[i] in arena) && Chained(order, arena, list, cached)
    ensures InFastSlot(arena, cached, pc) ==> pc in PcsOf(order, arena)
  {
    FoundIsBlock(order, arena, list, cached, pc);
    hide Chained, NewestOf;
    if InFastSlot(arena, cached, pc) {
      assert Found(order, arena, cached, pc) != -1;
    }
  }

  lemma {:induction false} NewestOfFrame(order: seq<nat>, arena: map<int, Block>, k: nat, arena': map<int, Block>, pc: nat, n: nat)
    requires n <= |order| && Grown(order, arena, k, arena')
    ensures forall i :: 0 <= i < |order + [k]| ==> (order + [k])[i] in arena'
    ensures NewestOf(order + [k], arena', pc, n) == NewestOf(order, arena, pc, n)
  {
    if n > 0 {
      NewestOfFrame(order, arena, k, arena', pc, n - 1);
    }
  }

  /** The fast slots hold blocks, so none of them can be meant for the new one. */
  lemma FastSlotFrame(order: seq<nat>, arena: map<int, Block>, writePos: nat, list: seq<int>, cached: seq<int>, block: Block, pc: nat)
    requires Tiled(order, arena, writePos) && Chained(order, arena, list, cached)
    ensures InFastSlot(arena[writePos := block], cached, pc) <==> InFastSlot(arena, cached, pc)
  {
    BelowWritePos(order, arena, writePos);
    hide Newest;
  }
}
