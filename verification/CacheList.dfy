/**
 All caches of a process and the request to clean them: after cleanCaches no lookup in any cache returns a
 block that was there before, whichever cache takes notice of the request first.
 */
module CacheList {
  import opened Cache

  class CacheList {
    var root: seq<TranslationCache>
    var cleanNeeded: bool
    /** The blocks of each cache that were appended after the last call of cleanCaches. */
    ghost var young: map<TranslationCache, set<nat>>

    ghost predicate Valid()
      reads this, root
    {
      && (forall i :: 0 <= i < |root| ==> root[i].Valid())
      && (forall i, j :: 0 <= i < j < |root| ==> root[i] != root[j])
      && (forall i :: 0 <= i < |root| ==> root[i] in young)
      && (forall i :: 0 <= i < |root| ==> cleanNeeded || root[i].clean || OnlyYoung(root[i]))
    }

    ghost predicate OnlyYoung(c: TranslationCache)
      requires c in young
      reads `young, c`order
    {
      forall i :: 0 <= i < |c.order| ==> c.order[i] in young[c]
    }

    constructor ()
      ensures Valid() && root == []
    {
      root, cleanNeeded, young := [], false, map[];
    }

    /** createCache with ll_append_cache. */
    method CreateCache(areaSize: nat) returns (c: TranslationCache)
      requires Valid()
      modifies this
      ensures Valid() && fresh(c) && root == [c] + old(root)
      ensures c.Valid() && c.Contents() == map[] && c.areaSize == areaSize
    {
      hide TranslationCache.Valid;
      c := new TranslationCache(areaSize);
      root := [c] + root;
      young := young[c := {}];
    }

    /** ll_remove_cache walks the list; the cache must be on it. */
    method RemoveCache(c: TranslationCache)
      requires Valid() && c in root
      modifies this
      ensures Valid() && c !in root && forall d :: d in root <==> d in old(root) && d != c
    {
      hide TranslationCache.Valid;
      var i := 0;
      while root[i] != c
        invariant 0 <= i < |root| && root == old(root) && forall j :: 0 <= j < i ==> root[j] != c
        invariant exists j :: i <= j < |root| && root[j] == c
        decreases |root| - i
      {
        i := i + 1;
      }
      assert root == root[..i] + [c] + root[i + 1..];
      root := root[..i] + root[i + 1..];
    }

    /** cleanCaches only leaves a request. */
    method CleanCaches()
      requires Valid()
      modifies this
      ensures Valid() && cleanNeeded && root == old(root)
      ensures forall c :: c in root ==> c in young && young[c] == {}
    {
      cleanNeeded := true;
      young := map c | c in young :: {};
    }

    /** ll_clean_caches. */
    method MarkAll()
      modifies (set i | 0 <= i < |root| :: root[i])`clean
      ensures forall i :: 0 <= i < |root| ==> root[i].clean
    {
      hide TranslationCache.Valid;
      var current := 0;
      while current < |root|
        invariant 0 <= current <= |root|
        invariant forall i :: 0 <= i < current ==> root[i].clean
      {
        root[current].clean := true;
        current := current + 1;
      }
    }

    /** lookup: a request marks all caches, a mark empties this one. */
    method Lookup(c: TranslationCache, pc: nat) returns (k: int, cleanEvent: bool)
      requires Valid() && c in root
      modifies this`cleanNeeded, set i | 0 <= i < |root| :: root[i]
      ensures Valid() && root == old(root) && young == old(young)
      ensures cleanEvent <==> old(cleanNeeded) || old(c.clean)
      ensures k == if !cleanEvent && pc in old(c.Contents()) then old(c.Contents())[pc] else -1
      ensures if cleanEvent then c.Contents() == map[] else old(c.IsDistinct()) ==> c.Contents() == old(c.Contents())
      ensures k != -1 ==> k in young[c]
      ensures !cleanNeeded && !c.clean
      ensures if cleanEvent then c.order == [] && c.writePos == 0
              else c.order == old(c.order) && c.arena == old(c.arena) && c.writePos == old(c.writePos)
      ensures forall d :: d in root && d != c ==>
        d.order == old(d.order) && d.arena == old(d.arena) && d.cached == old(d.cached) && d.writePos == old(d.writePos)
        && d.clean == (old(d.clean) || old(cleanNeeded))
    {
      hide TranslationCache.Valid;
      cleanEvent := false;
      if cleanNeeded {
        MarkAll();
        cleanNeeded := false;
      }
      if c.clean {
        c.Reset();
        return -1, true;
      }
      k := c.Search(pc);
    }

    /** append; whatever was requested meanwhile, the new block is young. */
    method Append(c: TranslationCache, pc: nat, size: nat) returns (k: nat, cleanEvent: bool)
      requires Valid() && c in root
      requires size + HEADER < 65536 && size + HEADER <= c.areaSize
      modifies this`young, c
      ensures Valid() && c.Valid() && young.Keys == old(young.Keys)
      ensures c.Contents() ==
        if cleanEvent then map[pc := k] else if old(c.InFast(pc)) then old(c.Contents()) else old(c.Contents())[pc := k]
      ensures young[c] == old(young[c]) + {k}
      ensures cleanEvent <==> old(c.writePos) + size + HEADER > c.areaSize
      ensures k == (if cleanEvent then 0 else old(c.writePos)) && c.writePos == k + size + HEADER
      ensures c.order == (if cleanEvent then [] else old(c.order)) + [k] && c.clean == (old(c.clean) && !cleanEvent)
      ensures c.Appended(if cleanEvent then [] else old(c.order), old(c.arena), pc, k)
      ensures cleanEvent || (old(c.IsDistinct()) && pc !in old(c.Contents())) ==> c.IsDistinct()
    {
      hide TranslationCache.Valid;
      k, cleanEvent := c.Append(pc, size);
      young := young[c := young[c] + {k}];
    }
  }
}
