/**
 What becomes of a subgraph when a list operation is handed the number of a block that is on no list.  The code
 does not check; where it does not follow a null pointer it leaves words that store no subgraph at all.
 */
module StrayBlocks {
  import opened BlockFormat
  import opened Ownership
  import opened FreeList
  import opened SubgraphModel
  import opened BlockLists
  import opened ListSoundness
  import opened SubgraphStorage

  /** No free stack and lists whatsoever are what the words store. */
  ghost predicate NoSubgraph(g: Geometry, mem: seq<Block>, vertices: seq<Vertex>, head: Word, count: Word) {
    forall s: Subgraph :: !(FreeOk(mem, head, count, s.free) && ListsSound(g, mem, vertices, s))
  }

  /** The heads of all lists are the same. */
  ghost predicate SameHeads(vertices: seq<Vertex>, vertices': seq<Vertex>) {
    |vertices| == |vertices'| && forall w :: 0 <= w < |vertices| ==> vertices'[w].head == vertices[w].head
  }

  /** The next words of a list are as they were. */
  ghost predicate SameNext(mem: seq<Block>, mem': seq<Block>, list: seq<nat>, n: nat)
    requires n <= |list|
  {
    forall i :: 0 <= i < n && list[i] < |mem| && NEXT < |mem[list[i]]| ==>
      list[i] < |mem'| && NEXT < |mem'[list[i]]| && mem'[list[i]][NEXT] == mem[list[i]][NEXT]
  }

  /** Lists are found by head and next words: where these are the same, so are the lists. */
  lemma SameList(g: Geometry, mem: seq<Block>, mem': seq<Block>, vertices: seq<Vertex>, vertices': seq<Vertex>,
                 s: Subgraph, s': Subgraph, w: nat)
    requires ListsSound(g, mem, vertices, s) && ListsSound(g, mem', vertices', s')
    requires w < |vertices| && SameHeads(vertices, vertices')
    requires |s.lists| == |vertices| && SameNext(mem, mem', s.lists[w], |s.lists[w]|)
    ensures w < |s'.lists| && s'.lists[w] == s.lists[w]
  {
    var list, list' := s.lists[w], s'.lists[w];
    hide WellFormed, AllSized;
    VertexFacts(g, mem, vertices, s, w);
    VertexFacts(g, mem', vertices', s', w);
    if list != [] {
      assert Linked(mem', vertices'[w], list', s'.body);
      forall i | 0 <= i < |list| ensures i < |list'| && list'[i] == list[i] {
        Follows(g, mem, mem', vertices, vertices', s, s', w, i);
      }
      var last := |list| - 1;
      BlockFacts(g, mem, vertices, s, w, last);
      BlockFacts(g, mem', vertices', s', w, last);
    }
  }

  /** A list that starts with the same head and next words starts with the same blocks. */
  lemma {:induction false} Follows(g: Geometry, mem: seq<Block>, mem': seq<Block>, vertices: seq<Vertex>,
                                   vertices': seq<Vertex>, s: Subgraph, s': Subgraph, w: nat, i: nat)
    requires ListsSound(g, mem, vertices, s) && ListsSound(g, mem', vertices', s')
    requires w < |vertices| && SameHeads(vertices, vertices')
    requires |s.lists| == |vertices| && i < |s.lists[w]| && SameNext(mem, mem', s.lists[w], i)
    ensures w < |s'.lists| && i < |s'.lists[w]| && s'.lists[w][i] == s.lists[w][i]
    decreases i
  {
    hide WellFormed, AllSized, Linked;
    VertexFacts(g, mem, vertices, s, w);
    VertexFacts(g, mem', vertices', s', w);
    BlockFacts(g, mem, vertices, s, w, i);
    if i > 0 {
      Follows(g, mem, mem', vertices, vertices', s, s', w, i - 1);
      BlockFacts(g, mem, vertices, s, w, i - 1);
      BlockFacts(g, mem', vertices', s', w, i - 1);
    }
  }

  /** The same lists leave the same number of free blocks. */
  lemma SameCount(g: Geometry, s: Subgraph, s': Subgraph)
    requires WellFormed(g, s) && WellFormed(g, s') && s'.lists == s.lists
    ensures |s'.free| - s'.sup == |s.free| - s.sup
  {
    PartitionExact(s.free, s.lists, s.sup);
    PartitionExact(s'.free, s'.lists, s'.sup);
  }

  // ---------------------------------------------------------------- insertions

  /** Around an insertion next to block `x`, which is on no list: `memA` is the memory after the allocation. */
  ghost predicate Stray(g: Geometry, mem: seq<Block>, memA: seq<Block>, mem': seq<Block>, vertices: seq<Vertex>,
                        vertices': seq<Vertex>, s: Subgraph, head: Word, count: Word, x: Word, b: Word)
  {
    && ListsSound(g, mem, vertices, s) && CanAllocate(g, s) && Grown(g, s).free != [] && b as nat == NextBlock(g, s)
    && !Listed(s.lists, x) && SameHeads(vertices, vertices')
    && |memA| == |mem'| == Grown(g, s).sup && AllSized(memA, g.words) && AllSized(mem', g.words)
    && (forall i :: 0 <= i < |mem| && i !in s.free ==> memA[i] == mem[i])
    && FreeOk(memA, head, count, Front(Grown(g, s).free))
    && x < |memA|
  }

  /** The number of free blocks would not fit the lists as they were. */
  lemma OneMissing(g: Geometry, mem: seq<Block>, memA: seq<Block>, mem': seq<Block>, vertices: seq<Vertex>,
                   vertices': seq<Vertex>, s: Subgraph, head: Word, count: Word, x: Word, b: Word, s': Subgraph)
    requires Stray(g, mem, memA, mem', vertices, vertices', s, head, count, x, b)
    requires FreeOk(mem', head, count, s'.free) && ListsSound(g, mem', vertices', s')
    ensures s'.lists != s.lists
  {
    GrownWellFormed(g, s);
    if s'.lists == s.lists {
      SameCount(g, Grown(g, s), s');
    }
  }

  /** Listed blocks are those of the store that are neither free nor handed out. */
  lemma NotListed(g: Geometry, s: Subgraph, x: nat)
    requires WellFormed(g, s) && CanAllocate(g, s) && Grown(g, s).free != []
    requires !Listed(s.lists, x) && x < Grown(g, s).sup && x != NextBlock(g, s)
    ensures x in Front(Grown(g, s).free)
  {
    GrownWellFormed(g, s);
    FrontMembers(Grown(g, s).free);
  }

  /** What list blocks keep when other blocks are written. */
  lemma NextKept(g: Geometry, mem: seq<Block>, memA: seq<Block>, mem': seq<Block>, s: Subgraph, w: nat, n: nat)
    requires WellFormed(g, s) && |mem| == s.sup <= |memA| == |mem'| && w < |s.lists| && n <= |s.lists[w]|
    requires forall i :: 0 <= i < |mem| && i !in s.free ==> memA[i] == mem[i]
    requires forall i :: 0 <= i < n && s.lists[w][i] < |memA| && NEXT < |memA[s.lists[w][i]]| ==>
      NEXT < |mem'[s.lists[w][i]]| && mem'[s.lists[w][i]][NEXT] == memA[s.lists[w][i]][NEXT]
    ensures SameNext(mem, mem', s.lists[w], n)
  {
    forall i | 0 <= i < n ensures s.lists[w][i] < s.sup && s.lists[w][i] !in s.free {
      LiveBlock(g, s, w, i);
    }
  }

  /** All lists are the same when no block of them was written a next word. */
  lemma SameLists(g: Geometry, mem: seq<Block>, memA: seq<Block>, mem': seq<Block>, vertices: seq<Vertex>,
                  vertices': seq<Vertex>, s: Subgraph, s': Subgraph)
    requires ListsSound(g, mem, vertices, s) && ListsSound(g, mem', vertices', s') && SameHeads(vertices, vertices')
    requires |mem| <= |memA| == |mem'| && forall i :: 0 <= i < |mem| && i !in s.free ==> memA[i] == mem[i]
    requires forall x :: 0 <= x < |memA| && NEXT < |memA[x]| && Listed(s.lists, x) ==>
      NEXT < |mem'[x]| && mem'[x][NEXT] == memA[x][NEXT]
    ensures s'.lists == s.lists
  {
    forall w | 0 <= w < |vertices| ensures w < |s'.lists| && s'.lists[w] == s.lists[w] {
      assert forall i :: 0 <= i < |s.lists[w]| ==> s.lists[w][i] in s.lists[w];
      NextKept(g, mem, memA, mem', s, w, |s.lists[w]|);
      SameList(g, mem, mem', vertices, vertices', s, s', w);
    }
  }

  lemma FreshNotListed(g: Geometry, s: Subgraph)
    requires WellFormed(g, s) && CanAllocate(g, s)
    ensures Grown(g, s).free != [] && !Listed(s.lists, NextBlock(g, s))
  {
    GrownWellFormed(g, s);
  }

  /** `insertNext` after such a block: no list leads to the new one, so the free blocks are one too few. */
  lemma StrayAfter(g: Geometry, mem: seq<Block>, memA: seq<Block>, mem': seq<Block>, vertices: seq<Vertex>,
                   vertices': seq<Vertex>, s: Subgraph, head: Word, count: Word, x: Word, b: Word, next: Word,
                   blk: Block)
    requires Stray(g, mem, memA, mem', vertices, vertices', s, head, count, x, b)
    requires next as int < |memA| && b as int < |memA| && NEXT < |memA[x]| && NEXT < |memA[next]|
    requires mem' == SetWord(SetWord(memA, x, NEXT, b), next, PREV, b)[b := blk]
    ensures NoSubgraph(g, mem', vertices', head, count)
  {
    FreshNotListed(g, s);
    forall s': Subgraph ensures !(FreeOk(mem', head, count, s'.free) && ListsSound(g, mem', vertices', s')) {
      if FreeOk(mem', head, count, s'.free) && ListsSound(g, mem', vertices', s') {
        SameLists(g, mem, memA, mem', vertices, vertices', s, s');
        OneMissing(g, mem, memA, mem', vertices, vertices', s, head, count, x, b, s');
      }
    }
  }

  /**
   `insertPrev` before such a block.  The number found in it for the block before may belong to a list; then the
   list leads to the new block and on to this one, which is still on the free stack.
   */
  lemma StrayBefore(g: Geometry, mem: seq<Block>, memA: seq<Block>, mem': seq<Block>, vertices: seq<Vertex>,
                    vertices': seq<Vertex>, s: Subgraph, head: Word, count: Word, x: Word, b: Word, prev: Word,
                    blk: Block)
    requires Stray(g, mem, memA, mem', vertices, vertices', s, head, count, x, b)
    requires prev as int < |memA| && b as int < |memA| && NEXT < |memA[x]| && NEXT < |memA[prev]|
    requires NEXT < |blk| && blk[NEXT] == x
    requires mem' == SetWord(SetWord(memA, x, PREV, b), prev, NEXT, b)[b := blk]
    ensures NoSubgraph(g, mem', vertices', head, count)
  {
    FreshNotListed(g, s);
    forall s': Subgraph ensures !(FreeOk(mem', head, count, s'.free) && ListsSound(g, mem', vertices', s')) {
      if FreeOk(mem', head, count, s'.free) && ListsSound(g, mem', vertices', s') {
        if Listed(s.lists, prev) {
          LedAstray(g, mem, memA, mem', vertices, vertices', s, head, count, x, b, prev, blk, s');
        } else {
          SameLists(g, mem, memA, mem', vertices, vertices', s, s');
          OneMissing(g, mem, memA, mem', vertices, vertices', s, head, count, x, b, s');
        }
      }
    }
  }

  /** A block that a list block leads to is on the same list. */
  lemma LeadsOn(g: Geometry, mem: seq<Block>, vertices: seq<Vertex>, s: Subgraph, w: nat, i: nat, b: Word)
    requires ListsSound(g, mem, vertices, s) && w < |vertices| && w < |s.lists| && i < |s.lists[w]|
    requires s.lists[w][i] < |mem| && NEXT < |mem[s.lists[w][i]]| && mem[s.lists[w][i]][NEXT] == b != INVALID_BLOCKNO
    ensures i + 1 < |s.lists[w]| && s.lists[w][i + 1] == b as nat && b as nat in s.lists[w] && b as nat !in s.free
  {
    BlockFacts(g, mem, vertices, s, w, i);
  }

  lemma StrayWords(memA: seq<Block>, mem': seq<Block>, s: Subgraph, x: Word, b: Word, prev: Word, blk: Block)
    requires x as int < |memA| && prev as int < |memA| && b as int < |memA| && NEXT < |memA[x]| && NEXT < |memA[prev]|
    requires mem' == SetWord(SetWord(memA, x, PREV, b), prev, NEXT, b)[b := blk]
    requires Listed(s.lists, prev) && !Listed(s.lists, x) && !Listed(s.lists, b)
    ensures |mem'| == |memA| && NEXT < |mem'[prev]| && mem'[prev][NEXT] == b && mem'[b] == blk
    ensures forall i :: 0 <= i < |memA| && NEXT < |memA[i]| && Listed(s.lists, i) && i != prev as nat ==>
      NEXT < |mem'[i]| && mem'[i][NEXT] == memA[i][NEXT]
  {
    hide Listed;
  }

  /** The list that had the block before leads to the new block and on to `x`. */
  lemma LeadsToStray(g: Geometry, mem: seq<Block>, memA: seq<Block>, mem': seq<Block>, vertices: seq<Vertex>,
                     vertices': seq<Vertex>, s: Subgraph, s': Subgraph, x: Word, b: Word, prev: Word, blk: Block)
    requires ListsSound(g, mem, vertices, s) && ListsSound(g, mem', vertices', s') && SameHeads(vertices, vertices')
    requires |mem| <= |memA| <= INVALID_BLOCKNO && forall i :: 0 <= i < |mem| && i !in s.free ==> memA[i] == mem[i]
    requires x as int < |memA| && prev as int < |memA| && b as int < |memA| && NEXT < |memA[x]| && NEXT < |memA[prev]|
    requires Listed(s.lists, prev) && !Listed(s.lists, x) && !Listed(s.lists, b)
    requires mem' == SetWord(SetWord(memA, x, PREV, b), prev, NEXT, b)[b := blk] && NEXT < |blk| && blk[NEXT] == x
    ensures x != b && x as nat !in s'.free
  {
    StrayWords(memA, mem', s, x, b, prev, blk);
    hide SetWord, WellFormed, AllSized, Linked;
    var w :| 0 <= w < |s.lists| && prev as nat in s.lists[w];
    var j := IndexOf(s.lists[w], prev);
    ListBefore(g, mem, memA, mem', vertices, vertices', s, s', w, j, prev);
    hide ListsSound;
    LeadsOn(g, mem', vertices', s', w, j, b);
    LeadsOn(g, mem', vertices', s', w, j + 1, x);
    NeighboursDiffer(g, mem', vertices', s', w, j + 1);
  }

  lemma LedAstray(g: Geometry, mem: seq<Block>, memA: seq<Block>, mem': seq<Block>, vertices: seq<Vertex>,
                  vertices': seq<Vertex>, s: Subgraph, head: Word, count: Word, x: Word, b: Word, prev: Word,
                  blk: Block, s': Subgraph)
    requires Stray(g, mem, memA, mem', vertices, vertices', s, head, count, x, b)
    requires prev as int < |memA| && b as int < |memA| && NEXT < |memA[x]| && NEXT < |memA[prev]|
    requires NEXT < |blk| && blk[NEXT] == x && Listed(s.lists, prev)
    requires mem' == SetWord(SetWord(memA, x, PREV, b), prev, NEXT, b)[b := blk]
    requires ListsSound(g, mem', vertices', s')
    ensures !FreeOk(mem', head, count, s'.free)
  {
    FreshNotListed(g, s);
    GrownWellFormed(g, s);
    hide FreeOk, WellFormed, AllSized, Linked, SetWord, NextBlock, CanAllocate;
    LeadsToStray(g, mem, memA, mem', vertices, vertices', s, s', x, b, prev, blk);
    if FreeOk(mem', head, count, s'.free) {
      StraysStay(g, mem, memA, mem', vertices, vertices', s, head, count, x, b, prev, blk, s'.free);
    }
  }

  lemma NeighboursDiffer(g: Geometry, mem: seq<Block>, vertices: seq<Vertex>, s: Subgraph, w: nat, i: nat)
    requires ListsSound(g, mem, vertices, s) && w < |s.lists| && i + 1 < |s.lists[w]|
    ensures s.lists[w][i] != s.lists[w][i + 1]
  {
  }

  /** A list that had block `p` leads up to it as it did when no next words were written before it. */
  lemma ListBefore(g: Geometry, mem: seq<Block>, memA: seq<Block>, mem': seq<Block>, vertices: seq<Vertex>,
                   vertices': seq<Vertex>, s: Subgraph, s': Subgraph, w: nat, j: nat, p: nat)
    requires ListsSound(g, mem, vertices, s) && ListsSound(g, mem', vertices', s') && SameHeads(vertices, vertices')
    requires |mem| <= |memA| == |mem'| && forall i :: 0 <= i < |mem| && i !in s.free ==> memA[i] == mem[i]
    requires w < |s.lists| && j < |s.lists[w]| && s.lists[w][j] == p
    requires forall x :: 0 <= x < |memA| && NEXT < |memA[x]| && Listed(s.lists, x) && x != p ==>
      NEXT < |mem'[x]| && mem'[x][NEXT] == memA[x][NEXT]
    ensures w < |vertices'| && w < |s'.lists| && j < |s'.lists[w]| && s'.lists[w][j] == p
  {
    assert forall i :: 0 <= i < |s.lists[w]| ==> s.lists[w][i] in s.lists[w];
    assert forall i :: 0 <= i < j ==> s.lists[w][i] != p;
    NextKept(g, mem, memA, mem', s, w, j);
    Follows(g, mem, mem', vertices, vertices', s, s', w, j);
  }

  /** Whatever stack is stored afterwards, block `x` is on it if it is not the new one. */
  lemma StraysStay(g: Geometry, mem: seq<Block>, memA: seq<Block>, mem': seq<Block>, vertices: seq<Vertex>,
                   vertices': seq<Vertex>, s: Subgraph, head: Word, count: Word, x: Word, b: Word, prev: Word,
                   blk: Block, t: seq<nat>)
    requires Stray(g, mem, memA, mem', vertices, vertices', s, head, count, x, b)
    requires prev as int < |memA| && b as int < |memA| && NEXT < |memA[x]| && NEXT < |memA[prev]|
    requires mem' == SetWord(SetWord(memA, x, PREV, b), prev, NEXT, b)[b := blk]
    requires Listed(s.lists, prev) && FreeOk(mem', head, count, t) && x != b
    ensures x as nat in t
  {
    var free := Front(Grown(g, s).free);
    NotListed(g, s, x);
    FreeApart(g, s, prev);
    assert forall i :: 0 <= i < |free| ==> free[i] in free;
    hide ListsSound, WellFormed;
    Stays(memA, mem', head, free, t, x, x);
  }

  /** The free blocks after an allocation are on no list and are not the one handed out. */
  lemma FreeApart(g: Geometry, s: Subgraph, p: nat)
    requires WellFormed(g, s) && CanAllocate(g, s) && Grown(g, s).free != []
    ensures Listed(s.lists, p) ==> p !in Front(Grown(g, s).free)
    ensures NextBlock(g, s) !in Front(Grown(g, s).free)
  {
    GrownWellFormed(g, s);
    FrontMembers(Grown(g, s).free);
  }

  // ---------------------------------------------------------------- removal

  /** Around a removal of block `x`, which is free: `memL` is the memory after the links are written. */
  ghost predicate StrayRemoval(g: Geometry, mem: seq<Block>, memL: seq<Block>, mem': seq<Block>,
                               vertices: seq<Vertex>, vertices': seq<Vertex>, s: Subgraph, head: Word, count: Word,
                               head': Word, x: Word, prev: Word, next: Word)
  {
    && ListsSound(g, mem, vertices, s) && FreeOk(mem, head, count, s.free) && x as nat in s.free
    && |mem| <= INVALID_BLOCKNO && SameHeads(vertices, vertices')
    && prev as int < |mem| && next as int < |mem| && NEXT < |mem[prev]| && NEXT < |mem[next]|
    && memL == SetWord(SetWord(mem, prev, NEXT, next), next, PREV, prev)
    && PushedWords(memL, head, x, mem', head') && AllSized(mem', g.words)
  }

  /** The release writes free blocks only. */
  lemma ReleaseApart(g: Geometry, mem: seq<Block>, memL: seq<Block>, mem': seq<Block>, vertices: seq<Vertex>,
                     vertices': seq<Vertex>, s: Subgraph, head: Word, count: Word, head': Word, x: Word, prev: Word,
                     next: Word)
    requires StrayRemoval(g, mem, memL, mem', vertices, vertices', s, head, count, head', x, prev, next)
    ensures |mem'| == |memL| == |mem| && forall i :: 0 <= i < |mem| && i !in s.free ==> mem'[i] == memL[i]
  {
    assert s.free[Base(mem, head, s.free)] == head;
    hide ListsSound, Chain;
  }

  lemma OneMore(g: Geometry, s: Subgraph, s': Subgraph, mem: seq<Block>, head: Word, count: Word)
    requires WellFormed(g, s) && WellFormed(g, s') && s'.sup == s.sup && FreeOk(mem, head, count, s.free)
    requires |mem| <= INVALID_BLOCKNO
    ensures s'.lists == s.lists ==> AddWord(count, 1) as int != |s'.free|
  {
    NoDupBound(s.free, |mem|);
    if s'.lists == s.lists {
      SameCount(g, s, s');
    }
  }

  /** When the number found for the block before is on no list, no list changes. */
  lemma ListsKept(g: Geometry, mem: seq<Block>, memL: seq<Block>, mem': seq<Block>, vertices: seq<Vertex>,
                  vertices': seq<Vertex>, s: Subgraph, head: Word, count: Word, head': Word, x: Word, prev: Word,
                  next: Word, s': Subgraph)
    requires StrayRemoval(g, mem, memL, mem', vertices, vertices', s, head, count, head', x, prev, next)
    requires !Listed(s.lists, prev) && ListsSound(g, mem', vertices', s')
    ensures !FreeOk(mem', head', AddWord(count, 1), s'.free)
  {
    ReleaseApart(g, mem, memL, mem', vertices, vertices', s, head, count, head', x, prev, next);
    forall i | 0 <= i < |mem| && Listed(s.lists, i) ensures i !in s.free && i != prev as nat {
    }
    hide FreeOk, PushedWords;
    SameLists(g, mem, mem, mem', vertices, vertices', s, s');
    OneMore(g, s, s', mem, head, count);
    if FreeOk(mem', head', AddWord(count, 1), s'.free) {
      FreeCount(mem', head', AddWord(count, 1), s'.free);
    }
  }

  lemma FreeCount(mem: seq<Block>, head: Word, count: Word, free: seq<nat>)
    requires FreeOk(mem, head, count, free)
    ensures count as int == |free| && NoDup(free) && InRange(mem, free)
  {
  }

  /** When both numbers are on lists, the free list is as it was, and has the block released. */
  lemma FreeListKept(g: Geometry, mem: seq<Block>, memL: seq<Block>, mem': seq<Block>, vertices: seq<Vertex>,
                     vertices': seq<Vertex>, s: Subgraph, head: Word, count: Word, head': Word, x: Word, prev: Word,
                     next: Word)
    requires StrayRemoval(g, mem, memL, mem', vertices, vertices', s, head, count, head', x, prev, next)
    requires Listed(s.lists, prev) && Listed(s.lists, next)
    ensures NoStack(mem', head', AddWord(count, 1))
  {
    assert forall i :: 0 <= i < |s.free| ==> s.free[i] in s.free;
    ChainFrame(mem, memL, head, s.free);
    PushedTwice(memL, head, count, s.free, x, mem', head');
  }

  /** When only the one before is, its list is led on to the one after, which is free. */
  lemma LedOn(g: Geometry, mem: seq<Block>, memL: seq<Block>, mem': seq<Block>, vertices: seq<Vertex>,
              vertices': seq<Vertex>, s: Subgraph, head: Word, count: Word, head': Word, x: Word, prev: Word,
              next: Word, s': Subgraph)
    requires StrayRemoval(g, mem, memL, mem', vertices, vertices', s, head, count, head', x, prev, next)
    requires Listed(s.lists, prev) && !Listed(s.lists, next) && ListsSound(g, mem', vertices', s')
    ensures next as nat in s.free && next as nat !in s'.free
  {
    assert next as nat in s.free && prev as nat !in s.free;
    forall i | 0 <= i < |mem| && Listed(s.lists, i) ensures i !in s.free {
    }
    ReleaseApart(g, mem, memL, mem', vertices, vertices', s, head, count, head', x, prev, next);
    hide FreeOk, PushedWords;
    var w :| 0 <= w < |s.lists| && prev as nat in s.lists[w];
    var j := IndexOf(s.lists[w], prev);
    ListBefore(g, mem, mem, mem', vertices, vertices', s, s', w, j, prev);
    hide ListsSound, WellFormed;
    LeadsOn(g, mem', vertices', s', w, j, next);
  }

  lemma StillFree(g: Geometry, mem: seq<Block>, memL: seq<Block>, mem': seq<Block>, vertices: seq<Vertex>,
                  vertices': seq<Vertex>, s: Subgraph, head: Word, count: Word, head': Word, x: Word, prev: Word,
                  next: Word, t: seq<nat>)
    requires StrayRemoval(g, mem, memL, mem', vertices, vertices', s, head, count, head', x, prev, next)
    requires Listed(s.lists, prev) && next as nat in s.free && FreeOk(mem', head', AddWord(count, 1), t)
    ensures next as nat in t
  {
    assert prev as nat !in s.free;
    assert forall i :: 0 <= i < |s.free| ==> s.free[i] in s.free;
    hide ListsSound;
    PushedOnly(memL, head, x, mem', head', AddWord(count, 1), t);
    Stays(mem, memL, head, s.free, Front(t), next, next);
  }

  /**
   `remove` of a free block.  Three cases: the number found in it for the block before belongs to no list, and
   then no list changes while one more block is counted as free; or both numbers do, and the block is pushed on
   the stack that has it; or a list is led on to the block after, which is still on the stack.
   */
  lemma StrayRemoved(g: Geometry, mem: seq<Block>, memL: seq<Block>, mem': seq<Block>, vertices: seq<Vertex>,
                     vertices': seq<Vertex>, s: Subgraph, head: Word, count: Word, head': Word, x: Word, prev: Word,
                     next: Word)
    requires StrayRemoval(g, mem, memL, mem', vertices, vertices', s, head, count, head', x, prev, next)
    ensures NoSubgraph(g, mem', vertices', head', AddWord(count, 1))
  {
    hide StrayRemoval, FreeOk, ListsSound;
    forall s': Subgraph
      ensures !(FreeOk(mem', head', AddWord(count, 1), s'.free) && ListsSound(g, mem', vertices', s'))
    {
      if FreeOk(mem', head', AddWord(count, 1), s'.free) && ListsSound(g, mem', vertices', s') {
        if !Listed(s.lists, prev) {
          ListsKept(g, mem, memL, mem', vertices, vertices', s, head, count, head', x, prev, next, s');
        } else if Listed(s.lists, next) {
          FreeListKept(g, mem, memL, mem', vertices, vertices', s, head, count, head', x, prev, next);
        } else {
          LedOn(g, mem, memL, mem', vertices, vertices', s, head, count, head', x, prev, next, s');
          StillFree(g, mem, memL, mem', vertices, vertices', s, head, count, head', x, prev, next, s'.free);
        }
      }
    }
  }
}
