/**
 `SubgraphSetType`: the list operations on the vertices of one attached subgraph.
 Every operation is proved to be its counterpart on the abstract subgraph.
 */
module SubgraphSet {
  import opened BlockFormat
  import opened Ownership
  import opened FreeList
  import opened BlockStore
  import opened SubgraphModel
  import opened BlockLists
  import opened ListSoundness
  import opened SubgraphStorage
  import opened StrayBlocks

  /** What a call comes to; `Crashed` when it follows a null pointer. */
  datatype Reply = Given(blkno: Word) | Done | Threw | Crashed

  /** The list of a vertex. */
  ghost function ListOf(st: Storage, vtxno: Word): seq<nat>
    requires st.Sound() && st.ContainsVertex(vtxno)
    reads st, st.mem
  {
    st.lists[st.Index(vtxno)]
  }

  /**
   A block with the given content joined vertex `v`'s list at position `k` and nothing else changed; or, with
   block numbers exhausted, the call threw.  Then the vertex has already been resized if the code resizes
   before it allocates; every stored block is as it was, and the subgraph is sound exactly when the bound of
   the store could not move.
   */
  twostate predicate InsertedAt(st: Storage, v: nat, k: nat, content: Body, r: Reply, resizeFirst: bool)
    requires old(st.Sound()) && v < |old(st.lists)| && k <= |old(st.lists)[v]|
    reads st, st.mem
  {
    if CanAllocate(st.mem.g, old(st.Model())) then
      && st.Sound()
      && st.FirstVertex() == old(st.FirstVertex())
      && st.Model() == InsertBlock(st.mem.g, old(st.Model()), v, k, content)
      && r.Given? && r.blkno as nat == NextBlock(st.mem.g, old(st.Model()))
      && Grew(st, v, content)
    else
      && r == Threw && st.Refused()
      && st.lists == old(st.lists) && st.body == old(st.body)
      && st.vertices ==
         (if resizeFirst then old(st.vertices)[v := Resized(old(st.vertices)[v], content)] else old(st.vertices))
      && (resizeFirst ==> Grew(st, v, content))
      && (st.Sound() <==> old(st.mem.supBlkno) as int == st.mem.g.blknoMax)
  }

  /** The vertex size grew by the size field of the content: the low half of its fifth word, modulo 2^32. */
  twostate predicate Grew(st: Storage, v: nat, content: Body)
    reads st
  {
    && v < |old(st.vertices)| && v < |st.vertices| && 5 <= |content|
    && SizeGrew(old(st.vertices)[v].size, st.vertices[v].size, content[4])
  }

  /** It shrank by the size field of block `b`. */
  twostate predicate Shrank(st: Storage, v: nat, b: nat)
    reads st, st.mem
  {
    && v < |old(st.vertices)| && v < |st.vertices|
    && TakenOff(old(st.mem.blocks), old(st.vertices)[v].size, st.vertices[v].size, b)
  }

  function Resized(vtx: Vertex, content: Body): Vertex {
    vtx.(size := AddWord(vtx.size, ContentSize(content)))
  }

  /** The block at position `k` left vertex `v`'s list for the top of the free stack and nothing else changed. */
  twostate predicate DeletedAt(st: Storage, v: nat, k: nat)
    requires old(st.Sound()) && v < |old(st.lists)| && k < |old(st.lists)[v]|
    reads st, st.mem
  {
    && st.Sound()
    && st.FirstVertex() == old(st.FirstVertex())
    && st.Model() == DeleteBlock(old(st.Model()), v, k)
    && Shrank(st, v, old(st.lists)[v][k])
  }

  twostate predicate Unchanged(st: Storage)
    requires old(st.Sound())
    reads st, st.mem
  {
    st.Sound() && st.FirstVertex() == old(st.FirstVertex()) && st.Model() == old(st.Model())
  }

  /** The links an insertion writes: one at either end of a list, and two inside it in either order. */
  lemma LinksAt(mem: seq<Block>, list: seq<nat>, k: nat, b: Word)
    requires k <= |list| && NoDup(list) && Sized(mem, list)
    ensures k == |list| ==>
      WithLinks(mem, list, k, b) == if list == [] then mem else SetWord(mem, list[|list| - 1], NEXT, b)
    ensures k == 0 ==> WithLinks(mem, list, k, b) == if list == [] then mem else SetWord(mem, list[0], PREV, b)
    ensures 0 < k < |list| ==>
      && WithLinks(mem, list, k, b) == SetWord(SetWord(mem, list[k - 1], NEXT, b), list[k], PREV, b)
      && WithLinks(mem, list, k, b) == SetWord(SetWord(mem, list[k], PREV, b), list[k - 1], NEXT, b)
  {
  }

  /** A call that threw may have resized a vertex, but the lists are stored as before. */
  twostate lemma SettleThrow(st: Storage)
    requires old(st.Sound()) && st.Refused() && !CanAllocate(st.mem.g, old(st.Model()))
    requires st.lists == old(st.lists) && st.body == old(st.body) && |st.vertices| == |old(st.vertices)|
    requires forall w :: 0 <= w < |st.vertices| ==>
      st.vertices[w] == old(st.vertices)[w].(size := st.vertices[w].size)
    ensures st.Sound() <==> old(st.mem.supBlkno) as int == st.mem.g.blknoMax
  {
    hide WellFormed, Linked, FreeOk, BlockStore.BlockMemory.Valid;
    if old(st.mem.supBlkno) as int == st.mem.g.blknoMax {
      ResizedSound(st.mem.g, st.mem.blocks, old(st.vertices), st.vertices, old(st.Model()));
      assert st.Model() == old(st.Model()).(sizes := SizesOf(st.vertices));
    }
  }

  // ---------------------------------------------------------------- insertions

  method Push(st: Storage, vtxno: Word, buf: Block) returns (r: Reply)
    requires st.Sound() && st.ContainsVertex(vtxno) && |buf| == st.mem.g.words
    modifies st, st.mem
    ensures InsertedAt(st, old(st.Index(vtxno)), |old(ListOf(st, vtxno))|, buf[BODY..], r, true)
    ensures var v := old(st.Index(vtxno));
            v < |st.vertices| && 7 < |buf| && SizeGrew(old(st.vertices)[v].size, st.vertices[v].size, buf[7])
  {
    hide WellFormed, ListsSound, FreeOk, Linked, AllSized, Sized, NoDup, BlockStore.BlockMemory.Valid;
    hide InsertBlock, NextBlock, CanAllocate, AddWord, ContentSize, SizeGrew;
    var v := st.Index(vtxno);
    ghost var s, mem0, vertices0 := st.Model(), st.mem.blocks, st.vertices;
    VertexFacts(st.mem.g, mem0, vertices0, s, v);
    ResizedGrew(st.mem.g, mem0, vertices0, s, v, buf);
    ghost var list := s.lists[v];
    st.mem.Facts();
    ghost var memA;
    r, memA := PushWords(st, v, vtxno, buf);
    if r.Given? {
      st.mem.Facts();
      AfterRequire(st.mem.g, mem0, memA, vertices0, s, v);
      LinksAt(memA, list, |list|, r.blkno);
      hide WithLinks, SetWord, LinkedBlock;
      Settle(st, mem0, memA, vertices0, s, v, |list|, r.blkno, buf, vertices0[v].tail, INVALID_BLOCKNO);
    } else {
      SettleThrow(st);
    }
  }

  /** The steps of `push`, relying on no more than that the old tail, if any, is in use. */
  method PushWords(st: Storage, v: nat, vtxno: Word, buf: Block)
    returns (r: Reply, ghost memA: seq<Block>)
    requires st.Valid() && v < |st.vertices| && |buf| == st.mem.g.words && BODY < |buf|
    requires st.vertices[v].tail != INVALID_BLOCKNO ==> Used(st.mem.g, st.Model(), st.vertices[v].tail)
    modifies st`vertices, st`numOfFreeBlks, st`headBlkno, st`free, st.mem
    ensures if CanAllocate(st.mem.g, old(st.Model())) then
              && st.Valid() && r.Given?
              && r.blkno as nat == NextBlock(st.mem.g, old(st.Model())) && r.blkno < st.mem.supBlkno
              && st.free == Front(Grown(st.mem.g, old(st.Model())).free)
              && st.mem.supBlkno as int == Grown(st.mem.g, old(st.Model())).sup
            else
              && r == Threw && st.Refused()
              && st.vertices == old(st.vertices)[v := Resized(old(st.vertices)[v], buf[BODY..])]
    ensures r.Given? ==>
      && |old(st.mem.blocks)| <= |memA| == |st.mem.blocks| && AllSized(memA, st.mem.g.words)
      && (forall x :: 0 <= x < |old(st.mem.blocks)| && x !in old(st.free) ==> memA[x] == old(st.mem.blocks)[x])
    ensures r.Given? ==>
      var tail := old(st.vertices)[v].tail;
      && (tail != INVALID_BLOCKNO ==> tail as int < |memA|)
      && st.mem.blocks == (if tail != INVALID_BLOCKNO then SetWord(memA, tail, NEXT, r.blkno) else memA)
                            [r.blkno := LinkedBlock(buf, vtxno, tail, INVALID_BLOCKNO)]
      && st.vertices == old(st.vertices)[v := Resized(old(st.vertices)[v], buf[BODY..])
                          .(tail := r.blkno,
                            head := if tail == INVALID_BLOCKNO then r.blkno else old(st.vertices)[v].head)]
  {
    hide FreeOk, AllSized, Chain, BlockStore.BlockMemory.Valid, AddWord, SubWord;
    st.mem.Facts();
    st.vertices := st.vertices[v := Resized(st.vertices[v], buf[BODY..])];
    var ok, b := st.Require();
    memA := st.mem.blocks;
    if !ok {
      return Threw, memA;
    }
    st.mem.Facts();
    AllSizedAt(memA, st.mem.g.words);
    var blk := buf[SOURCE := vtxno];
    var oldTail := st.vertices[v].tail;
    if oldTail != INVALID_BLOCKNO {
      st.vertices := st.vertices[v := st.vertices[v].(tail := b)];
      blk := blk[PREV := oldTail];
      blk := blk[NEXT := INVALID_BLOCKNO];
      st.SetLink(oldTail, NEXT, b);
    } else {
      st.vertices := st.vertices[v := st.vertices[v].(head := b, tail := b)];
      blk := blk[PREV := INVALID_BLOCKNO];
      blk := blk[NEXT := INVALID_BLOCKNO];
    }
    st.WriteBlock(b, blk);
    r := Given(b);
  }

  /** The block an insertion writes: the caller's content under a header with these links. */
  function LinkedBlock(buf: Block, vtxno: Word, prev: Word, next: Word): (blk: Block)
    requires BODY < |buf|
    ensures |blk| == |buf| && blk[BODY..] == buf[BODY..]
    ensures blk[SOURCE] == vtxno && blk[PREV] == prev && blk[NEXT] == next
    ensures blk == buf[SOURCE := vtxno][NEXT := next][PREV := prev]
  {
    var a: Block := buf[SOURCE := vtxno];
    var b: Block := a[PREV := prev];
    b[NEXT := next]
  }

  /** Records an insertion whose words are all written. */
  ghost method Settle(st: Storage, mem0: seq<Block>, memA: seq<Block>, vertices0: seq<Vertex>, s: Subgraph,
                      v: nat, k: nat, b: Word, buf: Block, prev: Word, next: Word)
    requires st.Valid() && ListsSound(st.mem.g, mem0, vertices0, s) && CanAllocate(st.mem.g, s)
    requires v < |s.lists| == |vertices0| && k <= |s.lists[v]| && BODY < |buf| == st.mem.g.words
    requires prev as nat == Before(s.lists[v], k, INVALID_BLOCKNO)
    requires next as nat == (if k == |s.lists[v]| then INVALID_BLOCKNO else s.lists[v][k])
    requires b as nat == NextBlock(st.mem.g, s) && |mem0| <= |memA| == Grown(st.mem.g, s).sup && b as int < |memA|
    requires AllSized(memA, st.mem.g.words) && Sized(memA, s.lists[v])
    requires forall x :: 0 <= x < |mem0| && x !in s.free ==> memA[x] == mem0[x]
    requires st.mem.blocks == WithLinks(memA, s.lists[v], k, b)[b := LinkedBlock(buf, vertices0[v].source, prev, next)]
    requires st.vertices == vertices0[v := Joined(vertices0[v], s.lists[v], k, b, buf[BODY..])]
    requires st.free == Front(Grown(st.mem.g, s).free) && st.mem.supBlkno as int == Grown(st.mem.g, s).sup
    requires st.lists == s.lists && st.body == s.body
    modifies st`lists, st`body
    ensures st.Sound() && st.Model() == InsertBlock(st.mem.g, s, v, k, buf[BODY..])
    ensures 5 <= |buf[BODY..]| && SizeGrew(vertices0[v].size, st.vertices[v].size, buf[BODY..][4])
  {
    hide FreeOk, Linked, AllSized, Partition, Carried, BlockStore.BlockMemory.Valid;
    SizeMoves(vertices0[v].size, buf[BODY..]);
    hide SizeGrew;
    var blk := LinkedBlock(buf, vertices0[v].source, prev, next);
    InsertionSound(st.mem.g, mem0, memA, st.mem.blocks, vertices0, s, v, k, b, blk);
    SizesUpdate(vertices0, v, st.vertices[v]);
    st.lists := s.lists[v := Insert(s.lists[v], k, b)];
    st.body := s.body[b as nat := buf[BODY..]];
    assert st.Model() == InsertBlock(st.mem.g, s, v, k, buf[BODY..]);
  }

  method Unshift(st: Storage, vtxno: Word, buf: Block) returns (r: Reply)
    requires st.Sound() && st.ContainsVertex(vtxno) && |buf| == st.mem.g.words
    modifies st, st.mem
    ensures InsertedAt(st, old(st.Index(vtxno)), 0, buf[BODY..], r, true)
    ensures var v := old(st.Index(vtxno));
            v < |st.vertices| && 7 < |buf| && SizeGrew(old(st.vertices)[v].size, st.vertices[v].size, buf[7])
  {
    hide WellFormed, ListsSound, FreeOk, Linked, AllSized, Sized, NoDup, BlockStore.BlockMemory.Valid;
    hide InsertBlock, NextBlock, CanAllocate, AddWord, ContentSize, SizeGrew;
    var v := st.Index(vtxno);
    ghost var s, mem0, vertices0 := st.Model(), st.mem.blocks, st.vertices;
    VertexFacts(st.mem.g, mem0, vertices0, s, v);
    ResizedGrew(st.mem.g, mem0, vertices0, s, v, buf);
    st.mem.Facts();
    ghost var memA;
    r, memA := UnshiftWords(st, v, vtxno, buf);
    if r.Given? {
      st.mem.Facts();
      AfterRequire(st.mem.g, mem0, memA, vertices0, s, v);
      LinksAt(memA, s.lists[v], 0, r.blkno);
      hide WithLinks, SetWord, LinkedBlock;
      Settle(st, mem0, memA, vertices0, s, v, 0, r.blkno, buf, INVALID_BLOCKNO, vertices0[v].head);
    } else {
      SettleThrow(st);
    }
  }

  /** The steps of `unshift`, relying on no more than that the old head, if any, is not left on the free stack. */
  method UnshiftWords(st: Storage, v: nat, vtxno: Word, buf: Block)
    returns (r: Reply, ghost memA: seq<Block>)
    requires st.Valid() && v < |st.vertices| && |buf| == st.mem.g.words && BODY < |buf|
    requires st.vertices[v].head != INVALID_BLOCKNO && CanAllocate(st.mem.g, st.Model()) ==>
      st.vertices[v].head < st.mem.supBlkno && st.vertices[v].head as nat !in Front(Grown(st.mem.g, st.Model()).free)
    modifies st`vertices, st`numOfFreeBlks, st`headBlkno, st`free, st.mem
    ensures if CanAllocate(st.mem.g, old(st.Model())) then
              && st.Valid() && r.Given?
              && r.blkno as nat == NextBlock(st.mem.g, old(st.Model())) && r.blkno < st.mem.supBlkno
              && st.free == Front(Grown(st.mem.g, old(st.Model())).free)
              && st.mem.supBlkno as int == Grown(st.mem.g, old(st.Model())).sup
            else
              && r == Threw && st.Refused()
              && st.vertices == old(st.vertices)[v := Resized(old(st.vertices)[v], buf[BODY..])]
    ensures r.Given? ==>
      && |old(st.mem.blocks)| <= |memA| == |st.mem.blocks| && AllSized(memA, st.mem.g.words)
      && (forall x :: 0 <= x < |old(st.mem.blocks)| && x !in old(st.free) ==> memA[x] == old(st.mem.blocks)[x])
    ensures r.Given? ==>
      var head := old(st.vertices)[v].head;
      && (head != INVALID_BLOCKNO ==> head as int < |memA|)
      && st.mem.blocks == (if head != INVALID_BLOCKNO then SetWord(memA, head, PREV, r.blkno) else memA)
                            [r.blkno := LinkedBlock(buf, vtxno, INVALID_BLOCKNO, head)]
      && st.vertices == old(st.vertices)[v := Resized(old(st.vertices)[v], buf[BODY..])
                          .(head := r.blkno,
                            tail := if head == INVALID_BLOCKNO then r.blkno else old(st.vertices)[v].tail)]
  {
    hide FreeOk, AllSized, Chain, BlockStore.BlockMemory.Valid, AddWord, SubWord;
    st.mem.Facts();
    st.vertices := st.vertices[v := Resized(st.vertices[v], buf[BODY..])];
    var ok, b := st.Require();
    memA := st.mem.blocks;
    if !ok {
      return Threw, memA;
    }
    st.mem.Facts();
    AllSizedAt(memA, st.mem.g.words);
    var blk := buf[SOURCE := vtxno];
    var oldHead := st.vertices[v].head;
    if oldHead != INVALID_BLOCKNO {
      st.vertices := st.vertices[v := st.vertices[v].(head := b)];
      blk := blk[NEXT := oldHead];
      blk := blk[PREV := INVALID_BLOCKNO];
      st.SetLink(oldHead, PREV, b);
    } else {
      st.vertices := st.vertices[v := st.vertices[v].(head := b, tail := b)];
      blk := blk[NEXT := INVALID_BLOCKNO];
      blk := blk[PREV := INVALID_BLOCKNO];
    }
    st.WriteBlock(b, blk);
    r := Given(b);
  }

  /**
   An insertion next to a block of another vertex's list.  With block numbers left it follows a null pointer at
   the end of that list; elsewhere it links a block into it that names this vertex, and no lists are stored
   soundly any more.
   */
  twostate predicate Misplaced(st: Storage, v: nat, content: Body, r: Reply, atEnd: bool)
    requires old(st.Sound())
    reads st, st.mem
  {
    if !CanAllocate(st.mem.g, old(st.Model())) then
      && r == Threw && st.Refused()
      && st.vertices == old(st.vertices) && st.lists == old(st.lists) && st.body == old(st.body)
      && (st.Sound() <==> old(st.mem.supBlkno) as int == st.mem.g.blknoMax)
    else if atEnd then
      r == Crashed
    else
      && r.Given? && r.blkno as nat == NextBlock(st.mem.g, old(st.Model()))
      && st.Valid() && v < |old(st.vertices)|
      && st.vertices == old(st.vertices)[v := Resized(old(st.vertices)[v], content)] && Grew(st, v, content)
      && NoLists(st.mem.g, st.mem.blocks, st.vertices)
  }

  /**
   An insertion next to block `x` that is on no list.  With block numbers left it follows a null pointer, always
   when `x` is outside the store, or it leaves words that store no subgraph.
   */
  twostate predicate Strayed(st: Storage, x: Word, r: Reply)
    requires old(st.Sound())
    reads st, st.mem
  {
    if !CanAllocate(st.mem.g, old(st.Model())) then
      && r == Threw && st.Refused()
      && st.vertices == old(st.vertices) && st.lists == old(st.lists) && st.body == old(st.body)
      && (st.Sound() <==> old(st.mem.supBlkno) as int == st.mem.g.blknoMax)
    else if Grown(st.mem.g, old(st.Model())).sup <= x then
      r == Crashed
    else
      r == Crashed || (
        && r.Given? && r.blkno as nat == NextBlock(st.mem.g, old(st.Model()))
        && NoSubgraph(st.mem.g, st.mem.blocks, st.vertices, st.headBlkno, st.numOfFreeBlks))
  }

  /** Writes to blocks that are not free leave the free list alone. */
  lemma FreeListStays(memA: seq<Block>, mem: seq<Block>, head: Word, count: Word, free: seq<nat>)
    requires FreeOk(memA, head, count, free) && |memA| == |mem|
    requires forall x :: 0 <= x < |mem| && x in free ==> mem[x] == memA[x]
    ensures FreeOk(mem, head, count, free)
  {
    assert forall i :: 0 <= i < |free| ==> free[i] in free;
    ChainFrame(memA, mem, head, free);
  }

  /** Records an insertion between two blocks of list `w`, made for vertex `v`. */
  ghost method SettleBetween(st: Storage, mem0: seq<Block>, memA: seq<Block>, vertices0: seq<Vertex>, s: Subgraph,
                             v: nat, w: nat, k: nat, b: Word, buf: Block)
    requires ListsSound(st.mem.g, mem0, vertices0, s) && CanAllocate(st.mem.g, s) && st.mem.Valid()
    requires Grown(st.mem.g, s).free != [] && st.free == Front(Grown(st.mem.g, s).free)
    requires FreeOk(memA, st.headBlkno, st.numOfFreeBlks, st.free) && b as nat !in st.free
    requires v < |vertices0| == |s.lists| && w < |s.lists| && 0 < k < |s.lists[w]| && BODY < |buf| == st.mem.g.words
    requires b as nat == NextBlock(st.mem.g, s) && |mem0| <= |memA| == Grown(st.mem.g, s).sup && b as int < |memA|
    requires |memA| == |st.mem.blocks| && st.mem.supBlkno as int == |memA|
    requires AllSized(memA, st.mem.g.words) && Sized(memA, s.lists[w])
    requires forall x :: 0 <= x < |mem0| && x !in s.free ==> memA[x] == mem0[x]
    requires s.lists[w][k - 1] < INVALID_BLOCKNO as nat && s.lists[w][k] < INVALID_BLOCKNO as nat
    requires st.mem.blocks == WithLinks(memA, s.lists[w], k, b)
                                [b := LinkedBlock(buf, vertices0[v].source, s.lists[w][k - 1], s.lists[w][k])]
    requires st.vertices == vertices0[v := Resized(vertices0[v], buf[BODY..])]
    requires st.lists == s.lists && st.body == s.body
    modifies st`lists, st`body
    ensures w == v ==> st.Sound() && st.Model() == InsertBlock(st.mem.g, s, v, k, buf[BODY..])
    ensures w != v ==> st.Valid() && NoLists(st.mem.g, st.mem.blocks, st.vertices)
    ensures 5 <= |buf[BODY..]| && SizeGrew(vertices0[v].size, st.vertices[v].size, buf[BODY..][4])
  {
    hide SizeGrew, WellFormed, ListsSound, FreeOk, Linked, AllSized, Sized, NoDup, BlockStore.BlockMemory.Valid;
    hide InsertBlock, NextBlock, CanAllocate, AddWord, ContentSize, NoLists, LinkedBlock;
    ResizedGrew(st.mem.g, mem0, vertices0, s, v, buf);
    VertexFacts(st.mem.g, mem0, vertices0, s, w);
    BlockFacts(st.mem.g, mem0, vertices0, s, w, k);
    LinksAt(memA, s.lists[w], k, b);
    FreeListStays(memA, st.mem.blocks, st.headBlkno, st.numOfFreeBlks, st.free);
    hide WithLinks, SetWord;
    if w == v {
      Settle(st, mem0, memA, vertices0, s, v, k, b, buf, s.lists[w][k - 1], s.lists[w][k]);
    } else {
      Misplacement(st.mem.g, mem0, memA, st.mem.blocks, vertices0, st.vertices, s, v, w, k, b,
                   LinkedBlock(buf, vertices0[v].source, s.lists[w][k - 1], s.lists[w][k]));
    }
  }

  /**
   The inner branch of `insertPrev`, for the block at position `k` of list `w`, or for one that is on no list
   (then `w` is the number of lists).
   */
  method LinkBefore(st: Storage, vtxno: Word, nextBlkno: Word, ghost w: nat, ghost k: nat, buf: Block)
    returns (r: Reply)
    requires st.Sound() && st.ContainsVertex(vtxno) && |buf| == st.mem.g.words
    requires w <= |st.lists|
    requires w < |st.lists| ==> k < |st.lists[w]| && st.lists[w][k] == nextBlkno as nat
    requires w == |st.lists| ==> !Listed(st.lists, nextBlkno)
    requires w == st.Index(vtxno) ==> 0 < k
    modifies st, st.mem
    ensures if w == |old(st.lists)| then Strayed(st, nextBlkno, r)
            else if w == old(st.Index(vtxno)) then InsertedAt(st, w, k, buf[BODY..], r, false)
            else Misplaced(st, old(st.Index(vtxno)), buf[BODY..], r, k == 0)
  {
    hide WellFormed, ListsSound, FreeOk, Linked, AllSized, Sized, NoDup, BlockStore.BlockMemory.Valid;
    hide InsertBlock, NextBlock, CanAllocate, Grown, AddWord, ContentSize, SizeGrew, NoLists, NoSubgraph;
    var v := st.Index(vtxno);
    ghost var s, mem0, vertices0 := st.Model(), st.mem.blocks, st.vertices;
    VertexFacts(st.mem.g, mem0, vertices0, s, v);
    st.mem.Facts();
    ghost var prevBlkno := if w < |s.lists| then Before(s.lists[w], k, INVALID_BLOCKNO) else INVALID_BLOCKNO;
    if w < |s.lists| {
      VertexFacts(st.mem.g, mem0, vertices0, s, w);
      BlockFacts(st.mem.g, mem0, vertices0, s, w, k);
      if 0 < k {
        DistinctAt(s.lists[w], k - 1, k);
      }
    }
    ghost var memA;
    r, memA := LinkBeforeWords(st, v, vtxno, nextBlkno, buf);
    if r.Given? {
      ghost var b := r.blkno;
      st.mem.Facts();
      if w == |s.lists| {
        AfterRequire(st.mem.g, mem0, memA, vertices0, s, v);
        StrayBefore(st.mem.g, mem0, memA, st.mem.blocks, vertices0, st.vertices, s, st.headBlkno, st.numOfFreeBlks,
                    nextBlkno, b, memA[nextBlkno][PREV],
                    LinkedBlock(buf, vtxno, memA[nextBlkno][PREV], nextBlkno));
      } else {
        AfterRequire(st.mem.g, mem0, memA, vertices0, s, w);
        LinksAt(memA, s.lists[w], k, b);
        hide WithLinks, SetWord, LinkedBlock;
        SettleBetween(st, mem0, memA, vertices0, s, v, w, k, b, buf);
      }
    } else if r == Threw {
      SettleThrow(st);
    }
  }

  /** The writes of `insertPrev`, as far as they get without following a null pointer. */
  method PlaceBefore(st: Storage, b: Word, nextBlkno: Word, vtxno: Word, buf: Block) returns (ok: bool)
    requires st.mem.Valid() && b < st.mem.supBlkno && |buf| == st.mem.g.words && BODY < |buf|
    modifies st.mem
    ensures st.mem.supBlkno == old(st.mem.supBlkno) && |st.mem.blocks| == |old(st.mem.blocks)|
    ensures var mem := old(st.mem.blocks);
            ok <==> nextBlkno as int < |mem| && BODY < |mem[nextBlkno]| && mem[nextBlkno][PREV] as int < |mem|
    ensures ok ==>
      && st.mem.Valid()
      && var mem := old(st.mem.blocks);
         var prevBlkno := mem[nextBlkno][PREV];
      && BODY < |mem[prevBlkno]|
      && st.mem.blocks == SetWord(SetWord(mem, nextBlkno, PREV, b), prevBlkno, NEXT, b)
                            [b := LinkedBlock(buf, vtxno, prevBlkno, nextBlkno)]
  {
    hide AllSized, BlockStore.BlockMemory.Valid;
    st.mem.Facts();
    AllSizedAt(st.mem.blocks, st.mem.g.words);
    var blk := buf[SOURCE := vtxno];
    var nextAt := st.mem.GetBlock(nextBlkno);
    if nextAt == Nowhere {
      return false;
    }
    var prevBlkno := st.mem.LoadWord(nextBlkno, PREV);
    st.mem.StoreWord(nextBlkno, PREV, b);
    st.mem.Facts();
    var prevAt := st.mem.GetBlock(prevBlkno);
    if prevAt == Nowhere {
      return false;
    }
    st.mem.StoreWord(prevBlkno, NEXT, b);
    blk := blk[NEXT := nextBlkno];
    blk := blk[PREV := prevBlkno];
    st.mem.StoreBlock(b, blk);
    st.mem.Facts();
    return true;
  }

  method LinkBeforeWords(st: Storage, v: nat, vtxno: Word, nextBlkno: Word, buf: Block)
    returns (r: Reply, ghost memA: seq<Block>)
    requires st.Valid() && v < |st.vertices| && |buf| == st.mem.g.words && BODY < |buf|
    modifies st`vertices, st`numOfFreeBlks, st`headBlkno, st`free, st.mem
    ensures !CanAllocate(st.mem.g, old(st.Model())) ==>
      r == Threw && st.Refused() && st.vertices == old(st.vertices)
    ensures CanAllocate(st.mem.g, old(st.Model())) ==>
      && |old(st.mem.blocks)| <= |memA| == |st.mem.blocks| == st.mem.supBlkno as int && AllSized(memA, st.mem.g.words)
      && (forall x :: 0 <= x < |old(st.mem.blocks)| && x !in old(st.free) ==> memA[x] == old(st.mem.blocks)[x])
      && st.free == Front(Grown(st.mem.g, old(st.Model())).free)
      && st.mem.supBlkno as int == Grown(st.mem.g, old(st.Model())).sup
      && FreeOk(memA, st.headBlkno, st.numOfFreeBlks, st.free)
      && NextBlock(st.mem.g, old(st.Model())) !in st.free
    ensures CanAllocate(st.mem.g, old(st.Model())) ==>
      if nextBlkno as int < |memA| && BODY < |memA[nextBlkno]| && memA[nextBlkno][PREV] as int < |memA|
      then r.Given? && r.blkno as nat == NextBlock(st.mem.g, old(st.Model())) && r.blkno < st.mem.supBlkno
      else r == Crashed
    ensures r.Given? ==>
      && st.mem.Valid()
      && var prevBlkno := memA[nextBlkno][PREV];
      && BODY < |memA[prevBlkno]|
      && st.mem.blocks == SetWord(SetWord(memA, nextBlkno, PREV, r.blkno), prevBlkno, NEXT, r.blkno)
                            [r.blkno := LinkedBlock(buf, vtxno, prevBlkno, nextBlkno)]
      && st.vertices == old(st.vertices)[v := Resized(old(st.vertices)[v], buf[BODY..])]
  {
    hide FreeOk, AllSized, Chain, BlockStore.BlockMemory.Valid, AddWord, SubWord;
    hide NextBlock, CanAllocate, ContentSize, LinkedBlock;
    st.mem.Facts();
    AllSizedAt(st.mem.blocks, st.mem.g.words);
    var ok, b := st.Require();
    memA := st.mem.blocks;
    if !ok {
      return Threw, memA;
    }
    st.mem.Facts();
    AllSizedAt(memA, st.mem.g.words);
    st.vertices := st.vertices[v := Resized(st.vertices[v], buf[BODY..])];
    var placed := PlaceBefore(st, b, nextBlkno, vtxno, buf);
    r := if placed then Given(b) else Crashed;
  }

  /** `insertPrev`, before any block of the vertex, at the end of its list for the invalid number, or astray. */
  method InsertPrev(st: Storage, vtxno: Word, nextBlkno: Word, buf: Block) returns (r: Reply)
    requires st.Sound() && st.ContainsVertex(vtxno) && |buf| == st.mem.g.words
    modifies st, st.mem
    ensures var list, w := old(ListOf(st, vtxno)), Owner(old(st.lists), nextBlkno);
            if nextBlkno == INVALID_BLOCKNO || nextBlkno as nat in list then
              var k := InsertPosition(list, Op.InsertPrev(0, nextBlkno, buf[BODY..]));
              InsertedAt(st, old(st.Index(vtxno)), k, buf[BODY..], r, k == 0 || k == |list|)
            else if w < |old(st.lists)| then
              Misplaced(st, old(st.Index(vtxno)), buf[BODY..], r, IndexOf(old(st.lists)[w], nextBlkno) == 0)
            else
              Strayed(st, nextBlkno, r)
  {
    hide WellFormed, ListsSound, FreeOk, Linked, AllSized, Sized, NoDup, BlockStore.BlockMemory.Valid;
    hide AddWord, SubWord, SizeGrew, Owner, NoLists, NoSubgraph;
    var v := st.Index(vtxno);
    ghost var s, mem0, vertices0 := st.Model(), st.mem.blocks, st.vertices;
    VertexFacts(st.mem.g, mem0, vertices0, s, v);
    ghost var w := Owner(s.lists, nextBlkno);
    st.mem.Facts();
    var headBlkno := st.vertices[v].head;
    if nextBlkno == headBlkno {
      r := Unshift(st, vtxno, buf);
    } else if nextBlkno == INVALID_BLOCKNO {
      r := Push(st, vtxno, buf);
    } else {
      OwnerOf(st.mem.g, mem0, vertices0, s, v, nextBlkno);
      r := LinkBefore(st, vtxno, nextBlkno, w, if w < |s.lists| then IndexOf(s.lists[w], nextBlkno) else 0, buf);
    }
  }

  lemma DistinctAt(list: seq<nat>, i: nat, j: nat)
    requires NoDup(list) && i < j < |list|
    ensures list[i] != list[j]
  {
  }

  /**
   The inner branch of `insertNext`, for the block before position `k` of list `w`, or for one that is on no list
   (then `w` is the number of lists).
   */
  method LinkAfter(st: Storage, vtxno: Word, prevBlkno: Word, ghost w: nat, ghost k: nat, buf: Block)
    returns (r: Reply)
    requires st.Sound() && st.ContainsVertex(vtxno) && |buf| == st.mem.g.words
    requires w <= |st.lists|
    requires w < |st.lists| ==> 0 < k <= |st.lists[w]| && st.lists[w][k - 1] == prevBlkno as nat
    requires w == |st.lists| ==> !Listed(st.lists, prevBlkno)
    requires w == st.Index(vtxno) ==> k < |st.lists[w]|
    modifies st, st.mem
    ensures if w == |old(st.lists)| then Strayed(st, prevBlkno, r)
            else if w == old(st.Index(vtxno)) then InsertedAt(st, w, k, buf[BODY..], r, false)
            else Misplaced(st, old(st.Index(vtxno)), buf[BODY..], r, k == |old(st.lists)[w]|)
  {
    hide WellFormed, ListsSound, FreeOk, Linked, AllSized, Sized, NoDup, BlockStore.BlockMemory.Valid;
    hide InsertBlock, NextBlock, CanAllocate, Grown, AddWord, ContentSize, SizeGrew, NoLists, NoSubgraph;
    var v := st.Index(vtxno);
    ghost var s, mem0, vertices0 := st.Model(), st.mem.blocks, st.vertices;
    VertexFacts(st.mem.g, mem0, vertices0, s, v);
    st.mem.Facts();
    ghost var nextBlkno := if w < |s.lists| then After(s.lists[w], k - 1, INVALID_BLOCKNO) else INVALID_BLOCKNO;
    if w < |s.lists| {
      VertexFacts(st.mem.g, mem0, vertices0, s, w);
      BlockFacts(st.mem.g, mem0, vertices0, s, w, k - 1);
      if k < |s.lists[w]| {
        DistinctAt(s.lists[w], k - 1, k);
      }
    }
    ghost var memA;
    r, memA := LinkAfterWords(st, v, vtxno, prevBlkno, buf);
    if r.Given? {
      ghost var b := r.blkno;
      st.mem.Facts();
      if w == |s.lists| {
        AfterRequire(st.mem.g, mem0, memA, vertices0, s, v);
        StrayAfter(st.mem.g, mem0, memA, st.mem.blocks, vertices0, st.vertices, s, st.headBlkno, st.numOfFreeBlks,
                   prevBlkno, b, memA[prevBlkno][NEXT],
                   LinkedBlock(buf, vtxno, prevBlkno, memA[prevBlkno][NEXT]));
      } else {
        AfterRequire(st.mem.g, mem0, memA, vertices0, s, w);
        LinksAt(memA, s.lists[w], k, b);
        hide WithLinks, SetWord, LinkedBlock;
        SettleBetween(st, mem0, memA, vertices0, s, v, w, k, b, buf);
      }
    } else if r == Threw {
      SettleThrow(st);
    }
  }

  /** The writes of `insertNext`. */
  method PlaceAfter(st: Storage, b: Word, prevBlkno: Word, vtxno: Word, buf: Block) returns (ok: bool)
    requires st.mem.Valid() && b < st.mem.supBlkno && |buf| == st.mem.g.words && BODY < |buf|
    modifies st.mem
    ensures st.mem.supBlkno == old(st.mem.supBlkno) && |st.mem.blocks| == |old(st.mem.blocks)|
    ensures var mem := old(st.mem.blocks);
            ok <==> prevBlkno as int < |mem| && BODY < |mem[prevBlkno]| && mem[prevBlkno][NEXT] as int < |mem|
    ensures ok ==>
      && st.mem.Valid()
      && var mem := old(st.mem.blocks);
         var nextBlkno := mem[prevBlkno][NEXT];
      && BODY < |mem[nextBlkno]|
      && st.mem.blocks == SetWord(SetWord(mem, prevBlkno, NEXT, b), nextBlkno, PREV, b)
                            [b := LinkedBlock(buf, vtxno, prevBlkno, nextBlkno)]
  {
    hide AllSized, BlockStore.BlockMemory.Valid;
    st.mem.Facts();
    AllSizedAt(st.mem.blocks, st.mem.g.words);
    var blk := buf[SOURCE := vtxno];
    var prevAt := st.mem.GetBlock(prevBlkno);
    if prevAt == Nowhere {
      return false;
    }
    var nextBlkno := st.mem.LoadWord(prevBlkno, NEXT);
    st.mem.StoreWord(prevBlkno, NEXT, b);
    st.mem.Facts();
    var nextAt := st.mem.GetBlock(nextBlkno);
    if nextAt == Nowhere {
      return false;
    }
    st.mem.StoreWord(nextBlkno, PREV, b);
    blk := blk[NEXT := nextBlkno];
    blk := blk[PREV := prevBlkno];
    st.mem.StoreBlock(b, blk);
    st.mem.Facts();
    return true;
  }

  method LinkAfterWords(st: Storage, v: nat, vtxno: Word, prevBlkno: Word, buf: Block)
    returns (r: Reply, ghost memA: seq<Block>)
    requires st.Valid() && v < |st.vertices| && |buf| == st.mem.g.words && BODY < |buf|
    modifies st`vertices, st`numOfFreeBlks, st`headBlkno, st`free, st.mem
    ensures !CanAllocate(st.mem.g, old(st.Model())) ==>
      r == Threw && st.Refused() && st.vertices == old(st.vertices)
    ensures CanAllocate(st.mem.g, old(st.Model())) ==>
      && |old(st.mem.blocks)| <= |memA| == |st.mem.blocks| == st.mem.supBlkno as int && AllSized(memA, st.mem.g.words)
      && (forall x :: 0 <= x < |old(st.mem.blocks)| && x !in old(st.free) ==> memA[x] == old(st.mem.blocks)[x])
      && st.free == Front(Grown(st.mem.g, old(st.Model())).free)
      && st.mem.supBlkno as int == Grown(st.mem.g, old(st.Model())).sup
      && FreeOk(memA, st.headBlkno, st.numOfFreeBlks, st.free)
      && NextBlock(st.mem.g, old(st.Model())) !in st.free
    ensures CanAllocate(st.mem.g, old(st.Model())) ==>
      if prevBlkno as int < |memA| && BODY < |memA[prevBlkno]| && memA[prevBlkno][NEXT] as int < |memA|
      then r.Given? && r.blkno as nat == NextBlock(st.mem.g, old(st.Model())) && r.blkno < st.mem.supBlkno
      else r == Crashed
    ensures r.Given? ==>
      && st.mem.Valid()
      && var nextBlkno := memA[prevBlkno][NEXT];
      && BODY < |memA[nextBlkno]|
      && st.mem.blocks == SetWord(SetWord(memA, prevBlkno, NEXT, r.blkno), nextBlkno, PREV, r.blkno)
                            [r.blkno := LinkedBlock(buf, vtxno, prevBlkno, nextBlkno)]
      && st.vertices == old(st.vertices)[v := Resized(old(st.vertices)[v], buf[BODY..])]
  {
    hide FreeOk, AllSized, Chain, BlockStore.BlockMemory.Valid, AddWord, SubWord;
    hide NextBlock, CanAllocate, ContentSize, LinkedBlock;
    st.mem.Facts();
    AllSizedAt(st.mem.blocks, st.mem.g.words);
    var ok, b := st.Require();
    memA := st.mem.blocks;
    if !ok {
      return Threw, memA;
    }
    st.mem.Facts();
    AllSizedAt(memA, st.mem.g.words);
    st.vertices := st.vertices[v := Resized(st.vertices[v], buf[BODY..])];
    var placed := PlaceAfter(st, b, prevBlkno, vtxno, buf);
    r := if placed then Given(b) else Crashed;
  }

  /** `insertNext`, after any block of the vertex, at the front of its list for the invalid number, or astray. */
  method InsertNext(st: Storage, vtxno: Word, prevBlkno: Word, buf: Block) returns (r: Reply)
    requires st.Sound() && st.ContainsVertex(vtxno) && |buf| == st.mem.g.words
    modifies st, st.mem
    ensures var list, w := old(ListOf(st, vtxno)), Owner(old(st.lists), prevBlkno);
            if prevBlkno == INVALID_BLOCKNO || prevBlkno as nat in list then
              var k := InsertPosition(list, Op.InsertNext(0, prevBlkno, buf[BODY..]));
              InsertedAt(st, old(st.Index(vtxno)), k, buf[BODY..], r, k == 0 || k == |list|)
            else if w < |old(st.lists)| then
              Misplaced(st, old(st.Index(vtxno)), buf[BODY..], r,
                        IndexOf(old(st.lists)[w], prevBlkno) == |old(st.lists)[w]| - 1)
            else
              Strayed(st, prevBlkno, r)
  {
    hide WellFormed, ListsSound, FreeOk, Linked, AllSized, Sized, NoDup, BlockStore.BlockMemory.Valid;
    hide AddWord, SubWord, SizeGrew, Owner, NoLists, NoSubgraph;
    var v := st.Index(vtxno);
    ghost var s, mem0, vertices0 := st.Model(), st.mem.blocks, st.vertices;
    VertexFacts(st.mem.g, mem0, vertices0, s, v);
    ghost var list, w := s.lists[v], Owner(s.lists, prevBlkno);
    st.mem.Facts();
    var tailBlkno := st.vertices[v].tail;
    if prevBlkno == tailBlkno {
      if list != [] {
        IndexUnique(list, |list| - 1);
      }
      r := Push(st, vtxno, buf);
    } else if prevBlkno == INVALID_BLOCKNO {
      r := Unshift(st, vtxno, buf);
    } else {
      OwnerOf(st.mem.g, mem0, vertices0, s, v, prevBlkno);
      r := LinkAfter(st, vtxno, prevBlkno, w, if w < |s.lists| then IndexOf(s.lists[w], prevBlkno) + 1 else 0, buf);
    }
  }

  /** The owner of a number is the one list that has it. */
  lemma OwnerOf(g: Geometry, mem: seq<Block>, vertices: seq<Vertex>, s: Subgraph, v: nat, b: nat)
    requires ListsSound(g, mem, vertices, s) && v < |s.lists|
    ensures Owner(s.lists, b) < |s.lists| <==> Listed(s.lists, b)
    ensures Owner(s.lists, b) < |s.lists| ==> (Owner(s.lists, b) == v <==> b in s.lists[v])
  {
    var w := Owner(s.lists, b);
    if w < |s.lists| {
      assert b in s.lists[w];
    }
  }

  // ---------------------------------------------------------------- removals

  /** A size shrank by the size field of block `b`, the low half of its word 7. */
  ghost predicate TakenOff(mem: seq<Block>, size: Word, size': Word, b: nat) {
    b < |mem| && 7 < |mem[b]| && SizeShrank(size, size', mem[b][7])
  }

  lemma SizeTaken(g: Geometry, mem: seq<Block>, vertices: seq<Vertex>, s: Subgraph, w: nat, k: nat, size: Word)
    requires ListsSound(g, mem, vertices, s) && w < |s.lists| && k < |s.lists[w]|
    ensures s.lists[w][k] in s.body
    ensures TakenOff(mem, size, SubWord(size, ContentSize(s.body[s.lists[w][k]])), s.lists[w][k])
  {
    BlockFacts(g, mem, vertices, s, w, k);
    var b := s.lists[w][k];
    assert |s.body[b]| == g.words - BODY && mem[b][BODY..][4] == mem[b][7];
    hide WellFormed, ListsSound;
    SizeMoves(size, s.body[b]);
  }

  lemma ResizedGrew(g: Geometry, mem: seq<Block>, vertices: seq<Vertex>, s: Subgraph, v: nat, buf: Block)
    requires ListsSound(g, mem, vertices, s) && v < |vertices| && |buf| == g.words
    ensures 5 <= |buf[BODY..]| && buf[BODY..][4] == buf[7]
    ensures SizeGrew(vertices[v].size, Resized(vertices[v], buf[BODY..]).size, buf[BODY..][4])
  {
    assert g.Valid();
    hide ListsSound;
    SizeMoves(vertices[v].size, buf[BODY..]);
  }

  /** Records a removal whose words are all written and whose block is released. */
  ghost method SettleRemoval(st: Storage, mem0: seq<Block>, mem1: seq<Block>, vertices0: seq<Vertex>, s: Subgraph,
                             v: nat, k: nat)
    requires st.Valid()
    requires Removal(st.mem.g, mem0, mem1, st.mem.blocks, vertices0, s, v, k)
    requires s.lists[v][k] in s.body
    requires st.vertices == vertices0[v := Parted(vertices0[v], s.lists[v], k, s.body[s.lists[v][k]])]
    requires st.free == s.free + [s.lists[v][k]] && st.mem.supBlkno as int == s.sup
    requires st.lists == s.lists && st.body == s.body
    modifies st`lists, st`body
    ensures st.Sound() && st.Model() == DeleteBlock(s, v, k)
    ensures TakenOff(mem0, vertices0[v].size, st.vertices[v].size, s.lists[v][k])
  {
    SizeTaken(st.mem.g, mem0, vertices0, s, v, k, vertices0[v].size);
    hide FreeOk, Linked, AllSized, Partition, Carried, BlockStore.BlockMemory.Valid, TakenOff;
    RemovalSound(st.mem.g, mem0, mem1, st.mem.blocks, vertices0, s, v, k);
    SizesUpdate(vertices0, v, st.vertices[v]);
    st.lists := s.lists[v := Delete(s.lists[v], k)];
    st.body := s.body - {s.lists[v][k]};
    assert st.Model() == DeleteBlock(s, v, k);
  }

  method Shift(st: Storage, vtxno: Word)
    requires st.Sound() && st.ContainsVertex(vtxno)
    modifies st, st.mem
    ensures if old(ListOf(st, vtxno)) == [] then Unchanged(st) else DeletedAt(st, old(st.Index(vtxno)), 0)
  {
    hide WellFormed, ListsSound, FreeOk, Linked, AllSized, Sized, NoDup, BlockStore.BlockMemory.Valid;
    hide TakenOff, ContentSize, AddWord, SubWord;
    var v := st.Index(vtxno);
    ghost var s, mem0, vertices0 := st.Model(), st.mem.blocks, st.vertices;
    VertexFacts(st.mem.g, mem0, vertices0, s, v);
    ghost var list := s.lists[v];
    if st.vertices[v].head == INVALID_BLOCKNO {
      return;
    }
    BlockFacts(st.mem.g, mem0, vertices0, s, v, 0);
    ghost var mem1 := ShiftWords(st, v);
    st.mem.Facts();
    SettleRemoval(st, mem0, mem1, vertices0, s, v, 0);
  }

  /** The steps of `shift` on a list that has a head. */
  method ShiftWords(st: Storage, v: nat) returns (ghost mem1: seq<Block>)
    requires st.Valid() && v < |st.vertices| && st.vertices[v].head as int < |st.mem.blocks|
    requires BODY < |st.mem.blocks[st.vertices[v].head]|
    requires Used(st.mem.g, st.Model(), st.vertices[v].head)
    requires var next := st.mem.blocks[st.vertices[v].head][NEXT];
             next != INVALID_BLOCKNO ==> Used(st.mem.g, st.Model(), next)
    modifies st`vertices, st`numOfFreeBlks, st`headBlkno, st`free, st.mem
    ensures st.Valid() && st.mem.supBlkno == old(st.mem.supBlkno)
    ensures |mem1| == |st.mem.blocks| == |old(st.mem.blocks)|
    ensures var b := old(st.vertices)[v].head;
            var next := old(st.mem.blocks)[b][NEXT];
            var content := old(st.mem.blocks)[b][BODY..];
            var vtx := old(st.vertices)[v].(size := SubWord(old(st.vertices)[v].size, ContentSize(content)));
            && st.free == old(st.free) + [b as nat]
            && (next != INVALID_BLOCKNO ==> next as int < |mem1|)
            && (next != INVALID_BLOCKNO ==> PREV < |old(st.mem.blocks)[next]|)
            && mem1 == (if next != INVALID_BLOCKNO then SetWord(old(st.mem.blocks), next, PREV, INVALID_BLOCKNO)
                        else old(st.mem.blocks))
            && (forall x :: 0 <= x < |mem1| && x != b && x !in old(st.free) ==> st.mem.blocks[x] == mem1[x])
            && st.vertices == old(st.vertices)[v := if next != INVALID_BLOCKNO then vtx.(head := next)
                                                    else vtx.(head := INVALID_BLOCKNO, tail := INVALID_BLOCKNO)]
  {
    hide FreeOk, AllSized, Chain, BlockStore.BlockMemory.Valid, AddWord, SubWord;
    st.mem.Facts();
    AllSizedAt(st.mem.blocks, st.mem.g.words);
    var oldHead := st.vertices[v].head;
    var oldHeadBlk := st.mem.LoadBlock(oldHead);
    var newHead := oldHeadBlk[NEXT];
    var vtx := st.vertices[v].(size := SubWord(st.vertices[v].size, ContentSize(oldHeadBlk[BODY..])));
    if newHead != INVALID_BLOCKNO {
      st.vertices := st.vertices[v := vtx.(head := newHead)];
      st.SetLink(newHead, PREV, INVALID_BLOCKNO);
    } else {
      st.vertices := st.vertices[v := vtx.(head := INVALID_BLOCKNO, tail := INVALID_BLOCKNO)];
    }
    mem1 := st.mem.blocks;
    st.mem.Facts();
    var released := st.Release(oldHead);
    st.mem.Facts();
  }

  /** `pop` with the evident intent that the last block of a list clears both ends. */
  method PopRepaired(st: Storage, vtxno: Word)
    requires st.Sound() && st.ContainsVertex(vtxno)
    modifies st, st.mem
    ensures var list := old(ListOf(st, vtxno));
            if list == [] then Unchanged(st) else DeletedAt(st, old(st.Index(vtxno)), |list| - 1)
  {
    hide WellFormed, ListsSound, FreeOk, Linked, AllSized, Sized, NoDup, BlockStore.BlockMemory.Valid;
    hide TakenOff, ContentSize, AddWord, SubWord;
    var v := st.Index(vtxno);
    ghost var s, mem0, vertices0 := st.Model(), st.mem.blocks, st.vertices;
    VertexFacts(st.mem.g, mem0, vertices0, s, v);
    ghost var list := s.lists[v];
    if st.vertices[v].tail == INVALID_BLOCKNO {
      return;
    }
    BlockFacts(st.mem.g, mem0, vertices0, s, v, |list| - 1);
    ghost var mem1 := PopRepairedWords(st, v);
    st.mem.Facts();
    SettleRemoval(st, mem0, mem1, vertices0, s, v, |list| - 1);
  }

  /** The steps of the repaired `pop` on a list that has a tail. */
  method PopRepairedWords(st: Storage, v: nat) returns (ghost mem1: seq<Block>)
    requires st.Valid() && v < |st.vertices| && st.vertices[v].tail as int < |st.mem.blocks|
    requires BODY < |st.mem.blocks[st.vertices[v].tail]|
    requires Used(st.mem.g, st.Model(), st.vertices[v].tail)
    requires var next := st.mem.blocks[st.vertices[v].tail][PREV];
             next != INVALID_BLOCKNO ==> Used(st.mem.g, st.Model(), next)
    modifies st`vertices, st`numOfFreeBlks, st`headBlkno, st`free, st.mem
    ensures st.Valid() && st.mem.supBlkno == old(st.mem.supBlkno)
    ensures |mem1| == |st.mem.blocks| == |old(st.mem.blocks)|
    ensures var b := old(st.vertices)[v].tail;
            var next := old(st.mem.blocks)[b][PREV];
            var content := old(st.mem.blocks)[b][BODY..];
            var vtx := old(st.vertices)[v].(size := SubWord(old(st.vertices)[v].size, ContentSize(content)));
            && st.free == old(st.free) + [b as nat]
            && (next != INVALID_BLOCKNO ==> next as int < |mem1|)
            && (next != INVALID_BLOCKNO ==> NEXT < |old(st.mem.blocks)[next]|)
            && mem1 == (if next != INVALID_BLOCKNO then SetWord(old(st.mem.blocks), next, NEXT, INVALID_BLOCKNO)
                        else old(st.mem.blocks))
            && (forall x :: 0 <= x < |mem1| && x != b && x !in old(st.free) ==> st.mem.blocks[x] == mem1[x])
            && st.vertices == old(st.vertices)[v := if next != INVALID_BLOCKNO then vtx.(tail := next)
                                                    else vtx.(head := INVALID_BLOCKNO, tail := INVALID_BLOCKNO)]
  {
    hide FreeOk, AllSized, Chain, BlockStore.BlockMemory.Valid, AddWord, SubWord;
    st.mem.Facts();
    AllSizedAt(st.mem.blocks, st.mem.g.words);
    var oldTail := st.vertices[v].tail;
    var oldTailBlk := st.mem.LoadBlock(oldTail);
    var newTail := oldTailBlk[PREV];
    var vtx := st.vertices[v].(size := SubWord(st.vertices[v].size, ContentSize(oldTailBlk[BODY..])));
    if newTail != INVALID_BLOCKNO {
      st.vertices := st.vertices[v := vtx.(tail := newTail)];
      st.SetLink(newTail, NEXT, INVALID_BLOCKNO);
    } else {
      st.vertices := st.vertices[v := vtx.(head := INVALID_BLOCKNO, tail := INVALID_BLOCKNO)];
    }
    mem1 := st.mem.blocks;
    st.mem.Facts();
    var released := st.Release(oldTail);
    st.mem.Facts();
  }

  /** The list of vertex `v` dangles: its only block `b` is on top of the free stack and still its head. */
  twostate predicate Dangling(st: Storage, v: nat)
    requires old(st.Sound()) && v < |old(st.lists)| && |old(st.lists)[v]| == 1
    reads st, st.mem
  {
    var b := old(st.lists)[v][0];
    && st.Valid() && |st.vertices| == |old(st.vertices)|
    && st.free == old(st.free) + [b]
    && st.mem.supBlkno == old(st.mem.supBlkno) && b < |st.mem.blocks|
    && st.vertices[v].head as nat == b && st.vertices[v].tail == INVALID_BLOCKNO
    && (forall w :: 0 <= w < |st.vertices| && w != v ==> st.vertices[w] == old(st.vertices)[w])
  }

  /**
   `pop` as written: it drops the last block except on a one-block list, where it clears the tail twice and
   leaves the head on the block it frees.
   */
  method Pop(st: Storage, vtxno: Word)
    requires st.Sound() && st.ContainsVertex(vtxno)
    modifies st, st.mem
    ensures var list := old(ListOf(st, vtxno));
            if list == [] then Unchanged(st)
            else if |list| == 1 then Dangling(st, old(st.Index(vtxno)))
            else DeletedAt(st, old(st.Index(vtxno)), |list| - 1)
    ensures st.Sound() <==> |old(ListOf(st, vtxno))| != 1
    ensures |old(ListOf(st, vtxno))| == 1 ==> NoLists(st.mem.g, st.mem.blocks, st.vertices)
  {
    hide WellFormed, ListsSound, FreeOk, Linked, AllSized, Sized, NoDup, BlockStore.BlockMemory.Valid;
    hide TakenOff, ContentSize, AddWord, SubWord, DeleteBlock;
    var v := st.Index(vtxno);
    ghost var s, mem0, vertices0 := st.Model(), st.mem.blocks, st.vertices;
    VertexFacts(st.mem.g, mem0, vertices0, s, v);
    ghost var list := s.lists[v];
    if st.vertices[v].tail == INVALID_BLOCKNO {
      return;
    }
    BlockFacts(st.mem.g, mem0, vertices0, s, v, |list| - 1);
    ghost var mem1 := PopWords(st, v);
    st.mem.Facts();
    if |list| > 1 {
      SettleRemoval(st, mem0, mem1, vertices0, s, v, |list| - 1);
    } else {
      DanglingUnsound(st.mem.g, st.mem.blocks, st.vertices, v);
    }
  }

  /** The steps of `pop` as written, on a list that has a tail. */
  method PopWords(st: Storage, v: nat) returns (ghost mem1: seq<Block>)
    requires st.Valid() && v < |st.vertices| && st.vertices[v].tail as int < |st.mem.blocks|
    requires BODY < |st.mem.blocks[st.vertices[v].tail]|
    requires Used(st.mem.g, st.Model(), st.vertices[v].tail)
    requires var next := st.mem.blocks[st.vertices[v].tail][PREV];
             next != INVALID_BLOCKNO ==> Used(st.mem.g, st.Model(), next)
    modifies st`vertices, st`numOfFreeBlks, st`headBlkno, st`free, st.mem
    ensures st.Valid() && st.mem.supBlkno == old(st.mem.supBlkno)
    ensures |mem1| == |st.mem.blocks| == |old(st.mem.blocks)|
    ensures var b := old(st.vertices)[v].tail;
            var next := old(st.mem.blocks)[b][PREV];
            var content := old(st.mem.blocks)[b][BODY..];
            var vtx := old(st.vertices)[v].(size := SubWord(old(st.vertices)[v].size, ContentSize(content)));
            && st.free == old(st.free) + [b as nat]
            && (next != INVALID_BLOCKNO ==> next as int < |mem1|)
            && (next != INVALID_BLOCKNO ==> NEXT < |old(st.mem.blocks)[next]|)
            && mem1 == (if next != INVALID_BLOCKNO then SetWord(old(st.mem.blocks), next, NEXT, INVALID_BLOCKNO)
                        else old(st.mem.blocks))
            && (forall x :: 0 <= x < |mem1| && x != b && x !in old(st.free) ==> st.mem.blocks[x] == mem1[x])
            && st.vertices == old(st.vertices)[v := if next != INVALID_BLOCKNO then vtx.(tail := next)
                                                    else vtx.(tail := INVALID_BLOCKNO)]
  {
    hide FreeOk, AllSized, Chain, BlockStore.BlockMemory.Valid, AddWord, SubWord;
    st.mem.Facts();
    AllSizedAt(st.mem.blocks, st.mem.g.words);
    var oldTail := st.vertices[v].tail;
    var oldTailBlk := st.mem.LoadBlock(oldTail);
    var newTail := oldTailBlk[PREV];
    var vtx := st.vertices[v].(size := SubWord(st.vertices[v].size, ContentSize(oldTailBlk[BODY..])));
    if newTail != INVALID_BLOCKNO {
      st.vertices := st.vertices[v := vtx.(tail := newTail)];
      st.SetLink(newTail, NEXT, INVALID_BLOCKNO);
    } else {
      st.vertices := st.vertices[v := vtx.(tail := INVALID_BLOCKNO)];
      st.vertices := st.vertices[v := vtx.(tail := INVALID_BLOCKNO)];
    }
    mem1 := st.mem.blocks;
    st.mem.Facts();
    var released := st.Release(oldTail);
    st.mem.Facts();
  }

  /**
   The block at position `k` left vertex `w`'s list for the top of the free stack, but its content size was
   taken off vertex `v`.
   */
  twostate predicate Misremoved(st: Storage, v: nat, w: nat, k: nat)
    requires old(st.Sound()) && v < |old(st.lists)| && w < |old(st.lists)| && k < |old(st.lists)[w]|
    reads st, st.mem
  {
    && st.Sound()
    && st.FirstVertex() == old(st.FirstVertex())
    && Shrank(st, v, old(st.lists)[w][k])
    && var s := old(st.Model());
       st.Model() == DeleteBlock(s, w, k).(sizes := s.sizes[v := SubWord(s.sizes[v], ContentAt(s.body, s.lists[w][k]))])
  }

  /** A removal of a number that is on no list follows a null pointer or leaves words that store no subgraph. */
  twostate predicate StrayedRemoval(st: Storage, x: Word, ok: bool)
    requires old(st.Sound())
    reads st, st.mem
  {
    && (old(st.mem.supBlkno) <= x ==> !ok)
    && (ok ==> NoSubgraph(st.mem.g, st.mem.blocks, st.vertices, st.headBlkno, st.numOfFreeBlks))
  }

  /**
   `remove`.  A block of the vertex is deleted.  The code does not check that it is one: an inner block of another
   vertex is deleted there and charged here, for an end of another list the code follows a null pointer (`ok` is
   false), and a number that is on no list leads astray.
   */
  method Remove(st: Storage, vtxno: Word, blkno: Word) returns (ok: bool)
    requires st.Sound() && st.ContainsVertex(vtxno)
    modifies st, st.mem
    ensures var list, w := old(ListOf(st, vtxno)), Owner(old(st.lists), blkno);
            && (list == [] ==> ok && Unchanged(st))
            && (list != [] && w < |old(st.lists)| ==> (ok <==> blkno as nat in list || Inner(old(st.lists), blkno)))
            && (blkno as nat in list ==> DeletedAt(st, old(st.Index(vtxno)), IndexOf(list, blkno)))
            && (ok && list != [] && blkno as nat !in list && w < |old(st.lists)| ==>
                 Misremoved(st, old(st.Index(vtxno)), w, IndexOf(old(st.lists)[w], blkno)))
            && (list != [] && w == |old(st.lists)| ==> StrayedRemoval(st, blkno, ok))
  {
    hide WellFormed, ListsSound, FreeOk, Linked, AllSized, Sized, NoDup, BlockStore.BlockMemory.Valid;
    hide DeleteBlock, Owner, SubWord, TakenOff, NoSubgraph;
    var v := st.Index(vtxno);
    ghost var s, mem0, vertices0 := st.Model(), st.mem.blocks, st.vertices;
    VertexFacts(st.mem.g, mem0, vertices0, s, v);
    ghost var list, w := s.lists[v], Owner(s.lists, blkno);
    var headBlkno := st.vertices[v].head;
    var tailBlkno := st.vertices[v].tail;
    if headBlkno == INVALID_BLOCKNO {
      return true;
    }
    OwnerOf(st.mem.g, mem0, vertices0, s, v, blkno);
    if headBlkno == blkno {
      Shift(st, vtxno);
      ok := true;
    } else if tailBlkno == blkno {
      IndexUnique(list, |list| - 1);
      Pop(st, vtxno);
      ok := true;
    } else {
      ok := Unlink(st, v, w, blkno);
    }
  }

  /** A number is an inner block of the list that has it. */
  ghost predicate Inner(lists: seq<seq<nat>>, b: nat) {
    var w := Owner(lists, b);
    w < |lists| && 0 < IndexOf(lists[w], b) < |lists[w]| - 1
  }

  /** The inner branch of `remove`, for a block that list `w` has, or that none has. */
  method Unlink(st: Storage, v: nat, ghost w: nat, blkno: Word) returns (ok: bool)
    requires st.Sound() && v < |st.vertices| == |st.lists| && w == Owner(st.lists, blkno)
    requires w == v ==> 0 < IndexOf(st.lists[v], blkno) < |st.lists[v]| - 1
    modifies st, st.mem
    ensures w < |old(st.lists)| ==> (ok <==> Inner(old(st.lists), blkno))
    ensures ok && w == v ==> DeletedAt(st, v, IndexOf(old(st.lists)[v], blkno))
    ensures ok && w != v && w < |old(st.lists)| ==> Misremoved(st, v, w, IndexOf(old(st.lists)[w], blkno))
    ensures w == |old(st.lists)| ==> StrayedRemoval(st, blkno, ok)
  {
    hide WellFormed, ListsSound, FreeOk, Linked, AllSized, Sized, NoDup, BlockStore.BlockMemory.Valid, Owner;
    hide NoSubgraph, PushedWords, SetWord, TakenOff, ContentSize, AddWord;
    ghost var s, mem0, vertices0 := st.Model(), st.mem.blocks, st.vertices;
    ghost var head0, count0 := st.headBlkno, st.numOfFreeBlks;
    st.mem.Facts();
    ghost var k := if w < |s.lists| then IndexOf(s.lists[w], blkno) else 0;
    if w < |s.lists| {
      BlockFacts(st.mem.g, mem0, vertices0, s, w, k);
      VertexFacts(st.mem.g, mem0, vertices0, s, w);
    }
    ghost var mem1;
    ok, mem1 := UnlinkWords(st, v, blkno);
    if ok {
      st.mem.Facts();
      if w == |s.lists| {
        StrayIsFree(st.mem.g, mem0, vertices0, s, blkno);
        StrayRemoved(st.mem.g, mem0, mem1, st.mem.blocks, vertices0, st.vertices, s, head0, count0, st.headBlkno,
                     blkno, mem0[blkno][PREV], mem0[blkno][NEXT]);
      } else {
        SettleUnlinked(st, mem0, mem1, vertices0, s, head0, count0, v, w, k);
      }
    }
  }

  /** Records the removal of the block at position `k` of list `w`, charged to vertex `v`. */
  ghost method SettleUnlinked(st: Storage, mem0: seq<Block>, mem1: seq<Block>, vertices0: seq<Vertex>, s: Subgraph,
                              head0: Word, count0: Word, v: nat, w: nat, k: nat)
    requires ListsSound(st.mem.g, mem0, vertices0, s) && FreeOk(mem0, head0, count0, s.free) && st.mem.Valid()
    requires v < |vertices0| == |s.lists| && w < |s.lists| && 0 < k < |s.lists[w]| - 1
    requires st.mem.supBlkno as int == s.sup && st.numOfFreeBlks == AddWord(count0, 1)
    requires st.free == s.free && st.lists == s.lists && st.body == s.body
    requires var b := s.lists[w][k];
      && b < |mem0| && b < INVALID_BLOCKNO as nat && BODY < |mem0[b]|
      && mem0[b][PREV] as int < |mem0| && mem0[b][NEXT] as int < |mem0|
      && BODY < |mem0[mem0[b][PREV]]| && BODY < |mem0[mem0[b][NEXT]]|
      && mem1 == SetWord(SetWord(mem0, mem0[b][PREV], NEXT, mem0[b][NEXT]), mem0[b][NEXT], PREV, mem0[b][PREV])
      && PushedWords(mem1, head0, b, st.mem.blocks, st.headBlkno)
      && st.vertices == vertices0[v := Charged(vertices0[v], mem0[b][BODY..])]
    modifies st`lists, st`body, st`free
    ensures w == v ==> st.Sound() && st.Model() == DeleteBlock(s, v, k)
    ensures w != v ==> st.Sound() && st.Model() == DeleteBlock(s, w, k).(
                                       sizes := s.sizes[v := SubWord(s.sizes[v], ContentAt(s.body, s.lists[w][k]))])
    ensures TakenOff(mem0, vertices0[v].size, st.vertices[v].size, s.lists[w][k])
  {
    hide TakenOff, WellFormed, ListsSound, FreeOk, Linked, AllSized, Sized, NoDup, BlockStore.BlockMemory.Valid;
    var b := s.lists[w][k];
    st.mem.Facts();
    VertexFacts(st.mem.g, mem0, vertices0, s, w);
    BlockFacts(st.mem.g, mem0, vertices0, s, w, k);
    DistinctAt(s.lists[w], k - 1, k + 1);
    LinksReleased(mem0, mem1, st.mem.blocks, s, head0, count0, st.headBlkno, b, mem0[b][PREV], mem0[b][NEXT]);
    st.free := st.free + [b];
    hide PushedWords;
    if w == v {
      SettleRemoval(st, mem0, mem1, vertices0, s, v, k);
    } else {
      SettleMisremoval(st, mem0, mem1, vertices0, s, v, w, k);
    }
  }

  lemma StrayIsFree(g: Geometry, mem: seq<Block>, vertices: seq<Vertex>, s: Subgraph, b: nat)
    requires ListsSound(g, mem, vertices, s) && Owner(s.lists, b) == |s.lists| && b < |mem|
    ensures b in s.free
  {
  }

  /** With both neighbours in use, the release is a push on the free list as it was. */
  lemma LinksReleased(mem: seq<Block>, memL: seq<Block>, mem': seq<Block>, s: Subgraph, head: Word, count: Word,
                      head': Word, b: Word, prev: Word, next: Word)
    requires FreeOk(mem, head, count, s.free) && b as nat !in s.free && prev as nat !in s.free && next as nat !in s.free
    requires prev as int < |mem| && next as int < |mem| && NEXT < |mem[prev]| && NEXT < |mem[next]|
    requires memL == SetWord(SetWord(mem, prev, NEXT, next), next, PREV, prev)
    requires PushedWords(memL, head, b, mem', head')
    ensures FreeOk(mem', head', AddWord(count, 1), s.free + [b as nat])
    ensures forall x :: 0 <= x < |mem| && x != b as nat && x !in s.free ==> mem'[x] == memL[x]
  {
    assert head != INVALID_BLOCKNO ==> s.free[Base(mem, head, s.free)] == head;
    FreeListStays(mem, memL, head, count, s.free);
    PushedStack(memL, head, count, s.free, b, mem', head');
    hide FreeOk;
  }

  /** The steps of the inner branch, as far as they get without following a null pointer. */
  method UnlinkWords(st: Storage, v: nat, blkno: Word) returns (ok: bool, ghost mem1: seq<Block>)
    requires st.Valid() && v < |st.vertices|
    modifies st`vertices, st`numOfFreeBlks, st`headBlkno, st.mem
    ensures ok <==>
      && blkno as int < |old(st.mem.blocks)| && BODY < |old(st.mem.blocks)[blkno]|
      && old(st.mem.blocks)[blkno][PREV] as int < |old(st.mem.blocks)|
      && old(st.mem.blocks)[blkno][NEXT] as int < |old(st.mem.blocks)|
    ensures ok ==>
      && st.mem.Valid() && st.mem.supBlkno == old(st.mem.supBlkno)
      && |mem1| == |st.mem.blocks| == |old(st.mem.blocks)|
      && st.numOfFreeBlks == AddWord(old(st.numOfFreeBlks), 1)
    ensures ok ==>
      var blk := old(st.mem.blocks)[blkno];
      && |old(st.mem.blocks)[blk[PREV]]| > BODY && |old(st.mem.blocks)[blk[NEXT]]| > BODY
      && mem1 == SetWord(SetWord(old(st.mem.blocks), blk[PREV], NEXT, blk[NEXT]), blk[NEXT], PREV, blk[PREV])
      && PushedWords(mem1, old(st.headBlkno), blkno, st.mem.blocks, st.headBlkno)
      && st.vertices == old(st.vertices)[v := Charged(old(st.vertices)[v], blk[BODY..])]
  {
    hide FreeOk, AllSized, Chain, BlockStore.BlockMemory.Valid, AddWord, SubWord, PushedWords;
    mem1 := [];
    st.mem.Facts();
    st.HeadStored();
    AllSizedAt(st.mem.blocks, st.mem.g.words);
    var blkAt := st.mem.GetBlock(blkno);
    if blkAt == Nowhere {
      return false, mem1;
    }
    var blk := st.mem.LoadBlock(blkno);
    st.vertices := st.vertices[v := Charged(st.vertices[v], blk[BODY..])];
    var prevBlkno, nextBlkno := blk[PREV], blk[NEXT];
    var prevAt := st.mem.GetBlock(prevBlkno);
    if prevAt == Nowhere {
      return false, mem1;
    }
    st.mem.StoreWord(prevBlkno, NEXT, nextBlkno);
    st.mem.Facts();
    var nextAt := st.mem.GetBlock(nextBlkno);
    if nextAt == Nowhere {
      return false, mem1;
    }
    st.mem.StoreWord(nextBlkno, PREV, prevBlkno);
    mem1 := st.mem.blocks;
    st.mem.Facts();
    ok := st.ReleaseWords(blkno);
    st.mem.Facts();
  }

  /** A vertex that lost a block with this content. */
  function Charged(vtx: Vertex, content: Body): Vertex {
    vtx.(size := SubWord(vtx.size, ContentSize(content)))
  }

  /** Records a removal from list `w` that was charged to vertex `v`. */
  ghost method SettleMisremoval(st: Storage, mem0: seq<Block>, mem1: seq<Block>, vertices0: seq<Vertex>, s: Subgraph,
                                v: nat, w: nat, k: nat)
    requires st.Valid() && v != w && v < |vertices0|
    requires Removal(st.mem.g, mem0, mem1, st.mem.blocks, vertices0, s, w, k) && 0 < k < |s.lists[w]| - 1
    requires s.lists[w][k] in s.body
    requires st.vertices == vertices0[v := Charged(vertices0[v], s.body[s.lists[w][k]])]
    requires st.free == s.free + [s.lists[w][k]] && st.mem.supBlkno as int == s.sup
    requires st.lists == s.lists && st.body == s.body
    modifies st`lists, st`body
    ensures st.Sound()
    ensures st.Model() == DeleteBlock(s, w, k).(
                            sizes := s.sizes[v := SubWord(s.sizes[v], ContentAt(s.body, s.lists[w][k]))])
    ensures TakenOff(mem0, vertices0[v].size, st.vertices[v].size, s.lists[w][k])
  {
    hide FreeOk, ListsSound, WellFormed, BlockStore.BlockMemory.Valid, TakenOff, SubWord, ContentSize;
    MisremovalSound(st.mem.g, mem0, mem1, st.mem.blocks, vertices0, st.vertices, s, v, w, k);
    st.lists := s.lists[w := Delete(s.lists[w], k)];
    st.body := s.body - {s.lists[w][k]};
  }

  lemma MisremovalSound(g: Geometry, mem0: seq<Block>, mem1: seq<Block>, mem: seq<Block>, vertices0: seq<Vertex>,
                        vertices: seq<Vertex>, s: Subgraph, v: nat, w: nat, k: nat)
    requires v != w && v < |vertices0| && Removal(g, mem0, mem1, mem, vertices0, s, w, k) && 0 < k < |s.lists[w]| - 1
    requires s.lists[w][k] in s.body
    requires vertices == vertices0[v := Charged(vertices0[v], s.body[s.lists[w][k]])]
    ensures ListsSound(g, mem, vertices, DeleteBlock(s, w, k).(sizes := SizesOf(vertices)))
    ensures v < |s.sizes|
    ensures SizesOf(vertices) == s.sizes[v := SubWord(s.sizes[v], ContentAt(s.body, s.lists[w][k]))]
    ensures TakenOff(mem0, vertices0[v].size, vertices[v].size, s.lists[w][k])
  {
    SizeTaken(g, mem0, vertices0, s, w, k, vertices0[v].size);
    hide Linked, AllSized, Partition, Carried, TakenOff, SubWord, ContentSize;
    RemovalSound(g, mem0, mem1, mem, vertices0, s, w, k);
    var vertices1 := vertices0[w := Parted(vertices0[w], s.lists[w], k, s.body[s.lists[w][k]])];
    ResizedSound(g, mem, vertices1, vertices, DeleteBlock(s, w, k));
    SizesUpdate(vertices0, v, vertices[v]);
  }

  lemma AllSizedAt(mem: seq<Block>, words: nat)
    requires AllSized(mem, words)
    ensures forall b :: 0 <= b < |mem| ==> |mem[b]| == words
  {
  }
}
