/**
 `SubgraphStorageType`: the superblock of a subgraph and its block allocator.
 The ghost fields name the stack that the free list stores and what the vertex lists hold.
 */
module SubgraphStorage {
  import opened BlockFormat
  import opened Ownership
  import opened OverflowTable
  import opened FreeList
  import opened BlockStore
  import opened SubgraphModel
  import opened BlockLists
  import opened ListSoundness
  import opened SubgraphTheorems

  /** The superblock's head and counter describe the stack of distinct numbers `free`. */
  ghost predicate FreeOk(blocks: seq<Block>, head: Word, count: Word, free: seq<nat>) {
    && NoDup(free)
    && InRange(blocks, free)
    && Chain(blocks, head, free)
    && count as int == |free|
  }

  /** A number that is not on the stack can be added to it; the stack never outgrows the store. */
  lemma StackGrows(blocks: seq<Block>, free: seq<nat>, b: nat)
    requires NoDup(free) && InRange(blocks, free) && b < |blocks| <= INVALID_BLOCKNO && b !in free
    ensures NoDup(free + [b]) && InRange(blocks, free + [b])
    ensures AddWord(|free|, 1) == |free + [b]|
  {
    NoDupAppend(free, [b]);
    NoDupBound(free + [b], |blocks|);
  }

  /**
   Releasing `b` onto the stack `free` with `releaseRaw` as written writes to unmapped memory: the head of the
   free list, which the number of free blocks determines, is full and its page displaces that of `b`.
   */
  predicate Faults(g: Geometry, free: seq<nat>, b: nat)
    requires g.Valid()
  {
    && free != [] && Mod(|free|, g.words - 1) == 0 && g.words - 1 <= |free|
    && Displaced(g, b, free[|free| - (g.words - 1)])
  }

  lemma FaultsIff(g: Geometry, blocks: seq<Block>, head: Word, count: Word, free: seq<nat>, b: nat)
    requires g.Valid() && FreeOk(blocks, head, count, free)
    requires AllSized(blocks, g.words) && |blocks| <= INVALID_BLOCKNO
    ensures Faults(g, free, b) <==> head != INVALID_BLOCKNO && Full(blocks, head) && Displaced(g, b, head)
  {
    if free != [] {
      HeadCount(blocks, head, free, g.words);
    }
  }

  datatype Released = Pushed | Failed | Faulted

  /** No stack of distinct numbers is what the head and the counter describe. */
  ghost predicate NoStack(blocks: seq<Block>, head: Word, count: Word) {
    forall stack: seq<nat> :: !FreeOk(blocks, head, count, stack)
  }

  /** What releasing `b` writes: it becomes a head of one index when there is no head with room, and else an index. */
  ghost predicate PushedWords(blocks: seq<Block>, head: Word, b: Word, blocks': seq<Block>, head': Word) {
    && |blocks| == |blocks'| <= INVALID_BLOCKNO && b as int < |blocks|
    && if head == INVALID_BLOCKNO || Full(blocks, head) then
         && head' == b && AgreeBut(blocks, blocks', b)
         && 2 <= |blocks'[b]| && blocks'[b][COUNT] == 1 && blocks'[b][LINK] == head
       else
         && head' == head && head as int < |blocks|
         && 1 <= |blocks[head]| && 1 <= blocks[head][COUNT] as int < |blocks[head]| - 1
         && var count := AddWord(blocks[head][COUNT], 1);
            count as int == blocks[head][COUNT] as int + 1
            && blocks' == SetWord(SetWord(blocks, head, COUNT, count), head, count, b)
  }

  /** On a stack that does not have the number this is a push. */
  lemma PushedStack(blocks: seq<Block>, head: Word, count: Word, free: seq<nat>, b: Word,
                    blocks': seq<Block>, head': Word)
    requires FreeOk(blocks, head, count, free) && PushedWords(blocks, head, b, blocks', head') && b as nat !in free
    ensures FreeOk(blocks', head', AddWord(count, 1), free + [b as nat])
  {
    StackGrows(blocks, free, b);
    if head == INVALID_BLOCKNO || Full(blocks, head) {
      PushNewHead(blocks, blocks', head, free, b);
    } else {
      PushIntoHead(blocks, blocks', head, free, b, AddWord(blocks[head][COUNT], 1));
    }
    hide NoDup, Chain, AddWord;
  }

  /** The only stack it can make is that of the old chain with the number on top. */
  lemma PushedOnly(blocks: seq<Block>, head: Word, b: Word, blocks': seq<Block>, head': Word, count': Word,
                   t: seq<nat>)
    requires FreeOk(blocks', head', count', t) && PushedWords(blocks, head, b, blocks', head')
    ensures t != [] && Last(t) == b as nat && Chain(blocks, head, Front(t))
  {
    if head == INVALID_BLOCKNO || Full(blocks, head) {
      NewHeadOnly(blocks, blocks', head, b, t);
    } else {
      IntoHeadOnly(blocks, blocks', head, b, AddWord(blocks[head][COUNT], 1), t);
    }
  }

  /** So releasing a number that is free already leaves no free list. */
  lemma PushedTwice(blocks: seq<Block>, head: Word, count: Word, free: seq<nat>, b: Word,
                    blocks': seq<Block>, head': Word)
    requires FreeOk(blocks, head, count, free) && PushedWords(blocks, head, b, blocks', head') && b as nat in free
    ensures forall count': Word :: NoStack(blocks', head', count')
  {
    forall count': Word, t: seq<nat> ensures !FreeOk(blocks', head', count', t) {
      if FreeOk(blocks', head', count', t) {
        PushedOnly(blocks, head, b, blocks', head', count', t);
        ChainUnique(blocks, head, free, Front(t));
        TwiceIn(t);
      }
    }
  }

  lemma TwiceIn(t: seq<nat>)
    requires t != [] && Last(t) in Front(t)
    ensures !NoDup(t)
  {
    assert t[IndexOf(Front(t), Last(t))] == Last(t);
  }

  /** Vertices numbered one after the other, with no data, no size and no blocks. */
  ghost predicate FreshVertices(vertices: seq<Vertex>, minVtxno: Word) {
    forall i :: 0 <= i < |vertices| ==>
      var vtx := vertices[i];
      && vtx.source as int == minVtxno as int + i && vtx.data == 0 && vtx.size == 0
      && vtx.head == 0xFFFF_FFFF && vtx.tail == 0xFFFF_FFFF
  }

  class Storage {
    const mem: BlockMemory
    var numOfFreeBlks: Word
    var headBlkno: Word
    var vertices: seq<Vertex>

    ghost var free: seq<nat>
    ghost var lists: seq<seq<nat>>
    ghost var body: map<nat, Body>

    // ------------------------------------------------------------ invariants

    /** What the allocator alone relies on. */
    ghost predicate Valid()
      reads this, mem
    {
      && mem.Valid()
      && FreeOk(mem.blocks, headBlkno, numOfFreeBlks, free)
    }

    /** The subgraph its callers see. */
    ghost function Model(): Subgraph
      reads this, mem
    {
      Subgraph(free, mem.supBlkno, lists, SizesOf(vertices), body)
    }

    /** Allocator and vertex lists together. */
    ghost predicate Sound()
      reads this, mem
    {
      Valid() && ListsSound(mem.g, mem.blocks, vertices, Model())
    }

    /** `getMinVtxno`. */
    function FirstVertex(): Word
      reads this
    {
      if vertices == [] then INVALID_BLOCKNO else vertices[0].source
    }

    predicate ContainsVertex(vtxno: Word)
      reads this
    {
      FirstVertex() <= vtxno && vtxno - FirstVertex() < |vertices|
    }

    /** Where `getVertex` finds a vertex. */
    function Index(vtxno: Word): (v: nat)
      requires ContainsVertex(vtxno)
      reads this
      ensures v < |vertices|
    {
      vtxno - FirstVertex()
    }

    /** The superblock of a new subgraph, before any block is released into the free list. */
    constructor Blank(g: Geometry)
      requires g.Valid()
      ensures Valid() && mem.g == g && fresh(mem)
      ensures free == [] && vertices == seq(g.width, _ => ZeroVertex()) && lists == [] && body == map[]
      ensures mem.supBlkno == g.volume
    {
      mem := new BlockMemory(g);
      numOfFreeBlks := 0;
      headBlkno := INVALID_BLOCKNO;
      vertices := seq(g.width, _ => ZeroVertex());
      free := [];
      lists := [];
      body := map[];
    }

    /**
     `format`: throws exactly when the first vertex number is not a multiple of the interval width.  Otherwise
     it formats the subgraph, but numbers its vertices only if the end of the interval is a 32-bit number.
     */
    static method Format(g: Geometry, minVtxno: Word) returns (s: Storage?)
      requires g.Valid()
      ensures s == null <==> Mod(minVtxno, g.width) != 0
      ensures s != null ==> fresh(s) && fresh(s.mem) && s.mem.g == g && s.Valid()
      ensures s != null ==> s.free == PageStack(0, g.volume) && s.mem.supBlkno as int == g.volume
      ensures s != null ==> (s.Sound() <==> minVtxno as int + g.width < 0x1_0000_0000)
      ensures s != null && s.Sound() ==>
        s.Model() == Fresh(g) && s.FirstVertex() == minVtxno && FreshVertices(s.vertices, minVtxno)
    {
      hide BlockMemory.Valid, WellFormed, ListsSound, FreeOk;
      var t := new Storage.Blank(g);
      ghost var zeros := t.vertices;
      var i := g.volume;
      while i > 0
        invariant 0 <= i <= g.volume && t.Valid() && fresh(t) && fresh(t.mem) && t.mem.g == g
        invariant t.free == PageStack(i, g.volume - i) && t.mem.supBlkno == g.volume
        invariant t.vertices == zeros && t.lists == [] && t.body == map[]
      {
        var released := t.Release(i - 1);
        PageStackExtend(i, g.volume - i);
        i := i - 1;
      }
      var ok := t.SetMinVtxno(minVtxno);
      return if ok then t else null;
    }

    /**
     `setMinVtxno`: numbers the vertices of the interval, all of them without blocks.  The end of the interval
     is computed in 32 bits; where it wraps around, the loop does not run and the vertices stay zero.
     */
    method SetMinVtxno(minVtxno: Word) returns (ok: bool)
      requires Valid() && vertices == seq(mem.g.width, _ => ZeroVertex()) && lists == [] && body == map[]
      requires mem.supBlkno as int == mem.g.volume && free == PageStack(0, mem.g.volume)
      modifies this`vertices, this`lists
      ensures ok <==> Mod(minVtxno, mem.g.width) == 0
      ensures ok && minVtxno as int + mem.g.width < 0x1_0000_0000 ==>
        Sound() && Model() == Fresh(mem.g) && FirstVertex() == minVtxno && FreshVertices(vertices, minVtxno)
      ensures ok && minVtxno as int + mem.g.width >= 0x1_0000_0000 ==> vertices == old(vertices) && !Sound()
    {
      mem.Facts();
      hide FreeOk, BlockMemory.Valid, ListsSound, WellFormed, Fresh;
      if Mod(minVtxno, mem.g.width) != 0 {
        return false;
      }
      var supVtxno := AddWord(minVtxno, mem.g.width);
      var vtxno := minVtxno;
      while vtxno < supVtxno
        invariant minVtxno <= vtxno && (vtxno <= supVtxno || vtxno == minVtxno)
        invariant |vertices| == mem.g.width
        invariant forall i :: 0 <= i < vtxno - minVtxno ==> vertices[i] == NewVertex((minVtxno as int + i) as Word)
        invariant vtxno == minVtxno ==> vertices == old(vertices)
      {
        vertices := vertices[vtxno - minVtxno := NewVertex(vtxno)];
        vtxno := vtxno + 1;
      }
      lists := seq(mem.g.width, _ => []);
      if supVtxno < minVtxno {
        ZeroUnsound();
      } else {
        FreshSound(minVtxno);
      }
      return true;
    }

    /** Numbered vertices without blocks. */
    lemma FreshSound(minVtxno: Word)
      requires Valid() && mem.supBlkno as int == mem.g.volume && free == PageStack(0, mem.g.volume) && body == map[]
      requires |vertices| == mem.g.width && minVtxno as int + mem.g.width < 0x1_0000_0000
      requires forall i :: 0 <= i < |vertices| ==> vertices[i] == NewVertex((minVtxno as int + i) as Word)
      requires lists == seq(mem.g.width, _ => [])
      ensures Sound() && Model() == Fresh(mem.g)
    {
      mem.Facts();
      FreshWellFormed(mem.g);
      hide FreeOk, WellFormed, BlockMemory.Valid;
      assert Model().sizes == Fresh(mem.g).sizes;
      assert Model() == Fresh(mem.g);
    }

    /** A zeroed vertex has block 0 for its head and tail: it stores no empty list. */
    lemma ZeroUnsound()
      requires vertices != [] && vertices[0] == ZeroVertex() && lists != [] && lists[0] == []
      ensures !Sound()
    {
      assert HeadOf(lists[0]) == INVALID_BLOCKNO;
    }

    // ------------------------------------------------------------ release

    /** The head of the free list, if any, is a stored index block. */
    ghost predicate HeadOk()
      reads this, mem
    {
      && mem.Valid()
      && (headBlkno != INVALID_BLOCKNO ==>
           headBlkno < mem.supBlkno && 1 <= mem.blocks[headBlkno][COUNT] as int < mem.g.words)
    }

    /**
     `release`: pushes the number on the stack; fails on a number outside the store.  It does not check that the
     number is in use: releasing one that is free leaves words that store no free list.
     */
    method Release(b: Word) returns (ok: bool)
      requires Valid()
      modifies this`numOfFreeBlks, this`headBlkno, this`free, mem
      ensures mem.Valid() && mem.supBlkno == old(mem.supBlkno)
      ensures ok <==> b < mem.supBlkno
      ensures b as nat !in old(free) ==> Valid() && free == if ok then old(free) + [b as nat] else old(free)
      ensures b as nat in old(free) ==> NoStack(mem.blocks, headBlkno, numOfFreeBlks)
      ensures forall x :: 0 <= x < |mem.blocks| && x != b && x !in old(free) ==> mem.blocks[x] == old(mem.blocks)[x]
    {
      HeadStored();
      assert forall i :: 0 <= i < |free| ==> free[i] in free;
      ok := ReleaseWords(b);
      if ok {
        if b as nat in free {
          PushedTwice(old(mem.blocks), old(headBlkno), old(numOfFreeBlks), free, b, mem.blocks, headBlkno);
        } else {
          PushedStack(old(mem.blocks), old(headBlkno), old(numOfFreeBlks), free, b, mem.blocks, headBlkno);
        }
        hide FreeOk, PushedWords;
        free := free + [b as nat];
      }
    }

    /** What it does to the words. */
    method ReleaseWords(b: Word) returns (ok: bool)
      requires HeadOk()
      modifies this`numOfFreeBlks, this`headBlkno, mem
      ensures mem.Valid() && mem.supBlkno == old(mem.supBlkno) && (ok <==> b < mem.supBlkno)
      ensures ok ==> PushedWords(old(mem.blocks), old(headBlkno), b, mem.blocks, headBlkno)
      ensures ok ==> numOfFreeBlks == AddWord(old(numOfFreeBlks), 1)
      ensures !ok ==>
        mem.blocks == old(mem.blocks) && headBlkno == old(headBlkno) && numOfFreeBlks == old(numOfFreeBlks)
    {
      mem.Facts();
      var loc := mem.GetBlock(b);
      if loc == Nowhere {
        return false;
      }
      var fullHead := false;
      if headBlkno != INVALID_BLOCKNO {
        fullHead := mem.IsAtTop(headBlkno);
      }
      if headBlkno == INVALID_BLOCKNO || fullHead {
        StartHead(b);
      } else {
        ExtendHead(b);
      }
      return true;
    }

    /**
     `releaseRaw` as written: the place of the released block is looked up once and held while the head is
     looked up too.  When that unmaps the page of the released block, the writes go to memory that is no
     longer mapped; in every other case the release is the one above.
     */
    method ReleaseAsWritten(b: Word) returns (r: Released)
      requires Valid()
      modifies this`numOfFreeBlks, this`headBlkno, this`free, mem
      ensures mem.Valid() && mem.supBlkno == old(mem.supBlkno)
      ensures r == Failed <==> mem.supBlkno <= b
      ensures r == Faulted <==> b < mem.supBlkno && old(headBlkno != INVALID_BLOCKNO && Full(mem.blocks, headBlkno)
                                                       && Displaced(mem.g, b, headBlkno))
      ensures r == Faulted <==> b < mem.supBlkno && Faults(mem.g, old(free), b)
      ensures r == Pushed && b as nat !in old(free) ==> Valid() && free == old(free) + [b as nat]
      ensures r == Pushed && b as nat in old(free) ==> NoStack(mem.blocks, headBlkno, numOfFreeBlks)
      ensures forall x :: 0 <= x < |mem.blocks| && x != b && x !in old(free) ==> mem.blocks[x] == old(mem.blocks)[x]
      ensures r != Pushed ==>
        Valid() && free == old(free) && mem.blocks == old(mem.blocks) && headBlkno == old(headBlkno)
    {
      HeadStored();
      mem.Facts();
      FaultsIff(mem.g, mem.blocks, headBlkno, numOfFreeBlks, free, b);
      assert forall i :: 0 <= i < |free| ==> free[i] in free;
      hide Faults;
      ghost var table0 := mem.table;
      var blk := mem.GetBlock(b);
      if blk == Nowhere {
        return Failed;
      }
      if mem.g.volume <= b && headBlkno != INVALID_BLOCKNO {
        mem.HeldPage(table0, b, headBlkno);
      }
      var fullHead := false;
      if headBlkno != INVALID_BLOCKNO {
        fullHead := mem.IsAtTop(headBlkno);
      }
      if headBlkno == INVALID_BLOCKNO || fullHead {
        if !mem.StillMapped(blk) {
          return Faulted;
        }
        StartHead(b);
      } else {
        ExtendHead(b);
      }
      if b as nat in free {
        PushedTwice(old(mem.blocks), old(headBlkno), old(numOfFreeBlks), free, b, mem.blocks, headBlkno);
      } else {
        PushedStack(old(mem.blocks), old(headBlkno), old(numOfFreeBlks), free, b, mem.blocks, headBlkno);
      }
      hide FreeOk, PushedWords;
      free := free + [b as nat];
      return Pushed;
    }

    /** The head is a stored index block, unless there is none. */
    lemma HeadStored()
      requires Valid()
      ensures HeadOk()
      ensures headBlkno == INVALID_BLOCKNO <==> free == []
      ensures headBlkno != INVALID_BLOCKNO ==> headBlkno as nat in free
    {
      if free != [] {
        assert free[Base(mem.blocks, headBlkno, free)] == headBlkno;
      }
    }

    /** The released block becomes the head, with the old head as its only index. */
    method StartHead(b: Word)
      requires mem.Valid() && b < mem.supBlkno
      requires headBlkno == INVALID_BLOCKNO || Full(mem.blocks, headBlkno)
      modifies this`numOfFreeBlks, this`headBlkno, mem
      ensures mem.Valid() && mem.supBlkno == old(mem.supBlkno)
      ensures PushedWords(old(mem.blocks), old(headBlkno), b, mem.blocks, headBlkno)
      ensures numOfFreeBlks == AddWord(old(numOfFreeBlks), 1)
    {
      mem.Facts();
      hide BlockMemory.Valid;
      mem.InitIndexBlock(b);
      mem.PushIndex(b, headBlkno);
      headBlkno := b;
      numOfFreeBlks := AddWord(numOfFreeBlks, 1);
    }

    /** The released number goes into the head. */
    method ExtendHead(b: Word)
      requires HeadOk() && b < mem.supBlkno
      requires headBlkno != INVALID_BLOCKNO && !Full(mem.blocks, headBlkno)
      modifies this`numOfFreeBlks, this`headBlkno, mem
      ensures mem.Valid() && mem.supBlkno == old(mem.supBlkno)
      ensures PushedWords(old(mem.blocks), old(headBlkno), b, mem.blocks, headBlkno)
      ensures numOfFreeBlks == AddWord(old(numOfFreeBlks), 1)
    {
      mem.Facts();
      hide BlockMemory.Valid;
      mem.PushIndex(headBlkno, b);
      numOfFreeBlks := AddWord(numOfFreeBlks, 1);
    }

    // ------------------------------------------------------------ writes to live blocks

    /** A header link of a block that is not free. */
    method SetLink(b: Word, field: nat, w: Word)
      requires Valid() && b < mem.supBlkno && b as nat !in free && field < mem.g.words
      modifies mem
      ensures Valid() && mem.supBlkno == old(mem.supBlkno)
      ensures mem.blocks == SetWord(old(mem.blocks), b, field, w)
    {
      mem.StoreWord(b, field, w);
      KeepChain(old(mem.blocks), mem.blocks, b);
    }

    /** `writeBlock`. */
    method WriteBlock(b: Word, blk: Block)
      requires Valid() && b < mem.supBlkno && b as nat !in free && |blk| == mem.g.words
      modifies mem
      ensures Valid() && mem.supBlkno == old(mem.supBlkno)
      ensures mem.blocks == old(mem.blocks)[b := blk]
    {
      mem.StoreBlock(b, blk);
      KeepChain(old(mem.blocks), mem.blocks, b);
    }

    lemma KeepChain(blocks: seq<Block>, blocks': seq<Block>, b: nat)
      requires FreeOk(blocks, headBlkno, numOfFreeBlks, free) && b !in free
      requires |blocks'| == |blocks| && AgreeBut(blocks, blocks', b)
      ensures FreeOk(blocks', headBlkno, numOfFreeBlks, free)
    {
      assert forall i :: 0 <= i < |free| ==> free[i] in free;
      ChainFrame(blocks, blocks', headBlkno, free);
    }

    // ------------------------------------------------------------ require

    /** `requireAllocated`: pops the stack. */
    method RequireAllocated() returns (b: Word)
      requires Valid()
      modifies this`numOfFreeBlks, this`headBlkno, this`free, mem
      ensures Valid() && mem.supBlkno == old(mem.supBlkno)
      ensures old(free) == [] ==> b == INVALID_BLOCKNO && free == []
      ensures old(free) != [] ==> b as nat == Last(old(free)) && b < mem.supBlkno && free == Front(old(free))
      ensures forall x :: 0 <= x < |mem.blocks| && x !in old(free) ==> mem.blocks[x] == old(mem.blocks)[x]
    {
      if headBlkno == INVALID_BLOCKNO {
        return INVALID_BLOCKNO;
      }
      var atBottom := mem.IsAtBottom(headBlkno);
      if atBottom {
        b := GiveHead();
      } else {
        b := GiveIndex();
      }
    }

    /** A head at its bottom is handed out itself; its only index is the next head. */
    method GiveHead() returns (b: Word)
      requires Valid() && free != [] && mem.blocks[headBlkno][COUNT] == 1
      modifies this`numOfFreeBlks, this`headBlkno, this`free, mem
      ensures Valid() && mem.supBlkno == old(mem.supBlkno)
      ensures b as nat == Last(old(free)) && b < mem.supBlkno && free == Front(old(free))
      ensures AgreeBut(old(mem.blocks), mem.blocks, b)
    {
      hide BlockMemory.Valid;
      mem.Facts();
      assert free[Base(mem.blocks, headBlkno, free)] == headBlkno;
      b := headBlkno;
      var link := mem.PopIndex(headBlkno);
      PopHead(old(mem.blocks), mem.blocks, headBlkno, free);
      headBlkno := link;
      numOfFreeBlks := SubWord(numOfFreeBlks, 1);
      free := Front(free);
    }

    /** Otherwise the last index of the head is handed out. */
    method GiveIndex() returns (b: Word)
      requires Valid() && free != [] && mem.blocks[headBlkno][COUNT] != 1
      modifies this`numOfFreeBlks, this`free, mem
      ensures Valid() && mem.supBlkno == old(mem.supBlkno)
      ensures b as nat == Last(old(free)) && b < mem.supBlkno && free == Front(old(free))
      ensures headBlkno as nat in old(free) && AgreeBut(old(mem.blocks), mem.blocks, headBlkno)
    {
      hide BlockMemory.Valid;
      mem.Facts();
      assert free[Base(mem.blocks, headBlkno, free)] == headBlkno;
      b := mem.PopIndex(headBlkno);
      PopIndexWord(old(mem.blocks), mem.blocks, headBlkno, free, mem.blocks[headBlkno][COUNT]);
      numOfFreeBlks := SubWord(numOfFreeBlks, 1);
      free := Front(free);
    }

    /** The loop that inserts the blocks of a new page into the free list in reverse order. */
    method ReleasePage(sup: Word)
      requires Valid() && free == [] && mem.supBlkno as int == sup as int + mem.g.page
      modifies this`numOfFreeBlks, this`headBlkno, this`free, mem
      ensures Valid() && mem.supBlkno == old(mem.supBlkno)
      ensures free == PageStack(sup, mem.g.page)
      ensures forall x :: 0 <= x < sup ==> mem.blocks[x] == old(mem.blocks)[x]
    {
      hide FreeOk, BlockMemory.Valid;
      mem.Facts();
      assert PageStack(mem.supBlkno, 0) == [];
      hide PageStack;
      var i := 0;
      while i < mem.g.page
        invariant 0 <= i <= mem.g.page && Valid()
        invariant |mem.blocks| == mem.supBlkno as int && mem.supBlkno == old(mem.supBlkno)
        invariant free == PageStack(mem.supBlkno as int - i, i)
        invariant forall x :: 0 <= x < sup ==> mem.blocks[x] == old(mem.blocks)[x]
      {
        var base := mem.supBlkno as int - i;
        PageStackExtend(base, i);
        var released := Release((base - 1) as Word);
        mem.Facts();
        i := i + 1;
      }
    }

    /**
     What a `require` that throws leaves behind: the stack, the head and every stored block are as they were.
     The bound has moved past the largest block number, unless it was there before.
     */
    twostate predicate Refused()
      reads this, mem
    {
      && free == [] && headBlkno == old(headBlkno) && numOfFreeBlks == old(numOfFreeBlks)
      && mem.supBlkno == (if old(mem.supBlkno) as int < mem.g.blknoMax
                          then AddWord(old(mem.supBlkno), mem.g.page) else old(mem.supBlkno))
      && old(mem.blocks) <= mem.blocks
      && (old(mem.supBlkno) as int == mem.g.blknoMax ==> mem.blocks == old(mem.blocks))
      && (Valid() <==> old(mem.supBlkno) as int == mem.g.blknoMax)
    }

    /**
     `requireUnallocated`, called with an empty stack: adds a page and releases its blocks, lowest last.
     A page size divides 2^32, so the first number released after the bound has passed the largest block
     number is itself not a block number and the release throws.
     */
    method RequireUnallocated() returns (ok: bool, b: Word)
      requires Valid() && free == []
      modifies this`numOfFreeBlks, this`headBlkno, this`free, mem
      ensures ok <==> old(mem.supBlkno) as int + mem.g.page <= mem.g.blknoMax
      ensures ok ==> Valid() && mem.supBlkno as int == old(mem.supBlkno) as int + mem.g.page
      ensures ok ==> b == old(mem.supBlkno) && free == PageStack(b as int + 1, mem.g.page - 1)
      ensures ok ==> forall x :: 0 <= x < |old(mem.blocks)| ==> mem.blocks[x] == old(mem.blocks)[x]
      ensures !ok ==> Refused()
    {
      var sup := mem.supBlkno;
      if mem.g.blknoMax <= sup as int {
        return false, INVALID_BLOCKNO;   // makeOverflowPath throws
      }
      mem.AddPage();
      if mem.g.blknoMax < sup as int + mem.g.page {
        return false, INVALID_BLOCKNO;   // the first releaseRaw throws
      }
      ReleasePage(sup);
      PageStackFacts(sup, mem.g.page);
      b := RequireAllocated();
      return true, b;
    }

    /** `require`: pops the stack, which a fresh page refills when it is empty. */
    method Require() returns (ok: bool, b: Word)
      requires Valid()
      modifies this`numOfFreeBlks, this`headBlkno, this`free, mem
      ensures ok <==> CanAllocate(mem.g, old(Model()))
      ensures ok ==> Valid() && b as nat == NextBlock(mem.g, old(Model())) && b < mem.supBlkno
      ensures ok ==> free == Front(Grown(mem.g, old(Model())).free) && b as nat !in free
      ensures ok ==> mem.supBlkno as int == Grown(mem.g, old(Model())).sup
      ensures ok ==> forall x :: 0 <= x < |old(mem.blocks)| && x !in old(free) ==> mem.blocks[x] == old(mem.blocks)[x]
      ensures !ok ==> Refused()
    {
      if free != [] {
        FrontMembers(free);
      }
      b := RequireAllocated();
      if b == INVALID_BLOCKNO {
        PageStackFacts(mem.supBlkno, mem.g.page);
        PageStackFacts(mem.supBlkno as int + 1, mem.g.page - 1);
        ok, b := RequireUnallocated();
      } else {
        ok := true;
      }
    }
  }

  /** Releases into the page of the head, such as those of a page just added, never fault. */
  lemma PageReleaseStays(g: Geometry, page: nat, n: nat, b: nat)
    requires g.Valid() && Mod(page, g.page) == 0 && n <= g.page && page <= b < page + g.page
    ensures !Faults(g, PageStack(page + g.page - n, n), b)
  {
    var free := PageStack(page + g.page - n, n);
    if free != [] && g.words - 1 <= |free| {
      var head := free[|free| - (g.words - 1)];
      PageBlocks(g, page, b);
      PageBlocks(g, page, head);
    }
  }

  /**
   In any run whose overflow pages all have a slot of the table, no release faults at any point, so what the
   list operations do with `Release` is what they do with `releaseRaw` as written.
   */
  lemma {:induction false} RunNeverFaults(g: Geometry, s: Subgraph, ops: seq<Op>, n: nat, b: nat)
    requires SubgraphModel.WellFormed(g, s) && Runnable(g, s, ops) && n <= |ops|
    requires Run(g, s, ops).sup <= g.volume + g.slots * g.page
    ensures Runnable(g, s, ops[..n]) && Run(g, s, ops[..n]).sup <= Run(g, s, ops).sup
    ensures b < Run(g, s, ops[..n]).sup ==> !Faults(g, Run(g, s, ops[..n]).free, b)
    decreases |ops|
  {
    RunOwnership(g, s, ops);
    if n == 0 {
      RunGrows(g, s, ops);
      if b < s.sup && Faults(g, s.free, b) {
        var head := s.free[|s.free| - (g.words - 1)];
        assert head in s.free;
        NoneDisplaced(g, s.sup, b, head);
      }
    } else {
      StepKeeps(g, s, ops[0]);
      RunNeverFaults(g, Step(g, s, ops[0]), ops[1..], n - 1, b);
      assert ops[..n][1..] == ops[1..][..n - 1];
    }
  }

  lemma {:induction false} RunGrows(g: Geometry, s: Subgraph, ops: seq<Op>)
    requires SubgraphModel.WellFormed(g, s) && Runnable(g, s, ops)
    ensures s.sup <= Run(g, s, ops).sup
    decreases |ops|
  {
    if ops != [] {
      StepFrame(g, s, ops[0]);
      StepKeeps(g, s, ops[0]);
      RunGrows(g, Step(g, s, ops[0]), ops[1..]);
    }
  }

  /**
   A fault that is reached: with pages of eight blocks and a table of one slot, nine blocks are required and
   the first of them is released.
   */
  method FaultReached() returns (r: Released)
    ensures r == Faulted
  {
    hide FreeOk, BlockMemory.Valid, Faults, ListsSound;
    var g := Geometry(8, 0, 8, 16, 1, 8);
    assert g.Valid();
    FaultsThere(g);
    var st := Storage.Format(g, 0);
    PageStackFacts(0, 0);
    PageStackFacts(0, 8);
    PageStackFacts(8, 8);
    var ok, first := st.Require();
    assert st.free == PageStack(1, 7);
    var i, b := 0, first;
    while i < 7
      invariant 0 <= i <= 7 && st.mem.g == g && st.Valid() && st.mem.supBlkno == 8
      invariant st.free == PageStack(1 + i, 7 - i)
    {
      PageStackFacts(1 + i, 7 - i);
      ok, b := st.Require();
      i := i + 1;
    }
    ok, b := st.Require();
    assert st.free == PageStack(9, 7) && st.mem.supBlkno == 16;
    r := st.ReleaseAsWritten(first);
  }

  lemma FaultsThere(g: Geometry)
    requires g.Valid() && g.words == g.page == 8 && g.volume == 0 && g.slots == 1
    ensures Faults(g, PageStack(9, 7), 0)
  {
    DivModExact(1, 7);
    PageBlocks(g, 0, 0);
    PageBlocks(g, 8, 15);
    hide Mod, PageOf;
    assert PageStack(9, 7)[0] == 15;
  }

  /** The last interval of vertex numbers ends at 2^32: `format` returns and has numbered no vertex. */
  method FormatLastInterval(g: Geometry) returns (s: Storage?)
    requires g.Valid() && g.width == 8
    ensures s != null && !s.Sound()
  {
    DivModAgree(0xFFFF_FFF8, 8);
    s := Storage.Format(g, 0xFFFF_FFF8);
    assert s != null;
  }
}
