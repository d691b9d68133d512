/**
 What `pop` as written does to a one-block list, and what the next `unshift` makes of it.
 */
module PopDefect {
  import opened BlockFormat
  import opened Ownership
  import opened FreeList
  import opened BlockStore
  import opened SubgraphModel
  import opened BlockLists
  import opened ListSoundness
  import opened SubgraphStorage
  import opened SubgraphSet
  import opened SubgraphReads

  lemma {:induction false} SelfLoop(mem: seq<Block>, b: nat, n: nat)
    requires b < |mem| && b != INVALID_BLOCKNO as nat && NEXT < |mem[b]| && mem[b][NEXT] == b
    ensures Walk(mem, b, NEXT, n) == b
  {
    if n > 0 {
      SelfLoop(mem, b, n - 1);
    }
  }

  /**
   From every sound state, `pop` on a one-block list followed by `unshift` hands out the block just freed
   and links it to itself, so the walk of `readAllBlknos` never reaches the end.
   */
  method PopThenUnshift(st: Storage, vtxno: Word, buf: Block) returns (r: Reply)
    requires st.Sound() && st.ContainsVertex(vtxno) && |ListOf(st, vtxno)| == 1 && |buf| == st.mem.g.words
    modifies st, st.mem
    ensures r.Given? && r.blkno as nat == old(ListOf(st, vtxno))[0]
    ensures old(st.Index(vtxno)) < |st.vertices|
    ensures st.vertices[old(st.Index(vtxno))].head == r.blkno
    ensures st.vertices[old(st.Index(vtxno))].tail == INVALID_BLOCKNO
    ensures forall n: nat :: Walk(st.mem.blocks, r.blkno, NEXT, n) == r.blkno
    ensures NoLists(st.mem.g, st.mem.blocks, st.vertices)
  {
    hide WellFormed, ListsSound, FreeOk, Linked, AllSized, BlockMemory.Valid;
    var v := st.Index(vtxno);
    VertexFacts(st.mem.g, st.mem.blocks, st.vertices, st.Model(), v);
    ghost var b := st.lists[v][0];
    st.mem.Facts();
    SubgraphSet.Pop(st, vtxno);
    NotLeft(st.mem.blocks, st.headBlkno, st.numOfFreeBlks, st.free);
    ghost var memA;
    r, memA := UnshiftWords(st, v, vtxno, buf);
    st.mem.Facts();
    forall n: nat ensures Walk(st.mem.blocks, r.blkno, NEXT, n) == r.blkno {
      SelfLoop(st.mem.blocks, r.blkno, n);
    }
    DanglingUnsound(st.mem.g, st.mem.blocks, st.vertices, v);
  }

  /** What is popped is no longer on the stack. */
  lemma NotLeft(blocks: seq<Block>, head: Word, count: Word, free: seq<nat>)
    requires FreeOk(blocks, head, count, free)
    ensures free != [] ==> Last(free) !in Front(free)
  {
  }
}
