/**
 Traversals of a vertex's list: `readAllBlknos`, `readn` as written and as intended, and the walk along the
 `next` and `prev` words that they follow.
 */
module SubgraphReads {
  import opened BlockFormat
  import opened Ownership
  import opened FreeList
  import opened BlockStore
  import opened SubgraphModel
  import opened BlockLists
  import opened ListSoundness
  import opened SubgraphStorage
  import opened SubgraphSet

  /** Where `n` steps along a link field lead. */
  ghost function Walk(mem: seq<Block>, no: nat, field: nat, n: nat): nat
    decreases n
  {
    if n == 0 || no == INVALID_BLOCKNO then no
    else if no < |mem| && field < |mem[no]| then Walk(mem, mem[no][field], field, n - 1)
    else INVALID_BLOCKNO
  }

  /** The forward walk from the head visits the list in order and ends after its last block. */
  lemma {:induction false} WalkForward(g: Geometry, mem: seq<Block>, vertices: seq<Vertex>, s: Subgraph,
                                       v: nat, i: nat, n: nat)
    requires ListsSound(g, mem, vertices, s) && v < |vertices| && i < |s.lists[v]|
    requires n <= |s.lists[v]| - i
    ensures Walk(mem, s.lists[v][i], NEXT, n) == if i + n < |s.lists[v]| then s.lists[v][i + n] else INVALID_BLOCKNO
    decreases n
  {
    hide WellFormed, ListsSound, Linked, AllSized;
    VertexFacts(g, mem, vertices, s, v);
    BlockFacts(g, mem, vertices, s, v, i);
    if n > 0 && i + 1 < |s.lists[v]| {
      WalkForward(g, mem, vertices, s, v, i + 1, n - 1);
    }
  }

  /** The backward walk visits it in reverse and ends before its first block. */
  lemma {:induction false} WalkBackward(g: Geometry, mem: seq<Block>, vertices: seq<Vertex>, s: Subgraph,
                                        v: nat, i: nat, n: nat)
    requires ListsSound(g, mem, vertices, s) && v < |vertices| && i < |s.lists[v]|
    requires n <= i + 1
    ensures Walk(mem, s.lists[v][i], PREV, n) == if n <= i then s.lists[v][i - n] else INVALID_BLOCKNO
    decreases n
  {
    hide WellFormed, ListsSound, Linked, AllSized;
    VertexFacts(g, mem, vertices, s, v);
    BlockFacts(g, mem, vertices, s, v, i);
    if n > 0 && i > 0 {
      WalkBackward(g, mem, vertices, s, v, i - 1, n - 1);
    }
  }

  /** Each list is walked from head to tail and back: the two walks visit the same blocks in opposite order. */
  lemma WalksMirror(g: Geometry, mem: seq<Block>, vertices: seq<Vertex>, s: Subgraph, v: nat, n: nat)
    requires ListsSound(g, mem, vertices, s) && v < |vertices| && n < |s.lists[v]|
    ensures Walk(mem, vertices[v].head, NEXT, n) == Walk(mem, vertices[v].tail, PREV, |s.lists[v]| - 1 - n)
         == s.lists[v][n]
    ensures Walk(mem, vertices[v].head, NEXT, |s.lists[v]|) == Walk(mem, vertices[v].tail, PREV, |s.lists[v]|)
         == INVALID_BLOCKNO
  {
    var last := |s.lists[v]| - 1;
    hide WellFormed, ListsSound, Linked, AllSized;
    VertexFacts(g, mem, vertices, s, v);
    WalkForward(g, mem, vertices, s, v, 0, n);
    WalkBackward(g, mem, vertices, s, v, last, last - n);
    WalkForward(g, mem, vertices, s, v, 0, last + 1);
    WalkBackward(g, mem, vertices, s, v, last, last + 1);
  }

  /** `readAllBlknos`: terminates and returns the list. */
  method ReadAllBlknos(st: Storage, vtxno: Word) returns (blknos: seq<Word>)
    requires st.Sound() && st.ContainsVertex(vtxno)
    modifies st.mem`table
    ensures st.Sound()
    ensures |blknos| == |ListOf(st, vtxno)|
    ensures forall i :: 0 <= i < |blknos| ==> blknos[i] as nat == ListOf(st, vtxno)[i]
  {
    hide WellFormed, ListsSound, FreeOk, Linked, AllSized, Sized, NoDup, BlockMemory.Valid;
    var v := st.Index(vtxno);
    ghost var s := st.Model();
    VertexFacts(st.mem.g, st.mem.blocks, st.vertices, s, v);
    InStore(st.mem.g, st.mem.blocks, st.vertices, s, v);
    ghost var list := st.lists[v];
    blknos := [];
    var no := st.vertices[v].head;
    while no != INVALID_BLOCKNO
      invariant st.Sound() && |blknos| <= |list|
      invariant no as nat == if |blknos| < |list| then list[|blknos|] else INVALID_BLOCKNO
      invariant forall i :: 0 <= i < |blknos| ==> blknos[i] as nat == list[i]
      decreases |list| - |blknos|
    {
      st.mem.Facts();
      BlockFacts(st.mem.g, st.mem.blocks, st.vertices, s, v, |blknos|);
      blknos := blknos + [no];
      no := st.mem.LoadWord(no, NEXT);
    }
  }

  // ---------------------------------------------------------------- readn

  /** `Missing` is the exception for a number that names no block. */
  datatype Blocks = Read(blocks: seq<Block>) | LengthError | Missing

  /** The blocks a walk of at most `n` steps along a link field passes, from any number. */
  ghost function Follow(mem: seq<Block>, no: Word, field: nat, n: nat): Blocks
    decreases n
  {
    if n == 0 || no == INVALID_BLOCKNO then Read([])
    else if |mem| <= no as int || |mem[no]| <= field then Missing
    else Then([mem[no]], Follow(mem, mem[no][field], field, n - 1))
  }

  function Then(blocks: seq<Block>, rest: Blocks): Blocks {
    if rest.Read? then Read(blocks + rest.blocks) else rest
  }

  lemma ThenMore(blocks: seq<Block>, blk: Block, rest: Blocks)
    ensures Then(blocks, Then([blk], rest)) == Then(blocks + [blk], rest)
    ensures Then([], rest) == rest
  {
    if rest.Read? {
      assert blocks + ([blk] + rest.blocks) == (blocks + [blk]) + rest.blocks;
    }
  }

  /** The walk ends within `n` steps, at the invalid number or at one outside the store. */
  ghost predicate Ends(mem: seq<Block>, no: Word, field: nat, n: nat)
    decreases n
  {
    no == INVALID_BLOCKNO ||
    (n > 0 && (|mem| <= no as int || |mem[no]| <= field || Ends(mem, mem[no][field], field, n - 1)))
  }

  /** The `n` blocks from position `k` on in the given direction, or as many as the list has. */
  ghost function Span(mem: seq<Block>, list: seq<nat>, k: int, n: nat, forward: bool): seq<Block>
    requires forall i :: 0 <= i < |list| ==> list[i] < |mem|
    decreases n
  {
    if n == 0 || k < 0 || |list| <= k then []
    else [mem[list[k]]] + Span(mem, list, if forward then k + 1 else k - 1, n - 1, forward)
  }

  /** The blocks of a span, one by one. */
  lemma {:induction false} SpanBlocks(mem: seq<Block>, list: seq<nat>, k: nat, n: nat, forward: bool)
    requires forall i :: 0 <= i < |list| ==> list[i] < |mem|
    requires k < |list|
    ensures var span, left := Span(mem, list, k, n, forward), if forward then |list| - k else k + 1;
      && |span| == (if n <= left then n else left)
      && forall i :: 0 <= i < |span| ==> span[i] == mem[list[if forward then k + i else k - i]]
    decreases n
  {
    var k' := if forward then k + 1 else k - 1;
    if n > 0 {
      var rest := Span(mem, list, k', n - 1, forward);
      if 0 <= k' < |list| {
        SpanBlocks(mem, list, k', n - 1, forward);
      }
      assert Span(mem, list, k, n, forward) == [mem[list[k]]] + rest;
    }
  }

  lemma InStore(g: Geometry, mem: seq<Block>, vertices: seq<Vertex>, s: Subgraph, v: nat)
    requires ListsSound(g, mem, vertices, s) && v < |vertices|
    ensures |s.lists| == |vertices|
    ensures forall i :: 0 <= i < |s.lists[v]| ==> s.lists[v][i] < |mem| && s.lists[v][i] < INVALID_BLOCKNO as nat
  {
    forall i | 0 <= i < |s.lists[v]| ensures s.lists[v][i] < |mem| && s.lists[v][i] < INVALID_BLOCKNO as nat {
      LiveBlock(g, s, v, i);
    }
  }

  /** From a block in use the walk stays in the list that has it and ends with the list. */
  lemma {:induction false} FollowSpan(g: Geometry, mem: seq<Block>, vertices: seq<Vertex>, s: Subgraph,
                                      w: nat, k: nat, n: nat, forward: bool)
    requires ListsSound(g, mem, vertices, s) && w < |vertices| && k < |s.lists[w]|
    ensures s.lists[w][k] < INVALID_BLOCKNO as nat && forall i :: 0 <= i < |s.lists[w]| ==> s.lists[w][i] < |mem|
    ensures Follow(mem, s.lists[w][k], if forward then NEXT else PREV, n) == Read(Span(mem, s.lists[w], k, n, forward))
    ensures (if forward then |s.lists[w]| - k else k + 1) <= n ==>
      Ends(mem, s.lists[w][k], if forward then NEXT else PREV, n)
    decreases n
  {
    hide WellFormed, ListsSound, Linked, AllSized;
    InStore(g, mem, vertices, s, w);
    BlockFacts(g, mem, vertices, s, w, k);
    var k' := if forward then k + 1 else k - 1;
    if n > 0 && 0 <= k' < |s.lists[w]| {
      FollowSpan(g, mem, vertices, s, w, k', n - 1, forward);
    }
  }

  /** The last block of a walk through the rest of a list is the last of the list. */
  lemma {:induction false} SpanEnd(mem: seq<Block>, list: seq<nat>, k: nat)
    requires k < |list| && forall i :: 0 <= i < |list| ==> list[i] < |mem|
    ensures var span := Span(mem, list, k, |list| - k, true); span != [] && Last(span) == mem[list[|list| - 1]]
    decreases |list| - k
  {
    if k + 1 < |list| {
      SpanEnd(mem, list, k + 1);
    }
  }

  /**
   `readn` as written, from any number.  A negative count asks the vector to reserve a huge size, which throws.
   The loop never counts, so every block it visits overwrites the first one and it runs until the walk along the
   next words ends, which is what it needs to return at all: a positive count gives the last block alone.
   */
  method Readn(st: Storage, vtxno: Word, blkno: Word, n: int, ghost steps: nat) returns (r: Blocks)
    requires st.Sound() && st.ContainsVertex(vtxno)
    requires n > 0 ==> Ends(st.mem.blocks, blkno, NEXT, steps)
    modifies st.mem`table
    ensures st.Sound()
    ensures n < 0 ==> r == LengthError
    ensures n == 0 ==> r == Read([])
    ensures n > 0 ==>
      var walk := Follow(st.mem.blocks, blkno, NEXT, steps);
      r == if walk.Read? && walk.blocks != [] then Read([Last(walk.blocks)]) else walk
  {
    hide ListsSound, FreeOk, BlockMemory.Valid;
    if n < 0 {
      return LengthError;
    }
    var xblk: seq<Block> := [];
    var no: Word := blkno;
    var i := 0;
    ghost var left: nat, mem := steps, st.mem.blocks;
    ghost var walk := Follow(mem, blkno, NEXT, steps);
    st.mem.Facts();
    while i < n && no != INVALID_BLOCKNO
      invariant st.Sound() && st.mem.blocks == mem && i == 0
      invariant |mem| == st.mem.supBlkno as int && AllSized(mem, st.mem.g.words) && 8 <= st.mem.g.words
      invariant n > 0 ==> Ends(mem, no, NEXT, left)
      invariant n == 0 ==> xblk == []
      invariant n > 0 ==>
        var rest := Follow(mem, no, NEXT, left);
        if xblk == [] then rest == walk
        else |xblk| == 1 && (walk.Read? <==> rest.Read?) && (walk.Missing? <==> rest.Missing?)
             && (walk.Read? ==> walk.blocks != [] && Last(walk.blocks) == Last([xblk[0]] + rest.blocks))
      decreases left
    {
      if st.mem.supBlkno <= no {
        return Missing;
      }
      var blk := st.mem.LoadBlock(no);
      xblk := xblk[..0] + [blk];
      no := blk[NEXT];
      left := left - 1;
    }
    return Read(xblk);
  }

  /** `readn` with the count advanced and the reservation made for the absolute count: the intended result. */
  method ReadnRepaired(st: Storage, vtxno: Word, blkno: Word, n: int) returns (r: Blocks)
    requires st.Sound() && st.ContainsVertex(vtxno)
    modifies st.mem`table
    ensures st.Sound()
    ensures r == Follow(st.mem.blocks, blkno, if n > 0 then NEXT else PREV, if n > 0 then n else -n)
  {
    hide ListsSound, FreeOk, BlockMemory.Valid;
    var field := if n > 0 then NEXT else PREV;
    var count: nat := if n > 0 then n else -n;
    ghost var mem := st.mem.blocks;
    ghost var all := Follow(mem, blkno, field, count);
    ThenMore([], [], all);
    st.mem.Facts();
    var xblk: seq<Block> := [];
    var no := blkno;
    var i := 0;
    while i < count && no != INVALID_BLOCKNO
      invariant st.Sound() && st.mem.blocks == mem && 0 <= i <= count
      invariant |mem| == st.mem.supBlkno as int && AllSized(mem, st.mem.g.words) && 8 <= st.mem.g.words
      invariant all == Then(xblk, Follow(mem, no, field, count - i))
    {
      if st.mem.supBlkno <= no {
        return Missing;
      }
      var blk := st.mem.LoadBlock(no);
      ThenMore(xblk, blk, Follow(mem, blk[field], field, count - i - 1));
      xblk := xblk + [blk];
      no := blk[field];
      i := i + 1;
    }
    return Read(xblk);
  }

  /** `readn` as written returns what was asked for exactly when it is asked for the last block of the list. */
  lemma ReadnRightIff(g: Geometry, mem: seq<Block>, vertices: seq<Vertex>, s: Subgraph, v: nat, k: nat, n: nat)
    requires ListsSound(g, mem, vertices, s) && v < |vertices| && k < |s.lists[v]| && n > 0
    ensures forall i :: 0 <= i < |s.lists[v]| ==> s.lists[v][i] < |mem|
    ensures [mem[s.lists[v][|s.lists[v]| - 1]]] == Span(mem, s.lists[v], k, n, true) <==> k == |s.lists[v]| - 1
  {
    hide WellFormed, ListsSound, Linked, AllSized;
    InStore(g, mem, vertices, s, v);
    var list := s.lists[v];
    BlockFacts(g, mem, vertices, s, v, k);
    BlockFacts(g, mem, vertices, s, v, |list| - 1);
    assert Span(mem, list, k, n, true)[0] == mem[list[k]];
    if k == |list| - 1 {
      assert Span(mem, list, k + 1, n - 1, true) == [];
    }
  }
}
