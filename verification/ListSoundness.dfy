/**
 Why the word writes of one insertion or removal leave every vertex list of a subgraph sound.  Everything
 here is about values: block memories before and after, superblock vertices and the abstract subgraph.
 */
module ListSoundness {
  import opened BlockFormat
  import opened Ownership
  import opened FreeList
  import opened SubgraphModel
  import opened BlockLists

  function SizesOf(vertices: seq<Vertex>): seq<Word> {
    seq(|vertices|, v requires 0 <= v < |vertices| => vertices[v].size)
  }

  lemma SizesUpdate(vertices: seq<Vertex>, v: nat, vtx: Vertex)
    requires v < |vertices|
    ensures SizesOf(vertices[v := vtx]) == SizesOf(vertices)[v := vtx.size]
  {
  }

  /** Blocks and superblock vertices store exactly the lists of `s`. */
  ghost predicate ListsSound(g: Geometry, mem: seq<Block>, vertices: seq<Vertex>, s: Subgraph) {
    && WellFormed(g, s)
    && |mem| == s.sup && AllSized(mem, g.words)
    && |vertices| == |s.lists| == g.width
    && s.sizes == SizesOf(vertices)
    && (forall v :: 0 <= v < |vertices| ==> Linked(mem, vertices[v], s.lists[v], s.body))
    && (forall v :: 0 <= v < |vertices| ==> vertices[v].source as int == vertices[0].source as int + v)
  }

  /** Vertex sizes matter to no list. */
  lemma ResizedSound(g: Geometry, mem: seq<Block>, vertices: seq<Vertex>, vertices': seq<Vertex>, s: Subgraph)
    requires ListsSound(g, mem, vertices, s) && |vertices'| == |vertices|
    requires forall w :: 0 <= w < |vertices| ==> vertices'[w] == vertices[w].(size := vertices'[w].size)
    ensures ListsSound(g, mem, vertices', s.(sizes := SizesOf(vertices')))
  {
    hide Partition, Mod;
    forall w | 0 <= w < |vertices| ensures Linked(mem, vertices'[w], s.lists[w], s.body) {
      assert Linked(mem, vertices[w], s.lists[w], s.body);
    }
  }

  /** A block of a list is inside the store, is not free and will not be allocated next. */
  lemma LiveBlock(g: Geometry, s: Subgraph, v: nat, k: nat)
    requires WellFormed(g, s) && v < |s.lists| && k < |s.lists[v]|
    ensures s.lists[v][k] < s.sup && s.lists[v][k] !in s.free && s.lists[v][k] in s.body
    ensures s.lists[v][k] != INVALID_BLOCKNO as nat
    ensures CanAllocate(g, s) ==> s.lists[v][k] !in Grown(g, s).free && s.lists[v][k] != NextBlock(g, s)
  {
    assert s.lists[v][k] in s.lists[v];
    if CanAllocate(g, s) {
      GrownWellFormed(g, s);
    }
  }

  /** The neighbours' words after block `b` is linked in at position `k`. */
  function WithLinks(mem: seq<Block>, list: seq<nat>, k: nat, b: Word): seq<Block>
    requires k <= |list| && Sized(mem, list)
  {
    var m := if k == 0 then mem else SetWord(mem, list[k - 1], NEXT, b);
    if k == |list| then m else SetWord(m, list[k], PREV, b)
  }

  /** The neighbours' words after the block at position `k` is taken out. */
  function WithoutLinks(mem: seq<Block>, list: seq<nat>, k: nat): seq<Block>
    requires k < |list|
    requires Sized(mem, list)
  {
    var m := if k == 0 then mem else SetWord(mem, list[k - 1], NEXT, After(list, k, INVALID_BLOCKNO));
    if k == |list| - 1 then m else SetWord(m, list[k + 1], PREV, Before(list, k, INVALID_BLOCKNO))
  }

  lemma WithLinksLinks(mem: seq<Block>, mem': seq<Block>, source: Word, list: seq<nat>, k: nat, b: Word, blk: Block)
    requires k <= |list| && NoDup(list) && b as nat !in list && b < |mem| && Sized(mem, list)
    requires mem' == WithLinks(mem, list, k, b)[b := blk]
    requires BODY < |blk|
    requires Holds(blk, source, Before(list, k, INVALID_BLOCKNO), if k == |list| then INVALID_BLOCKNO else list[k],
                   blk[BODY..])
    ensures LinkedIn(mem, mem', source, list, k, b, blk[BODY..])
    ensures forall x :: 0 <= x < |mem| && x !in list && x != b ==> mem'[x] == mem[x]
  {
    forall i | 0 <= i < |list| ensures list[i] != b as nat {
      assert list[i] in list;
    }
  }

  lemma WithoutLinksLinks(mem: seq<Block>, list: seq<nat>, k: nat)
    requires k < |list| && NoDup(list)
    requires Sized(mem, list)
    ensures LinkedOut(mem, WithoutLinks(mem, list, k), list, k)
    ensures forall x :: 0 <= x < |mem| && x !in list ==> WithoutLinks(mem, list, k)[x] == mem[x]
  {
  }

  /** The superblock vertex after block `b` joined its list at position `k`. */
  function Joined(vtx: Vertex, list: seq<nat>, k: nat, b: Word, content: Body): Vertex {
    vtx.(size := AddWord(vtx.size, ContentSize(content)),
         head := if k == 0 then b else vtx.head,
         tail := if k == |list| then b else vtx.tail)
  }

  /** The superblock vertex after the block at position `k` left its list. */
  function Parted(vtx: Vertex, list: seq<nat>, k: nat, content: Body): Vertex
    requires k < |list| && forall i :: 0 <= i < |list| ==> list[i] < 0x1_0000_0000
  {
    vtx.(size := SubWord(vtx.size, ContentSize(content)),
         head := if k == 0 then After(list, k, INVALID_BLOCKNO) else vtx.head,
         tail := if k == |list| - 1 then Before(list, k, INVALID_BLOCKNO) else vtx.tail)
  }

  /** Blocks of other lists are neither in this list nor the block that moves. */
  lemma OthersApart(g: Geometry, s: Subgraph, v: nat, w: nat, i: nat)
    requires WellFormed(g, s) && v < |s.lists| && w < |s.lists| && v != w && i < |s.lists[w]|
    ensures s.lists[w][i] !in s.lists[v]
  {
    assert s.lists[w][i] in s.lists[w];
  }

  /** The allocation leaves live blocks alone. */
  lemma LiveUntouched(g: Geometry, mem: seq<Block>, memA: seq<Block>, s: Subgraph, w: nat)
    requires WellFormed(g, s) && |mem| == s.sup && w < |s.lists|
    requires |mem| <= |memA|
    requires forall x :: 0 <= x < |mem| && x !in s.free ==> memA[x] == mem[x]
    ensures forall i :: 0 <= i < |s.lists[w]| ==> s.lists[w][i] < |mem| && memA[s.lists[w][i]] == mem[s.lists[w][i]]
    ensures CanAllocate(g, s) ==> NextBlock(g, s) !in s.lists[w]
  {
    forall i | 0 <= i < |s.lists[w]|
      ensures s.lists[w][i] < |mem| && s.lists[w][i] !in s.free
      ensures CanAllocate(g, s) ==> s.lists[w][i] != NextBlock(g, s)
    {
      LiveBlock(g, s, w, i);
    }
  }

  ghost predicate Sized(mem: seq<Block>, list: seq<nat>) {
    forall i :: 0 <= i < |list| ==> list[i] < |mem| < 0x1_0000_0000 && BODY < |mem[list[i]]|
  }

  lemma ListSized(g: Geometry, mem: seq<Block>, s: Subgraph, v: nat)
    requires WellFormed(g, s) && s.sup <= |mem| < 0x1_0000_0000 && AllSized(mem, g.words) && v < |s.lists|
    ensures Sized(mem, s.lists[v]) && NoDup(s.lists[v])
  {
    forall i | 0 <= i < |s.lists[v]| ensures s.lists[v][i] < s.sup {
      LiveBlock(g, s, v, i);
    }
  }

  /** No lists at all are stored soundly. */
  ghost predicate NoLists(g: Geometry, mem: seq<Block>, vertices: seq<Vertex>) {
    forall s: Subgraph :: !ListsSound(g, mem, vertices, s)
  }

  /** A vertex with a head and no tail stores no list at all. */
  lemma DanglingUnsound(g: Geometry, mem: seq<Block>, vertices: seq<Vertex>, v: nat)
    requires v < |vertices| && vertices[v].head != INVALID_BLOCKNO && vertices[v].tail == INVALID_BLOCKNO
    ensures NoLists(g, mem, vertices)
  {
    forall s: Subgraph ensures !ListsSound(g, mem, vertices, s) {
      if ListsSound(g, mem, vertices, s) {
        assert Linked(mem, vertices[v], s.lists[v], s.body);
        if s.lists[v] != [] {
          LiveBlock(g, s, v, |s.lists[v]| - 1);
        }
        assert false;
      }
    }
  }

  /** What an operation on vertex `v` may rely on before it writes anything. */
  lemma VertexFacts(g: Geometry, mem: seq<Block>, vertices: seq<Vertex>, s: Subgraph, v: nat)
    requires ListsSound(g, mem, vertices, s) && v < |vertices|
    ensures |s.lists| == |vertices| && vertices[v].source as int == vertices[0].source as int + v
    ensures vertices[v].head == HeadOf(s.lists[v]) && vertices[v].tail == TailOf(s.lists[v])
    ensures Sized(mem, s.lists[v]) && NoDup(s.lists[v])
    ensures s.lists[v] != [] ==> Used(g, s, s.lists[v][0]) && Used(g, s, s.lists[v][|s.lists[v]| - 1])
  {
    assert Linked(mem, vertices[v], s.lists[v], s.body);
    ListSized(g, mem, s, v);
    if s.lists[v] != [] {
      ListedUsed(g, s, v, 0);
      ListedUsed(g, s, v, |s.lists[v]| - 1);
    }
  }

  /** A block number in use: inside the store, not free and not what the next allocation hands out. */
  ghost predicate Used(g: Geometry, s: Subgraph, b: nat) {
    && b < s.sup && b < INVALID_BLOCKNO && b !in s.free
    && (CanAllocate(g, s) && Grown(g, s).free != [] ==> b !in Front(Grown(g, s).free))
  }

  lemma ListedUsed(g: Geometry, s: Subgraph, v: nat, i: nat)
    requires WellFormed(g, s) && v < |s.lists| && i < |s.lists[v]|
    ensures Used(g, s, s.lists[v][i])
  {
    LiveBlock(g, s, v, i);
    if CanAllocate(g, s) {
      GrownWellFormed(g, s);
      FrontMembers(Grown(g, s).free);
    }
  }

  /** The words of a listed block. */
  lemma BlockFacts(g: Geometry, mem: seq<Block>, vertices: seq<Vertex>, s: Subgraph, v: nat, k: nat)
    requires ListsSound(g, mem, vertices, s) && v < |vertices| && k < |s.lists[v]|
    ensures s.lists[v][k] < |mem| && s.lists[v][k] in s.body
    ensures Holds(mem[s.lists[v][k]], vertices[v].source, Before(s.lists[v], k, INVALID_BLOCKNO),
                  After(s.lists[v], k, INVALID_BLOCKNO), s.body[s.lists[v][k]])
    ensures Used(g, s, s.lists[v][k])
    ensures 0 < k ==> Used(g, s, s.lists[v][k - 1])
    ensures k + 1 < |s.lists[v]| ==> Used(g, s, s.lists[v][k + 1])
  {
    assert Linked(mem, vertices[v], s.lists[v], s.body);
    assert Carries(mem, vertices[v].source, s.lists[v], k, s.body);
    ListedUsed(g, s, v, k);
    if 0 < k {
      ListedUsed(g, s, v, k - 1);
    }
    if k + 1 < |s.lists[v]| {
      ListedUsed(g, s, v, k + 1);
    }
  }

  /** The header of a listed block: its vertex in word 0, the block before in word 1 and the one after in word 2. */
  lemma HeaderWords(g: Geometry, mem: seq<Block>, vertices: seq<Vertex>, s: Subgraph, v: nat, k: nat)
    requires ListsSound(g, mem, vertices, s) && v < |vertices| && k < |s.lists[v]|
    ensures var list := s.lists[v];
      && list[k] < |mem| && 8 <= |mem[list[k]]| && list[k] in s.body
      && mem[list[k]][0] as int == vertices[0].source as int + v
      && mem[list[k]][1] as nat == (if k == 0 then 0xFFFF_FFFF else list[k - 1])
      && mem[list[k]][2] as nat == (if k == |list| - 1 then 0xFFFF_FFFF else list[k + 1])
      && mem[list[k]][3..] == s.body[s.lists[v][k]]
  {
    BlockFacts(g, mem, vertices, s, v, k);
  }

  /** A list whose head and next words are those of `chain` starts with it. */
  lemma {:induction false} FollowLinks(mem: seq<Block>, vtx: Vertex, list: seq<nat>, body: map<nat, Body>,
                                       chain: seq<nat>, i: nat)
    requires Linked(mem, vtx, list, body) && i < |chain| && vtx.head as nat == chain[0]
    requires forall t :: 0 <= t < |chain| ==> chain[t] != INVALID_BLOCKNO as nat
    requires forall t {:trigger chain[t]} :: 0 <= t < |chain| - 1 ==>
      chain[t] < |mem| && NEXT < |mem[chain[t]]| && mem[chain[t]][NEXT] as nat == chain[t + 1]
    ensures i < |list| && list[i] == chain[i]
    decreases i
  {
    if i > 0 {
      FollowLinks(mem, vtx, list, body, chain, i - 1);
      assert Carries(mem, vtx.source, list, i - 1, body);
    }
  }

  /** A block that the links of vertex `w` reach names `w`, whatever lists are stored. */
  lemma ReachedNames(g: Geometry, mem: seq<Block>, vertices: seq<Vertex>, s: Subgraph, w: nat, chain: seq<nat>)
    requires ListsSound(g, mem, vertices, s) && w < |vertices| && chain != []
    requires vertices[w].head as nat == chain[0]
    requires forall t :: 0 <= t < |chain| ==> chain[t] != INVALID_BLOCKNO as nat
    requires forall t {:trigger chain[t]} :: 0 <= t < |chain| - 1 ==>
      chain[t] < |mem| && NEXT < |mem[chain[t]]| && mem[chain[t]][NEXT] as nat == chain[t + 1]
    ensures var b := chain[|chain| - 1];
            b < |mem| && SOURCE < |mem[b]| && mem[b][SOURCE] == vertices[w].source
  {
    hide WellFormed;
    assert Linked(mem, vertices[w], s.lists[w], s.body);
    FollowLinks(mem, vertices[w], s.lists[w], s.body, chain, |chain| - 1);
    assert Carries(mem, vertices[w].source, s.lists[w], |chain| - 1, s.body);
  }

  /** Block `b` was linked into list `w` at position `k`, but names another vertex. */
  lemma ForeignBlock(g: Geometry, mem: seq<Block>, vertices: seq<Vertex>, s: Subgraph, w: nat, k: nat,
                     mem': seq<Block>, vertices': seq<Vertex>, b: Word)
    requires ListsSound(g, mem, vertices, s) && w < |vertices| && 0 < k < |s.lists[w]|
    requires |vertices'| == |vertices| && vertices'[w].head == vertices[w].head
    requires vertices'[w].source == vertices[w].source
    requires b != INVALID_BLOCKNO && b as int < |mem'| && SOURCE < |mem'[b]| && mem'[b][SOURCE] != vertices[w].source
    requires |mem| <= |mem'|
    requires forall t {:trigger s.lists[w][t]} :: 0 <= t < k - 1 && s.lists[w][t] < |mem| ==>
      mem'[s.lists[w][t]] == mem[s.lists[w][t]]
    requires var p := s.lists[w][k - 1];
             p < |mem'| && NEXT < |mem'[p]| && mem'[p][NEXT] == b
    ensures NoLists(g, mem', vertices')
  {
    hide WellFormed;
    VertexFacts(g, mem, vertices, s, w);
    var list := s.lists[w];
    var chain := list[..k] + [b as nat];
    forall t | 0 <= t < k
      ensures chain[t] == list[t] != INVALID_BLOCKNO as nat && chain[t] < |mem'|
      ensures NEXT < |mem'[chain[t]]| && mem'[chain[t]][NEXT] as nat == chain[t + 1]
    {
      BlockFacts(g, mem, vertices, s, w, t);
      assert chain[t] == list[t];
    }
    forall s': Subgraph ensures !ListsSound(g, mem', vertices', s') {
      if ListsSound(g, mem', vertices', s') {
        ReachedNames(g, mem', vertices', s', w, chain);
      }
    }
  }

  /** The words of an insertion into list `w` of a block that names vertex `v`. */
  lemma Misplacement(g: Geometry, mem: seq<Block>, memA: seq<Block>, mem': seq<Block>, vertices: seq<Vertex>,
                     vertices': seq<Vertex>, s: Subgraph, v: nat, w: nat, k: nat, b: Word, blk: Block)
    requires ListsSound(g, mem, vertices, s) && CanAllocate(g, s) && b as nat == NextBlock(g, s)
    requires v < |s.lists| && w < |s.lists| && v != w && 0 < k < |s.lists[w]|
    requires |mem| <= |memA| && b as int < |memA| && b != INVALID_BLOCKNO && Sized(memA, s.lists[w])
    requires forall x :: 0 <= x < |mem| && x !in s.free ==> memA[x] == mem[x]
    requires mem' == WithLinks(memA, s.lists[w], k, b)[b := blk]
    requires SOURCE < |blk| && blk[SOURCE] == vertices[v].source
    requires |vertices'| == |vertices| && vertices'[w] == vertices[w]
    ensures NoLists(g, mem', vertices')
  {
    var list := s.lists[w];
    LiveUntouched(g, mem, memA, s, w);
    VertexFacts(g, mem, vertices, s, w);
    hide WellFormed, Linked, NoLists;
    forall t | 0 <= t < |list| ensures list[t] != b as nat {
      assert list[t] in list;
    }
    assert mem'[list[k - 1]][NEXT] == b;
    assert forall t :: 0 <= t < k - 1 ==> mem'[list[t]] == memA[list[t]];
    ForeignBlock(g, mem, vertices, s, w, k, mem', vertices', b);
  }

  /** What it may rely on after `require` has changed the memory to `memA`. */
  lemma AfterRequire(g: Geometry, mem: seq<Block>, memA: seq<Block>, vertices: seq<Vertex>, s: Subgraph, v: nat)
    requires ListsSound(g, mem, vertices, s) && v < |vertices| && CanAllocate(g, s)
    requires |memA| == Grown(g, s).sup && AllSized(memA, g.words)
    ensures |s.lists| == |vertices| && |mem| <= |memA| && Sized(memA, s.lists[v])
    ensures Grown(g, s).free != []
  {
    ListSized(g, memA, s, v);
    GrownWellFormed(g, s);
  }

  /** What is known around an insertion, by value: see `InsertionSound`. */
  ghost predicate Insertion(g: Geometry, mem: seq<Block>, memA: seq<Block>, mem': seq<Block>,
                            vertices: seq<Vertex>, s: Subgraph, v: nat, k: nat, b: Word, blk: Block)
  {
    && ListsSound(g, mem, vertices, s) && CanAllocate(g, s)
    && v < |s.lists| && k <= |s.lists[v]| && |blk| == g.words && b as nat == NextBlock(g, s)
    && |memA| == Grown(g, s).sup && AllSized(memA, g.words) && b < |memA|
    && (forall x :: 0 <= x < |mem| && x !in s.free ==> memA[x] == mem[x])
    && Sized(memA, s.lists[v])
    && mem' == WithLinks(memA, s.lists[v], k, b)[b := blk]
    && Holds(blk, vertices[v].source, Before(s.lists[v], k, INVALID_BLOCKNO),
             if k == |s.lists[v]| then INVALID_BLOCKNO else s.lists[v][k], blk[BODY..])
  }

  lemma InsertionWords(g: Geometry, memA: seq<Block>, mem': seq<Block>, list: seq<nat>, k: nat, b: Word, blk: Block)
    requires AllSized(memA, g.words) && Sized(memA, list) && k <= |list| && b < |memA| && |blk| == g.words
    requires mem' == WithLinks(memA, list, k, b)[b := blk]
    ensures AllSized(mem', g.words)
  {
  }

  lemma InsertionHere(g: Geometry, mem: seq<Block>, memA: seq<Block>, mem': seq<Block>,
                      vertices: seq<Vertex>, s: Subgraph, v: nat, k: nat, b: Word, blk: Block)
    requires Insertion(g, mem, memA, mem', vertices, s, v, k, b, blk)
    ensures Linked(mem', Joined(vertices[v], s.lists[v], k, b, blk[BODY..]), Insert(s.lists[v], k, b),
                   s.body[b as nat := blk[BODY..]])
    ensures forall x :: 0 <= x < |memA| && x !in s.lists[v] && x != b ==> mem'[x] == memA[x]
    ensures AllSized(mem', g.words)
  {
    var list := s.lists[v];
    LiveUntouched(g, mem, memA, s, v);
    ListSized(g, mem, s, v);
    assert Linked(mem, vertices[v], list, s.body);
    InsertionWords(g, memA, mem', list, k, b, blk);
    hide WellFormed, AllSized, WithLinks, SetWord, NextBlock, Grown, CanAllocate, Holds;
    WithLinksLinks(memA, mem', vertices[v].source, list, k, b, blk);
    LinkedFrame(mem, memA, vertices[v], vertices[v], list, s.body, s.body);
    InsertLinks(memA, mem', vertices[v], Joined(vertices[v], list, k, b, blk[BODY..]), list, s.body, k, b, blk[BODY..]);
  }

  lemma InsertionElsewhere(g: Geometry, mem: seq<Block>, memA: seq<Block>, mem': seq<Block>,
                           vertices: seq<Vertex>, s: Subgraph, v: nat, k: nat, b: Word, blk: Block, w: nat)
    requires Insertion(g, mem, memA, mem', vertices, s, v, k, b, blk) && w < |s.lists| && w != v
    ensures Linked(mem', vertices[w], s.lists[w], s.body[b as nat := blk[BODY..]])
  {
    hide WellFormed, Linked, AllSized, NextBlock;
    InsertionHere(g, mem, memA, mem', vertices, s, v, k, b, blk);
    LiveUntouched(g, mem, memA, s, w);
    forall i | 0 <= i < |s.lists[w]| ensures mem'[s.lists[w][i]] == mem[s.lists[w][i]] && s.lists[w][i] != b as nat {
      assert s.lists[w][i] in s.lists[w];
      OthersApart(g, s, v, w, i);
    }
    LinkedFrame(mem, mem', vertices[w], vertices[w], s.lists[w], s.body, s.body[b as nat := blk[BODY..]]);
  }

  lemma InsertionLinked(g: Geometry, mem: seq<Block>, memA: seq<Block>, mem': seq<Block>,
                        vertices: seq<Vertex>, s: Subgraph, v: nat, k: nat, b: Word, blk: Block, w: nat)
    requires Insertion(g, mem, memA, mem', vertices, s, v, k, b, blk) && w < |s.lists|
    ensures |vertices| == |s.lists|
    ensures Linked(mem', vertices[v := Joined(vertices[v], s.lists[v], k, b, blk[BODY..])][w],
                   s.lists[v := Insert(s.lists[v], k, b)][w], s.body[b as nat := blk[BODY..]])
  {
    hide WellFormed, Linked, Joined, NextBlock;
    if w == v {
      InsertionHere(g, mem, memA, mem', vertices, s, v, k, b, blk);
    } else {
      InsertionElsewhere(g, mem, memA, mem', vertices, s, v, k, b, blk, w);
    }
  }

  /**
   An insertion: `memA` is the memory after the allocation (which rewrites only blocks that were free), and
   `mem'` the memory after the links and the block itself are written.
   */
  lemma InsertionSound(g: Geometry, mem: seq<Block>, memA: seq<Block>, mem': seq<Block>,
                       vertices: seq<Vertex>, s: Subgraph, v: nat, k: nat, b: Word, blk: Block)
    requires Insertion(g, mem, memA, mem', vertices, s, v, k, b, blk)
    ensures ListsSound(g, mem', vertices[v := Joined(vertices[v], s.lists[v], k, b, blk[BODY..])],
                       InsertBlock(g, s, v, k, blk[BODY..]))
  {
    var s' := InsertBlock(g, s, v, k, blk[BODY..]);
    var vertices' := vertices[v := Joined(vertices[v], s.lists[v], k, b, blk[BODY..])];
    InsertKeeps(g, s, v, k, blk[BODY..]);
    InsertionHere(g, mem, memA, mem', vertices, s, v, k, b, blk);
    SizesUpdate(vertices, v, vertices'[v]);
    hide WellFormed, Linked, AllSized, Sized, Holds, AddWord, WithLinks;
    forall w | 0 <= w < |vertices'| ensures Linked(mem', vertices'[w], s'.lists[w], s'.body) {
      InsertionLinked(g, mem, memA, mem', vertices, s, v, k, b, blk, w);
    }
  }

  /** What is known around a removal, by value: see `RemovalSound`. */
  ghost predicate Removal(g: Geometry, mem: seq<Block>, mem': seq<Block>, memR: seq<Block>,
                          vertices: seq<Vertex>, s: Subgraph, v: nat, k: nat)
  {
    && ListsSound(g, mem, vertices, s) && v < |s.lists| && k < |s.lists[v]|
    && Sized(mem, s.lists[v])
    && mem' == WithoutLinks(mem, s.lists[v], k)
    && |memR| == |mem| && AllSized(memR, g.words)
    && (forall x :: 0 <= x < |mem| && x != s.lists[v][k] && x !in s.free ==> memR[x] == mem'[x])
  }

  lemma RemovalHere(g: Geometry, mem: seq<Block>, mem': seq<Block>, memR: seq<Block>,
                    vertices: seq<Vertex>, s: Subgraph, v: nat, k: nat)
    requires Removal(g, mem, mem', memR, vertices, s, v, k)
    ensures s.lists[v][k] in s.body
    ensures Linked(memR, Parted(vertices[v], s.lists[v], k, s.body[s.lists[v][k]]), Delete(s.lists[v], k),
                   s.body - {s.lists[v][k]})
    ensures forall x :: 0 <= x < |mem| && x !in s.lists[v] && x !in s.free ==> memR[x] == mem[x]
  {
    var list := s.lists[v];
    assert list[k] in list;
    ListSized(g, mem, s, v);
    WithoutLinksLinks(mem, list, k);
    forall i | 0 <= i < |list| && i != k ensures memR[list[i]] == mem'[list[i]] {
      LiveBlock(g, s, v, i);
    }
    assert LinkedOut(mem, memR, list, k);
    DeleteLinks(mem, memR, vertices[v], Parted(vertices[v], list, k, s.body[list[k]]), list, s.body, k);
  }

  lemma RemovalElsewhere(g: Geometry, mem: seq<Block>, mem': seq<Block>, memR: seq<Block>,
                         vertices: seq<Vertex>, s: Subgraph, v: nat, k: nat, w: nat)
    requires Removal(g, mem, mem', memR, vertices, s, v, k) && w < |s.lists| && w != v
    ensures Linked(memR, vertices[w], s.lists[w], s.body - {s.lists[v][k]})
  {
    RemovalHere(g, mem, mem', memR, vertices, s, v, k);
    forall i | 0 <= i < |s.lists[w]|
      ensures s.lists[w][i] < |mem|
      ensures memR[s.lists[w][i]] == mem[s.lists[w][i]] && s.lists[w][i] != s.lists[v][k]
    {
      LiveBlock(g, s, w, i);
      OthersApart(g, s, v, w, i);
    }
    LinkedFrame(mem, memR, vertices[w], vertices[w], s.lists[w], s.body, s.body - {s.lists[v][k]});
  }

  /** A removal: `mem'` is the memory after the neighbours are relinked, `memR` after the block is released. */
  lemma RemovalSound(g: Geometry, mem: seq<Block>, mem': seq<Block>, memR: seq<Block>,
                     vertices: seq<Vertex>, s: Subgraph, v: nat, k: nat)
    requires Removal(g, mem, mem', memR, vertices, s, v, k)
    ensures s.lists[v][k] in s.body
    ensures ListsSound(g, memR, vertices[v := Parted(vertices[v], s.lists[v], k, s.body[s.lists[v][k]])],
                       DeleteBlock(s, v, k))
  {
    DeleteKeeps(g, s, v, k);
    var s' := DeleteBlock(s, v, k);
    var vertices' := vertices[v := Parted(vertices[v], s.lists[v], k, s.body[s.lists[v][k]])];
    RemovalHere(g, mem, mem', memR, vertices, s, v, k);
    forall w | 0 <= w < |vertices'| ensures Linked(memR, vertices'[w], s'.lists[w], s'.body) {
      if w != v {
        RemovalElsewhere(g, mem, mem', memR, vertices, s, v, k, w);
      }
    }
    SizesUpdate(vertices, v, vertices'[v]);
  }
}
