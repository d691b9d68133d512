/**
 The agent's `Graph`: one block cache for the subgraphs of all hosts.  Subgraphs are found by the first vertex
 of their interval; those kept on the agent's own host are read without the cache.
 */
module Agents {
  import opened BlockFormat
  import opened BlockStore
  import opened SubgraphStorage
  import opened SubgraphSet
  import opened LruModel
  import opened GraphCache
  import opened Graph
  import OverflowTable
  import FreeList
  import CacheLinks
  import ListSoundness

  datatype Request = Request(vtxno: Word, blkno: Word)

  type Stores = map<Word, Storage>

  ghost function Mems(stores: Stores): set<BlockMemory> {
    set key | key in stores :: stores[key].mem
  }

  ghost predicate StoreAt(stores: Stores, width: Width, key: Word)
    requires key in stores
    reads stores[key], stores[key].mem
  {
    && stores[key].Sound() && stores[key].FirstVertex() == key
    && Mod(key, width) == 0 && |stores[key].vertices| <= width
  }

  /** Every store is sound and found under its first vertex, and none shares its blocks with another. */
  ghost predicate Apart(stores: Stores, width: Width)
    reads stores.Values, Mems(stores)
  {
    && (forall key :: key in stores ==> StoreAt(stores, width, key))
    && (forall j, k :: j in stores && k in stores && j != k ==> stores[j].mem != stores[k].mem)
  }

  /** What the stores hold. */
  ghost function Holding(stores: Stores, width: Width): Subgraphs
    reads stores.Values, Mems(stores)
  {
    Subgraphs(width, map key | key in stores :: ViewOf(stores[key]))
  }

  /** The request names a block of the vertex in one of the subgraphs. */
  ghost predicate Names(all: Subgraphs, r: Request) {
    var key := SubgraphKey(r.vtxno, all.width);
    && key in all.views
    && var view := all.views[key];
    && 0 <= r.vtxno - view.first < |view.lists|
    && r.blkno as nat in view.lists[r.vtxno - view.first]
  }

  /** The answer is the block the request names. */
  ghost predicate Answers(all: Subgraphs, r: Request, blk: Block) {
    var key := SubgraphKey(r.vtxno, all.width);
    key in all.views && IsBlock(all.views[key], Item(Key(r.vtxno, r.blkno), blk))
  }

  lemma NamedStore(stores: Stores, width: Width, r: Request)
    requires Apart(stores, width) && Names(Holding(stores, width), r)
    ensures var key := SubgraphKey(r.vtxno, width);
      && key in stores && StoreAt(stores, width, key)
      && stores[key].ContainsVertex(r.vtxno) && r.blkno as nat in ListOf(stores[key], r.vtxno)
      && Knows(Holding(stores, width), stores[key])
  {
    hide Storage.Sound, Storage.Valid;
    var key := SubgraphKey(r.vtxno, width);
    assert StoreAt(stores, width, key);
    ListPerVertex(stores[key]);
  }

  lemma ListPerVertex(st: Storage)
    requires st.Sound()
    ensures |st.lists| == |st.vertices|
  {
    hide FreeOk, BlockMemory.Valid;
  }

  /** The named block of the store answers the request. */
  lemma BlockAnswers(stores: Stores, width: Width, r: Request, blk: Block)
    requires Names(Holding(stores, width), r)
    requires var key := SubgraphKey(r.vtxno, width);
      key in stores && r.blkno as int < |stores[key].mem.blocks| && blk == stores[key].mem.blocks[r.blkno]
    ensures Answers(Holding(stores, width), r, blk)
  {
  }

  /** The read of a subgraph on the agent's own host. */
  method ReadNative(st: Storage, vtxno: Word, blkno: Word) returns (blk: Block)
    requires st.Sound() && st.ContainsVertex(vtxno) && blkno as nat in ListOf(st, vtxno)
    modifies st.mem`table
    ensures st.Sound() && ViewOf(st) == old(ViewOf(st))
    ensures blkno as int < |st.mem.blocks| && blk == st.mem.blocks[blkno]
  {
    hide ListSoundness.ListsSound, FreeOk;
    VertexInStore(st, st.Index(vtxno));
    blk := st.mem.LoadBlock(blkno);
  }

  class Agent {
    const cache: Cache
    const stores: Stores
    const width: Width
    const native: set<Word>
    const count: nat   // blocks a miss asks for

    ghost predicate Valid()
      reads cache, cache.entries, cache.table, cache.data, stores.Values, Mems(stores)
    {
      0 < count && Apart(stores, width) && cache.Valid() && Coherent(cache, Holding(stores, width))
    }

    constructor (stores: Stores, width: Width, native: set<Word>, count: nat, cache: Cache)
      requires 0 < count && Apart(stores, width)
      requires cache.Valid() && forall h :: 0 <= h < cache.heads ==> cache.BucketAt(h) == []
      ensures Valid() && this.stores == stores && this.width == width && this.cache == cache
    {
      hide Storage.Sound;
      this.stores, this.width, this.native, this.count, this.cache := stores, width, native, count, cache;
    }

    /** `read`: whatever other subgraphs were read before, the answer is the block asked for. */
    method Read(r: Request) returns (blk: Block)
      requires Valid() && Names(Holding(stores, width), r)
      modifies cache, cache.entries, cache.table, cache.data, Mems(stores)
      ensures Valid() && Holding(stores, width) == old(Holding(stores, width))
      ensures Answers(Holding(stores, width), r, blk)
    {
      hide Cache.Valid, Storage.Sound, BlockMemory.Valid, Coherent, Knows, Names, Answers, ViewOf;
      ghost var all := Holding(stores, width);
      NamedStore(stores, width, r);
      var key := SubgraphKey(r.vtxno, width);
      var st := stores[key];
      if key in native {
        blk := ReadNative(st, r.vtxno, r.blkno);
      } else {
        blk := ReadThrough(cache, all, st, r.vtxno, r.blkno, count);
      }
      forall k | k in stores
        ensures StoreAt(stores, width, k) && ViewOf(stores[k]) == old(ViewOf(stores[k]))
      {
        assert old(StoreAt(stores, width, k));
        assert k != key ==> stores[k].mem != st.mem;
      }
      assert Apart(stores, width) && Holding(stores, width) == all;
      hide Apart, Holding, StoreAt;
      BlockAnswers(stores, width, r, blk);
    }

    /** Any reads of any subgraphs, one after the other. */
    method Serve(requests: seq<Request>) returns (blks: seq<Block>)
      requires Valid() && forall i :: 0 <= i < |requests| ==> Names(Holding(stores, width), requests[i])
      modifies cache, cache.entries, cache.table, cache.data, Mems(stores)
      ensures Valid() && Holding(stores, width) == old(Holding(stores, width))
      ensures |blks| == |requests|
      ensures forall i :: 0 <= i < |blks| ==> Answers(Holding(stores, width), requests[i], blks[i])
    {
      hide Names, Answers, Apart, Coherent, Holding, BucketsOk, CacheLinks.LinksOk, Cache.Valid;
      blks := [];
      while |blks| < |requests|
        invariant Valid() && |blks| <= |requests| && Holding(stores, width) == old(Holding(stores, width))
        invariant forall i :: 0 <= i < |blks| ==> Answers(Holding(stores, width), requests[i], blks[i])
      {
        var blk := Read(requests[|blks|]);
        blks := blks + [blk];
      }
    }
  }
}
