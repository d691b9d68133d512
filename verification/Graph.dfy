/**
 `Graph::read` for a subgraph served by another host: the read-through path over the block cache and `readn`,
 on a store that does not change meanwhile.
 */
module Graph {
  import opened BlockFormat
  import opened Ownership
  import opened OverflowTable
  import opened BlockStore
  import opened ListSoundness
  import opened SubgraphStorage
  import opened SubgraphSet
  import opened SubgraphReads
  import opened LruModel
  import opened GraphCache
  import opened CachedRun
  import opened SubgraphModel
  import CacheLinks

  /** What a store holds, whichever pages are mapped. */
  datatype View = View(first: Word, lists: seq<seq<nat>>, blocks: seq<Block>)

  ghost function ViewOf(st: Storage): View
    reads st, st.mem
  {
    View(st.FirstVertex(), st.lists, st.mem.blocks)
  }

  type Width = n: int | 0 < n witness 1

  /** What the stores of an agent's subgraphs hold, by the first vertex of each. */
  datatype Subgraphs = Subgraphs(width: Width, views: map<Word, View>)

  /** `VTXNO2SUBGRAPH`: the first vertex of the interval a vertex lies in. */
  function SubgraphKey(vtxno: Word, width: Width): Word {
    vtxno - Mod(vtxno, width)
  }

  /** Intervals do not overlap. */
  lemma KeyUnique(vtxno: Word, key: Word, width: Width)
    requires Mod(key, width) == 0 && key <= vtxno < key + width
    ensures SubgraphKey(vtxno, width) == key
  {
    ModAdd(key, vtxno - key, width);
  }

  /** The store is one of the known ones. */
  ghost predicate Knows(all: Subgraphs, st: Storage)
    reads st, st.mem
  {
    var key := st.FirstVertex();
    Mod(key, all.width) == 0 && |st.vertices| <= all.width && key in all.views && all.views[key] == ViewOf(st)
  }

  /** Where a cached item names a vertex of a known store, it is the block of that store it is named after. */
  ghost predicate TrueItem(all: Subgraphs, item: Item) {
    var key := SubgraphKey(item.key.vtxno, all.width);
    key in all.views ==> IsBlock(all.views[key], item)
  }

  lemma TrueHere(all: Subgraphs, st: Storage, item: Item)
    requires Knows(all, st) && st.ContainsVertex(item.key.vtxno)
    ensures TrueItem(all, item) <==> IsBlock(ViewOf(st), item)
  {
    KeyUnique(item.key.vtxno, st.FirstVertex(), all.width);
  }

  ghost predicate IsBlock(view: View, item: Item) {
    && 0 <= item.key.vtxno - view.first < |view.lists|
    && item.key.blkno as nat in view.lists[item.key.vtxno - view.first]
    && item.key.blkno as int < |view.blocks|
    && item.data == view.blocks[item.key.blkno]
  }

  ghost predicate Coherent(cache: Cache, all: Subgraphs)
    requires cache.Valid()
    reads cache, cache.entries, cache.table, cache.data
  {
    forall h :: 0 <= h < cache.heads ==> CoherentBucket(cache.BucketAt(h), all)
  }

  ghost predicate CoherentBucket(b: Bucket, all: Subgraphs) {
    forall i :: 0 <= i < |b| ==> TrueItem(all, b[i])
  }

  /** Every cache operation leaves items that were there or the item just written. */
  lemma StaysCoherent(b: Bucket, window: nat, e: Event, all: Subgraphs)
    requires 0 < window && DistinctKeys(b) && CoherentBucket(b, all)
    requires e.Writing? ==> TrueItem(all, Item(e.key, e.data))
    ensures CoherentBucket(Apply(b, window, e), all)
  {
    DistinctKeysAsKeys(b);
    var b' := Apply(b, window, e);
    forall i | 0 <= i < |b'| ensures TrueItem(all, b'[i]) {
      ItemOrigin(b, window, e, i);
      if b'[i] in b {
        var j :| 0 <= j < |b| && b[j] == b'[i];
      }
    }
  }

  /** A hit in a coherent bucket is the block of the store. */
  lemma HitIsTrue(b: Bucket, key: Key, all: Subgraphs)
    requires CoherentBucket(b, all) && Found(b, key).Hit?
    ensures TrueItem(all, Item(key, Found(b, key).data))
  {
    assert b[Position(b, key)] == Item(key, Found(b, key).data);
  }

  /** The cache has been given the items of `run`, one after the other. */
  ghost predicate Given(cache: Cache, run: seq<Item>)
    requires cache.Valid()
    reads cache, cache.entries, cache.table, cache.data
  {
    forall h :: 0 <= h < cache.heads ==> Held(cache.BucketAt(h), Latest(run, h, cache.hash), cache.Window())
  }

  /** What one write does to a bucket that starts with the latest items of a run. */
  lemma GivenOneMore(b: Bucket, run: seq<Item>, window: nat, item: Item, h: nat, hash: (Word, Word) -> nat)
    requires 0 < window && |b| <= window && Held(b, Latest(run, h, hash), window)
    requires forall x :: x in run ==> x.key != item.key
    ensures Held(if hash(item.key.vtxno, item.key.blkno) == h then AfterWrite(b, window, item.key, item.data) else b,
                 Latest(run + [item], h, hash), window)
  {
    assert Last(run + [item]) == item && Front(run + [item]) == run;
    LatestMembers(run, h, hash);
    if hash(item.key.vtxno, item.key.blkno) == h {
      HeldAfterWrite(b, Latest(run, h, hash), window, item);
    } else {
      assert [] + Latest(run, h, hash) == Latest(run, h, hash);
    }
  }

  method CacheWrite(cache: Cache, ghost all: Subgraphs, vtxno: Word, blkno: Word, blk: Block, ghost run: seq<Item>)
    requires cache.Valid() && Coherent(cache, all) && TrueItem(all, Item(Key(vtxno, blkno), blk))
    requires Given(cache, run) && forall x :: x in run ==> x.key != Key(vtxno, blkno)
    modifies cache, cache.entries, cache.table, cache.data
    ensures cache.Valid() && Coherent(cache, all) && Given(cache, run + [Item(Key(vtxno, blkno), blk)])
  {
    hide TrueItem, CoherentBucket, CacheLinks.LinksOk, BucketsOk, Held, Latest, AfterWrite;
    ghost var item, window := Item(Key(vtxno, blkno), blk), cache.Window();
    forall h | 0 <= h < cache.heads
      ensures CoherentBucket(cache.BucketAt(h), all)
      ensures CoherentBucket(AfterWrite(cache.BucketAt(h), window, item.key, blk), all)
      ensures Held(if cache.hash(vtxno, blkno) == h then AfterWrite(cache.BucketAt(h), window, item.key, blk)
                   else cache.BucketAt(h), Latest(run + [item], h, cache.hash), window)
    {
      cache.KeysDistinct(h);
      StaysCoherent(cache.BucketAt(h), window, Writing(item.key, blk), all);
      GivenOneMore(cache.BucketAt(h), run, window, item, h, cache.hash);
    }
    cache.Write(vtxno, blkno, blk);
    forall h | 0 <= h < cache.heads
      ensures CoherentBucket(cache.BucketAt(h), all)
      ensures Held(cache.BucketAt(h), Latest(run + [item], h, cache.hash), window)
    {
      ghost var b := old(cache.BucketAt(h));
      assert CoherentBucket(b, all) && CoherentBucket(AfterWrite(b, window, item.key, blk), all);
    }
  }

  ghost predicate Numbered(list: seq<nat>, blocks: seq<Block>) {
    NoDup(list) && forall i :: 0 <= i < |list| ==> list[i] < |blocks| < 0x1_0000_0000
  }

  ghost function ItemOf(vtxno: Word, list: seq<nat>, blocks: seq<Block>, k: nat): Item
    requires Numbered(list, blocks) && k < |list|
  {
    Item(Key(vtxno, list[k]), blocks[list[k]])
  }

  /** The `n` blocks of a list from position `k` on, under the numbers that name them. */
  ghost function RunOf(vtxno: Word, list: seq<nat>, blocks: seq<Block>, k: nat, n: nat): seq<Item>
    requires Numbered(list, blocks) && k + n <= |list|
  {
    seq(n, i requires 0 <= i < n => ItemOf(vtxno, list, blocks, k + i))
  }

  lemma RunGrows(vtxno: Word, list: seq<nat>, blocks: seq<Block>, k: nat, n: nat)
    requires Numbered(list, blocks) && k + n < |list|
    ensures RunOf(vtxno, list, blocks, k, n + 1)
         == RunOf(vtxno, list, blocks, k, n) + [ItemOf(vtxno, list, blocks, k + n)]
    ensures forall x :: x in RunOf(vtxno, list, blocks, k, n) ==> x.key != ItemOf(vtxno, list, blocks, k + n).key
  {
    var run := RunOf(vtxno, list, blocks, k, n);
    forall i | 0 <= i < |run| ensures run[i].key != ItemOf(vtxno, list, blocks, k + n).key {
      assert run[i] == ItemOf(vtxno, list, blocks, k + i) && list[k + i] != list[k + n];
    }
  }

  lemma RunDistinct(vtxno: Word, list: seq<nat>, blocks: seq<Block>, k: nat, n: nat)
    requires Numbered(list, blocks) && k + n <= |list|
    ensures DistinctKeys(RunOf(vtxno, list, blocks, k, n))
  {
    var run := RunOf(vtxno, list, blocks, k, n);
    forall i, j | 0 <= i < j < |run| ensures run[i].key != run[j].key {
      assert run[i] == ItemOf(vtxno, list, blocks, k + i) && run[j] == ItemOf(vtxno, list, blocks, k + j);
      assert list[k + i] != list[k + j];
    }
  }

  /** Each block of a run is cached, unless a window of later ones fell into its bucket. */
  ghost predicate RunCached(cache: Cache, run: seq<Item>)
    requires cache.Valid()
    reads cache, cache.entries, cache.table, cache.data
  {
    forall i :: 0 <= i < |run| ==>
      var key := run[i].key;
      var h := cache.hash(key.vtxno, key.blkno);
      Found(cache.BucketAt(h), key) ==
        if |Latest(run[i + 1..], h, cache.hash)| < cache.Window() then Hit(run[i].data) else Miss
  }

  lemma GivenCached(cache: Cache, run: seq<Item>)
    requires cache.Valid() && Given(cache, run) && DistinctKeys(run)
    ensures RunCached(cache, run)
  {
    hide CacheLinks.LinksOk, BucketsOk, Found, Held, Latest;
    forall i | 0 <= i < |run|
      ensures var key := run[i].key;
              var h := cache.hash(key.vtxno, key.blkno);
              Found(cache.BucketAt(h), key) ==
                if |Latest(run[i + 1..], h, cache.hash)| < cache.Window() then Hit(run[i].data) else Miss
    {
      var h := cache.hash(run[i].key.vtxno, run[i].key.blkno);
      cache.KeysDistinct(h);
      RunFound(cache.BucketAt(h), run, cache.Window(), i, cache.hash);
    }
  }

  method CacheRead(cache: Cache, ghost all: Subgraphs, vtxno: Word, blkno: Word) returns (r: Lookup)
    requires cache.Valid() && Coherent(cache, all)
    modifies cache, cache.entries, cache.table, cache.data
    ensures cache.Valid() && Coherent(cache, all)
    ensures r.Hit? ==> TrueItem(all, Item(Key(vtxno, blkno), r.data))
  {
    hide TrueItem, CoherentBucket, CacheLinks.LinksOk, BucketsOk, Found;
    ghost var e, window, h0 := Reading(Key(vtxno, blkno)), cache.Window(), cache.hash(vtxno, blkno);
    forall h | 0 <= h < cache.heads
      ensures CoherentBucket(cache.BucketAt(h), all) && CoherentBucket(Apply(cache.BucketAt(h), window, e), all)
    {
      cache.KeysDistinct(h);
      StaysCoherent(cache.BucketAt(h), window, e, all);
    }
    r := cache.Read(vtxno, blkno);
    if r.Hit? {
      HitIsTrue(old(cache.BucketAt(h0)), Key(vtxno, blkno), all);
    }
    forall h | 0 <= h < cache.heads ensures CoherentBucket(cache.BucketAt(h), all) {
      ghost var b := old(cache.BucketAt(h));
      assert CoherentBucket(b, all) && CoherentBucket(Apply(b, window, e), all);
    }
  }

  /**
   `read` over the intended `readn`: whatever the cache holds, the caller gets the block of the store, and
   the cache goes on holding only blocks of the store.
   */
  method ReadThrough(cache: Cache, ghost all: Subgraphs, st: Storage, vtxno: Word, blkno: Word, count: nat)
    returns (blk: Block)
    requires cache.Valid() && st.Sound() && Knows(all, st) && Coherent(cache, all) && count > 0
    requires st.ContainsVertex(vtxno) && blkno as nat in ListOf(st, vtxno)
    modifies cache, cache.entries, cache.table, cache.data, st.mem`table
    ensures cache.Valid() && st.Sound() && ViewOf(st) == old(ViewOf(st)) && Coherent(cache, all)
    ensures blkno as int < |st.mem.blocks| && blk == st.mem.blocks[blkno]
  {
    hide CacheLinks.LinksOk, BucketsOk, Found, WellFormed, ListsSound, FreeOk, BlockMemory.Valid;
    var r := CacheRead(cache, all, vtxno, blkno);
    if r.Hit? {
      TrueHere(all, st, Item(Key(vtxno, blkno), r.data));
      return r.data;
    }
    blk := Fetch(cache, all, st, vtxno, blkno, count);
  }

  /** The blocks a miss reads: `count` from the block asked for on, or as many as the list has. */
  ghost predicate RunFetched(cache: Cache, view: View, vtxno: Word, blkno: Word, count: nat)
    requires cache.Valid()
    reads cache, cache.entries, cache.table, cache.data
  {
    && 0 <= vtxno - view.first < |view.lists|
    && var list := view.lists[vtxno - view.first];
    && Numbered(list, view.blocks) && blkno as nat in list
    && var k := IndexOf(list, blkno);
       RunCached(cache, RunOf(vtxno, list, view.blocks, k, if count <= |list| - k then count else |list| - k))
  }

  /**
   The miss: a run of blocks is read from the provider, its first block is returned, and all of them are put
   into the cache under their numbers, so that the next reads of the run hit.
   */
  method Fetch(cache: Cache, ghost all: Subgraphs, st: Storage, vtxno: Word, blkno: Word, count: nat)
    returns (blk: Block)
    requires cache.Valid() && st.Sound() && Knows(all, st) && Coherent(cache, all) && count > 0
    requires st.ContainsVertex(vtxno) && blkno as nat in ListOf(st, vtxno)
    modifies cache, cache.entries, cache.table, cache.data, st.mem`table
    ensures cache.Valid() && st.Sound() && ViewOf(st) == old(ViewOf(st)) && Coherent(cache, all)
    ensures blkno as int < |st.mem.blocks| && blk == st.mem.blocks[blkno]
    ensures RunFetched(cache, ViewOf(st), vtxno, blkno, count)
  {
    hide CacheLinks.LinksOk, BucketsOk, WellFormed, ListsSound, FreeOk, BlockMemory.Valid, Coherent, Span, RunCached;
    VertexInStore(st, st.Index(vtxno));
    ghost var list, mem := ListOf(st, vtxno), st.mem.blocks;
    ghost var k := IndexOf(list, blkno);
    var xblks := ReadRun(st, vtxno, blkno, count);
    blk := xblks[0];
    FillCache(cache, all, st, vtxno, blkno, xblks, k, count);
    RunDistinct(vtxno, list, mem, k, |xblks|);
    hide Given, RunOf;
    GivenCached(cache, RunOf(vtxno, list, mem, k, |xblks|));
  }

  /** The provider's part of it. */
  method ReadRun(st: Storage, vtxno: Word, blkno: Word, count: nat) returns (xblks: seq<Block>)
    requires st.Sound() && st.ContainsVertex(vtxno) && blkno as nat in ListOf(st, vtxno) && count > 0
    modifies st.mem`table
    ensures st.Sound() && Numbered(ListOf(st, vtxno), st.mem.blocks)
    ensures var list := ListOf(st, vtxno);
            var k := IndexOf(list, blkno);
            && xblks == Span(st.mem.blocks, list, k, count, true)
            && |xblks| == (if count <= |list| - k then count else |list| - k)
            && xblks[0] == st.mem.blocks[blkno]
  {
    hide WellFormed, ListsSound, FreeOk, BlockMemory.Valid;
    VertexInStore(st, st.Index(vtxno));
    ghost var list := ListOf(st, vtxno);
    SpanLength(st.mem.blocks, list, IndexOf(list, blkno), count);
    FollowSpan(st.mem.g, st.mem.blocks, st.vertices, st.Model(), st.Index(vtxno), IndexOf(list, blkno), count, true);
    var r := ReadnRepaired(st, vtxno, blkno, count);
    xblks := r.blocks;
  }

  /** The loop that caches the blocks read, each under the number the one before it names. */
  method FillCache(cache: Cache, ghost all: Subgraphs, st: Storage, vtxno: Word, blkno: Word, xblks: seq<Block>,
                   ghost k: nat, ghost count: nat)
    requires cache.Valid() && st.Sound() && Knows(all, st) && Coherent(cache, all)
    requires st.ContainsVertex(vtxno) && Numbered(ListOf(st, vtxno), st.mem.blocks)
    requires k + |xblks| <= |ListOf(st, vtxno)| && k < |ListOf(st, vtxno)| && ListOf(st, vtxno)[k] == blkno as nat
    requires xblks == Span(st.mem.blocks, ListOf(st, vtxno), k, count, true) && |xblks| <= count
    modifies cache, cache.entries, cache.table, cache.data
    ensures cache.Valid() && Coherent(cache, all)
    ensures Given(cache, RunOf(vtxno, ListOf(st, vtxno), st.mem.blocks, k, |xblks|))
  {
    hide CacheLinks.LinksOk, BucketsOk, WellFormed, ListsSound, FreeOk, BlockMemory.Valid, Coherent, RunOf;
    ghost var v := st.Index(vtxno);
    VertexInStore(st, v);
    ghost var list, mem := st.lists[v], st.mem.blocks;
    NothingGiven(cache, vtxno, list, mem, k);
    var no := blkno;
    var i := 0;
    while i < |xblks|
      invariant 0 <= i <= |xblks| && cache.Valid() && Coherent(cache, all)
      invariant i < |xblks| ==> no as nat == list[k + i]
      invariant xblks[i..] == Span(mem, list, k + i, count - i, true)
      invariant Given(cache, RunOf(vtxno, list, mem, k, i))
    {
      assert k + i < |list|;
      ghost var here := xblks[i..];
      assert here[0] == mem[list[k + i]] && here[1..] == xblks[i + 1..];
      ListNext(st, v, k + i);
      RunGrows(vtxno, list, mem, k, i);
      TrueHere(all, st, Item(Key(vtxno, no), xblks[i]));
      CacheWrite(cache, all, vtxno, no, xblks[i], RunOf(vtxno, list, mem, k, i));
      no := xblks[i][NEXT];
      i := i + 1;
    }
  }

  lemma NothingGiven(cache: Cache, vtxno: Word, list: seq<nat>, blocks: seq<Block>, k: nat)
    requires cache.Valid() && Numbered(list, blocks) && k <= |list|
    ensures Given(cache, RunOf(vtxno, list, blocks, k, 0))
  {
  }

  lemma {:induction false} SpanLength(mem: seq<Block>, list: seq<nat>, k: nat, n: nat)
    requires forall i :: 0 <= i < |list| ==> list[i] < |mem|
    requires k <= |list|
    ensures |Span(mem, list, k, n, true)| == if n <= |list| - k then n else |list| - k
    decreases n
  {
    if n > 0 && k < |list| {
      SpanLength(mem, list, k + 1, n - 1);
    }
  }

  lemma VertexInStore(st: Storage, v: nat)
    requires st.Sound() && v < |st.vertices|
    ensures |st.lists| == |st.vertices| && Numbered(st.lists[v], st.mem.blocks)
    ensures forall i :: 0 <= i < |st.lists[v]| ==>
      st.lists[v][i] < |st.mem.blocks| && st.lists[v][i] != INVALID_BLOCKNO as nat
  {
    InStore(st.mem.g, st.mem.blocks, st.vertices, st.Model(), v);
    VertexFacts(st.mem.g, st.mem.blocks, st.vertices, st.Model(), v);
  }

  /** The next word of a listed block names its successor. */
  lemma ListNext(st: Storage, v: nat, k: nat)
    requires st.Sound() && v < |st.vertices| && v < |st.lists| && k < |st.lists[v]|
    ensures st.lists[v][k] < |st.mem.blocks| && BODY < |st.mem.blocks[st.lists[v][k]]|
    ensures st.mem.blocks[st.lists[v][k]][NEXT] as nat == After(st.lists[v], k, INVALID_BLOCKNO)
  {
    BlockFacts(st.mem.g, st.mem.blocks, st.vertices, st.Model(), v, k);
  }

  /** The answer is the last block of the list, so it is the block asked for only when that is the last one. */
  ghost predicate TailAnswer(view: View, vtxno: Word, blkno: Word, blk: Block) {
    && 0 <= vtxno - view.first < |view.lists|
    && var list := view.lists[vtxno - view.first];
    && list != [] && list[|list| - 1] < |view.blocks| && blkno as int < |view.blocks|
    && blk == view.blocks[list[|list| - 1]]
    && (blk == view.blocks[blkno] <==> blkno as nat == list[|list| - 1])
  }

  /**
   `read` over `readn` as written: on a miss the caller gets the last block of the list, whichever block was
   asked for, and the cache stores it under the number asked for.
   */
  method ReadThroughAsWritten(cache: Cache, st: Storage, vtxno: Word, blkno: Word, count: nat)
    returns (blk: Block, hit: bool)
    requires cache.Valid() && st.Sound() && count > 0
    requires st.ContainsVertex(vtxno) && blkno as nat in ListOf(st, vtxno)
    modifies cache, cache.entries, cache.table, cache.data, st.mem`table
    ensures cache.Valid() && st.Sound() && ViewOf(st) == old(ViewOf(st))
    ensures old(Found(cache.BucketAt(cache.hash(vtxno, blkno)), Key(vtxno, blkno))) == if hit then Hit(blk) else Miss
    ensures !hit ==> TailAnswer(ViewOf(st), vtxno, blkno, blk)
    ensures !hit ==> Found(cache.BucketAt(cache.hash(vtxno, blkno)), Key(vtxno, blkno)) == Hit(blk)
  {
    hide CacheLinks.LinksOk, BucketsOk, Found, WellFormed, ListsSound, FreeOk, BlockMemory.Valid, TailAnswer;
    hide Storage.Valid, Position, AfterRead;
    var r := cache.Read(vtxno, blkno);
    hit := r.Hit?;
    if hit {
      blk := r.data;
    } else {
      blk := FetchAsWritten(cache, st, vtxno, blkno, count);
    }
  }

  /** The miss: `readn` as written answers with the last block alone, and that is what the cache is given. */
  method FetchAsWritten(cache: Cache, st: Storage, vtxno: Word, blkno: Word, count: nat) returns (blk: Block)
    requires cache.Valid() && st.Sound() && count > 0
    requires st.ContainsVertex(vtxno) && blkno as nat in ListOf(st, vtxno)
    modifies cache, cache.entries, cache.table, cache.data, st.mem`table
    ensures cache.Valid() && st.Sound() && ViewOf(st) == old(ViewOf(st))
    ensures TailAnswer(ViewOf(st), vtxno, blkno, blk)
    ensures Found(cache.BucketAt(cache.hash(vtxno, blkno)), Key(vtxno, blkno)) == Hit(blk)
  {
    hide CacheLinks.LinksOk, BucketsOk, Found, WellFormed, ListsSound, FreeOk, BlockMemory.Valid, AfterWrite;
    ghost var v := st.Index(vtxno);
    VertexInStore(st, v);
    ghost var list, k := st.lists[v], IndexOf(st.lists[v], blkno);
    OnlyLastEnds(st, v, k);
    FollowSpan(st.mem.g, st.mem.blocks, st.vertices, st.Model(), v, k, |list| - k, true);
    SpanEnd(st.mem.blocks, list, k);
    var xblks := Readn(st, vtxno, blkno, count, |list| - k);
    blk := xblks.blocks[0];
    WrittenFound(cache.BucketAt(cache.hash(vtxno, blkno)), cache.Window(), Key(vtxno, blkno), blk);
    cache.Write(vtxno, blkno, blk);
  }

  /** A listed block equals the last one of its list only if it is the last one. */
  lemma OnlyLastEnds(st: Storage, v: nat, k: nat)
    requires st.Sound() && v < |st.vertices| && v < |st.lists| && k < |st.lists[v]|
    ensures st.lists[v][k] < |st.mem.blocks| && st.lists[v][|st.lists[v]| - 1] < |st.mem.blocks|
    ensures st.mem.blocks[st.lists[v][k]] == st.mem.blocks[st.lists[v][|st.lists[v]| - 1]]
      <==> st.lists[v][k] == st.lists[v][|st.lists[v]| - 1]
  {
    VertexInStore(st, v);
    ListNext(st, v, k);
    ListNext(st, v, |st.lists[v]| - 1);
  }

  lemma WrittenFound(b: Bucket, window: nat, key: Key, blk: Block)
    requires 0 < window
    ensures Found(AfterWrite(b, window, key, blk), key) == Hit(blk)
  {
  }
}
