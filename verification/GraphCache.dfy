/**
 `GraphCacheType`: the block cache over one shared array of entries, with a window per bucket.
 */
module GraphCache {
  import opened BlockFormat
  import opened Ownership
  import opened BlockLists
  import opened LruModel
  import opened CacheLinks

  /** What the entries of one list hold. */
  ghost function BucketOf(E: seq<LruEntry>, D: seq<Block>, list: seq<nat>): Bucket
    requires |D| == |E| && forall i :: 0 <= i < |list| ==> list[i] < |E|
  {
    seq(|list|, i requires 0 <= i < |list| => Item(Key(E[list[i]].source, E[list[i]].blkno), D[list[i]]))
  }

  ghost predicate InArray(list: seq<nat>, n: nat) {
    forall i :: 0 <= i < |list| ==> list[i] < n
  }

  /** Buckets hold distinct keys of their own hash value, within the window. */
  ghost predicate BucketsOk(E: seq<LruEntry>, D: seq<Block>, lists: seq<seq<nat>>, window: nat,
                            hash: (Word, Word) -> nat)
    requires |D| == |E|
  {
    forall h :: 0 <= h < |lists| ==> BucketOk(E, D, lists[h], h, window, hash)
  }

  ghost predicate BucketOk(E: seq<LruEntry>, D: seq<Block>, list: seq<nat>, h: nat, window: nat,
                           hash: (Word, Word) -> nat)
    requires |D| == |E|
  {
    && InArray(list, |E|)
    && |list| <= window
    && DistinctKeys(BucketOf(E, D, list))
    && forall i :: 0 <= i < |list| ==> hash(E[list[i]].source, E[list[i]].blkno) == h
  }

  lemma {:induction false} WindowsFit(slots: nat, heads: nat)
    requires 1 <= heads
    ensures Div(slots, heads) * heads <= slots
  {
    DivModAgree(slots, heads);
  }

  lemma {:induction false} TotalBound(lists: seq<seq<nat>>, window: nat)
    requires forall h :: 0 <= h < |lists| ==> |lists[h]| <= window
    ensures TotalLength(lists) <= |lists| * window
  {
    if lists != [] {
      TotalBound(Front(lists), window);
      assert |lists| * window == |Front(lists)| * window + window;
    }
  }

  /** With one bucket below its window the lists together are short of the number of entries. */
  lemma {:induction false} TotalBelow(lists: seq<seq<nat>>, window: nat, h: nat)
    requires forall g :: 0 <= g < |lists| ==> |lists[g]| <= window
    requires h < |lists| && |lists[h]| < window
    ensures TotalLength(lists) < |lists| * window
  {
    assert |lists| * window == |Front(lists)| * window + window;
    if h == |lists| - 1 {
      TotalBound(Front(lists), window);
    } else {
      TotalBelow(Front(lists), window, h);
    }
  }

  /**
   Free entries and bucket entries are all the entries; so while a bucket is below its window there is a
   free entry.
   */
  lemma SlotConservation(free: seq<nat>, lists: seq<seq<nat>>, slots: nat, window: nat, h: nat)
    requires Partition(free, lists, slots) && |lists| > 0 && window == Div(slots, |lists|)
    requires forall g :: 0 <= g < |lists| ==> |lists[g]| <= window
    requires h < |lists|
    ensures |free| + TotalLength(lists) == slots
    ensures |lists[h]| < window ==> free != []
  {
    PartitionExact(free, lists, slots);
    WindowsFit(slots, |lists|);
    if |lists[h]| < window {
      TotalBelow(lists, window, h);
    }
  }

  /** The entry numbers, highest first: the order the constructor frees them in. */
  function Descending(n: nat): seq<nat> {
    seq(n, i requires 0 <= i < n => n - 1 - i)
  }

  lemma DescendingFacts(n: nat)
    ensures NoDup(Descending(n)) && forall x :: x in Descending(n) <==> 0 <= x < n
  {
    forall x | 0 <= x < n ensures x in Descending(n) {
      assert Descending(n)[n - 1 - x] == x;
    }
  }

  lemma EmptyCacheOk(E: seq<LruEntry>, T: seq<LruList>, D: seq<Block>, freeList: LruList, free: seq<nat>,
                     lists: seq<seq<nat>>, window: nat, hash: (Word, Word) -> nat)
    requires |E| == |D| <= INVALID_BLOCKNO && |T| == |lists| && FreeChained(E, freeList, free)
    requires NoDup(free) && forall x :: x in free <==> 0 <= x < |E|
    requires forall h :: 0 <= h < |lists| ==> lists[h] == [] && T[h] == LruList(INVALID_BLOCKNO, INVALID_BLOCKNO, 0)
    ensures LinksOk(E, T, freeList, free, lists) && BucketsOk(E, D, lists, window, hash)
  {
  }

  /** The events of a history that concern bucket `h`. */
  ghost function Concerning(h: nat, hash: (Word, Word) -> nat, events: seq<Event>): seq<Event> {
    if events == [] then []
    else
      Concerning(h, hash, Front(events)) +
      (if hash(Last(events).key.vtxno, Last(events).key.blkno) == h then [Last(events)] else [])
  }

  lemma ReplayNothing(h: nat, hash: (Word, Word) -> nat, window: nat)
    requires 0 < window
    ensures Replay(window, Concerning(h, hash, [])) == []
  {
  }

  /** One more event changes only its own bucket's history. */
  lemma ReplayOneMore(h: nat, hash: (Word, Word) -> nat, window: nat, events: seq<Event>, e: Event)
    requires 0 < window
    ensures Replay(window, Concerning(h, hash, events + [e])) ==
      if hash(e.key.vtxno, e.key.blkno) == h then Apply(Replay(window, Concerning(h, hash, events)), window, e)
      else Replay(window, Concerning(h, hash, events))
  {
    assert Front(events + [e]) == events;
    var c := Concerning(h, hash, events);
    assert Front(c + [e]) == c;
    assert c + [] == c;
  }

  /** The keys of bucket `h` that were touched, in order: a write touches its key, and a read does when it hit. */
  ghost function TouchedIn(h: nat, hash: (Word, Word) -> nat, events: seq<Event>, replies: seq<Lookup>): seq<Key>
    requires |events| <= |replies|
  {
    if events == [] then []
    else
      var key := Last(events).key;
      TouchedIn(h, hash, Front(events), replies) +
      (if hash(key.vtxno, key.blkno) == h && (Last(events).Writing? || replies[|events| - 1].Hit?) then [key] else [])
  }

  /** Each read returned what its bucket then held. */
  ghost predicate RepliesRight(window: nat, hash: (Word, Word) -> nat, events: seq<Event>, replies: seq<Lookup>)
    requires 0 < window
  {
    && |replies| == |events|
    && forall i :: 0 <= i < |events| && events[i].Reading? ==>
         var key := events[i].key;
         replies[i] == Found(Replay(window, Concerning(hash(key.vtxno, key.blkno), hash, events[..i])), key)
  }

  lemma {:induction false} TouchesMatch(h: nat, window: nat, hash: (Word, Word) -> nat, events: seq<Event>,
                                        replies: seq<Lookup>, n: nat)
    requires 0 < window && RepliesRight(window, hash, events, replies) && n <= |events|
    ensures TouchedIn(h, hash, events[..n], replies[..n]) == Touches(window, Concerning(h, hash, events[..n]))
  {
    hide Found, Replay;
    if n > 0 {
      var e, before := events[n - 1], events[..n - 1];
      TouchesMatch(h, window, hash, events, replies, n - 1);
      assert Front(events[..n]) == before && Last(events[..n]) == e;
      SameReplies(h, hash, before, replies[..n - 1], replies[..n]);
      var c := Concerning(h, hash, before);
      if hash(e.key.vtxno, e.key.blkno) == h {
        assert Front(c + [e]) == c && Last(c + [e]) == e;
      } else {
        assert c + [] == c;
      }
    }
  }

  /** What was touched depends on no later reply. */
  lemma {:induction false} SameReplies(h: nat, hash: (Word, Word) -> nat, events: seq<Event>, replies: seq<Lookup>,
                                       replies': seq<Lookup>)
    requires |events| <= |replies| && replies <= replies'
    ensures TouchedIn(h, hash, events, replies) == TouchedIn(h, hash, events, replies')
  {
    if events != [] {
      SameReplies(h, hash, Front(events), replies, replies');
    }
  }

  lemma {:induction false} LatestConcerns(h: nat, hash: (Word, Word) -> nat, events: seq<Event>, k: Key)
    requires hash(k.vtxno, k.blkno) == h
    ensures LatestWrite(Concerning(h, hash, events), k) == LatestWrite(events, k)
  {
    if events != [] {
      LatestConcerns(h, hash, Front(events), k);
      var c, e := Concerning(h, hash, Front(events)), Last(events);
      if hash(e.key.vtxno, e.key.blkno) == h {
        assert Front(c + [e]) == c && Last(c + [e]) == e;
      } else {
        assert c + [] == c;
      }
    }
  }

  /** The window is the number of slots a bucket is entitled to. */
  lemma WindowCounts(slots: nat, heads: nat, n: nat)
    requires 1 <= heads
    ensures Div(slots, heads) * heads <= slots < (Div(slots, heads) + 1) * heads
    ensures n < Div(slots, heads) <==> (n + 1) * heads <= slots
  {
    var w := Div(slots, heads);
    DivModAgree(slots, heads);
    MulGap(w - (n + 1), heads);
    MulGap(n + 1 - w, heads);
    assert (w - (n + 1)) * heads == w * heads - (n + 1) * heads;
    assert (n + 1 - w) * heads == (n + 1) * heads - w * heads;
    assert (w + 1) * heads == w * heads + heads;
  }

  /**
   Read `i` of a history, by what the caller saw: it hits exactly when its block was touched and the other blocks of
   its bucket touched since leave it a slot of the bucket's share, and then it returns what was last written.
   */
  ghost predicate HitsAsTouched(slots: nat, heads: nat, hash: (Word, Word) -> nat, events: seq<Event>,
                                replies: seq<Lookup>, i: nat)
    requires i < |events| == |replies|
  {
    var k := events[i].key;
    var t := TouchedIn(hash(k.vtxno, k.blkno), hash, events[..i], replies[..i]);
    && (replies[i].Hit? <==> k in t && (|OthersSince(t, k)| + 1) * heads <= slots)
    && (replies[i].Hit? ==> replies[i] == LatestWrite(events[..i], k))
  }

  lemma ReadsHit(slots: nat, heads: nat, hash: (Word, Word) -> nat, events: seq<Event>, replies: seq<Lookup>, i: nat)
    requires 1 <= heads && 1 <= Div(slots, heads) && RepliesRight(Div(slots, heads), hash, events, replies)
    requires i < |events| && events[i].Reading?
    ensures |replies| == |events| && HitsAsTouched(slots, heads, hash, events, replies, i)
  {
    var window, k := Div(slots, heads), events[i].key;
    var h := hash(k.vtxno, k.blkno);
    TouchesMatch(h, window, hash, events, replies, i);
    SurvivesIff(window, Concerning(h, hash, events[..i]), k);
    WindowCounts(slots, heads, |OthersSince(Touches(window, Concerning(h, hash, events[..i])), k)|);
    LatestConcerns(h, hash, events[..i], k);
    hide Found, Replay, Concerning, Touches, TouchedIn, LatestWrite, OthersSince;
    if replies[i].Hit? {
      HitsAreLatest(window, Concerning(h, hash, events[..i]), k);
    }
  }

  class Cache {
    const slots: nat
    const heads: nat
    const hash: (Word, Word) -> nat
    const entries: array<LruEntry>
    const table: array<LruList>
    const data: array<Block>
    var freeList: LruList
    ghost var free: seq<nat>
    ghost var lists: seq<seq<nat>>

    /** LRU_WINDOW_SIZE. */
    function Window(): nat
      requires 1 <= heads
    {
      Div(slots, heads)
    }

    /** It is as many entries as every bucket can have at once. */
    lemma WindowIsShare()
      requires 1 <= heads
      ensures Window() * heads <= slots < (Window() + 1) * heads
    {
      WindowCounts(slots, heads, 0);
    }

    constructor (slots: nat, heads: nat, hash: (Word, Word) -> nat)
      requires 1 <= heads && 1 <= Div(slots, heads) && slots <= INVALID_BLOCKNO
      requires forall v, b :: hash(v, b) < heads
      ensures Valid() && this.slots == slots && this.heads == heads && this.hash == hash
      ensures forall h :: 0 <= h < heads ==> BucketAt(h) == []
      ensures fresh(entries) && fresh(table) && fresh(data)
    {
      this.slots := slots;
      this.heads := heads;
      this.hash := hash;
      entries := new LruEntry[slots](_ => LruEntry(INVALID_BLOCKNO, INVALID_BLOCKNO, INVALID_BLOCKNO, INVALID_BLOCKNO));
      table := new LruList[heads](_ => LruList(INVALID_BLOCKNO, INVALID_BLOCKNO, 0));
      data := new Block[slots](_ => []);
      freeList := LruList(INVALID_BLOCKNO, INVALID_BLOCKNO, 0);
      free := [];
      lists := seq(heads, _ => []);
      new;
      BuildFreeList();
      BuildTable();
      DescendingFacts(slots);
      EmptyCacheOk(entries[..], table[..], data[..], freeList, free, lists, Window(), hash);
    }

    /** Every bucket starts empty. */
    method BuildTable()
      requires table.Length == heads
      modifies table
      ensures forall h :: 0 <= h < heads ==> table[h] == LruList(INVALID_BLOCKNO, INVALID_BLOCKNO, 0)
    {
      var h := 0;
      while h < heads
        invariant 0 <= h <= heads
        invariant forall g :: 0 <= g < h ==> table[g] == LruList(INVALID_BLOCKNO, INVALID_BLOCKNO, 0)
      {
        table[h] := LruList(INVALID_BLOCKNO, INVALID_BLOCKNO, 0);
        h := h + 1;
      }
    }

    /** Every entry is put on the free list, the last one first. */
    method BuildFreeList()
      requires entries.Length == slots <= INVALID_BLOCKNO
      requires free == [] && freeList == LruList(INVALID_BLOCKNO, INVALID_BLOCKNO, 0)
      modifies entries, `freeList, `free
      ensures FreeChained(entries[..], freeList, free) && free == Descending(slots)
    {
      ghost var d := Descending(slots);
      assert |d| == slots && forall j :: 0 <= j < slots ==> d[j] == slots - 1 - j;
      hide Descending;
      var i := 0;
      while i < slots
        invariant 0 <= i <= slots
        invariant free == d[..i]
        invariant freeList.next == TailOf(free) && freeList.num == i
        invariant forall j :: 0 <= j < i ==>
          free[j] < slots && entries[free[j]].next == Before(free, j, INVALID_BLOCKNO)
      {
        var k := slots - 1 - i;
        entries[k] := entries[k].(next := freeList.next);
        freeList := freeList.(next := k as Word);
        freeList := freeList.(num := freeList.num + 1);
        entries[k] := entries[k].(source := INVALID_BLOCKNO);
        entries[k] := entries[k].(blkno := INVALID_BLOCKNO);
        entries[k] := entries[k].(prev := INVALID_BLOCKNO);
        free := free + [k];
        assert d[..i + 1] == d[..i] + [k];
        i := i + 1;
      }
      assert d[..slots] == d;
    }

    /** Sizes and parameters. */
    ghost predicate Shape()
      reads this
    {
      && 1 <= heads && 1 <= Window() && slots <= INVALID_BLOCKNO
      && (forall v, b :: hash(v, b) < heads)
      && entries.Length == slots == data.Length && table.Length == heads == |lists|
    }

    ghost predicate Valid()
      reads this, entries, table, data
    {
      && Shape()
      && LinksOk(entries[..], table[..], freeList, free, lists)
      && BucketsOk(entries[..], data[..], lists, Window(), hash)
    }

    ghost function BucketAt(h: nat): Bucket
      requires Valid() && h < heads
      reads this, entries, table, data
    {
      assert BucketOk(entries[..], data[..], lists[h], h, Window(), hash);
      BucketOf(entries[..], data[..], lists[h])
    }

    lemma KeysDistinct(h: nat)
      requires Valid() && h < heads
      ensures DistinctKeys(BucketAt(h)) && |BucketAt(h)| <= Window()
    {
      assert BucketOk(entries[..], data[..], lists[h], h, Window(), hash);
    }

    /** `find`: the entry of a key in a bucket, or none. */
    method Find(h: nat, vtxno: Word, blkno: Word) returns (curr: Word)
      requires Valid() && h < heads
      ensures var p := Position(BucketAt(h), Key(vtxno, blkno));
              curr as nat == if p < |lists[h]| then lists[h][p] else INVALID_BLOCKNO
    {
      ghost var E, list, b, key := entries[..], lists[h], BucketAt(h), Key(vtxno, blkno);
      curr := table[h].next;
      ghost var i := 0;
      assert Chained(E, table[h], list) && InArray(list, |E|);
      hide LinksOk, BucketsOk, Position;
      while curr != INVALID_BLOCKNO && !(entries[curr].source == vtxno && entries[curr].blkno == blkno)
        invariant 0 <= i <= |list|
        invariant curr as nat == if i < |list| then list[i] else INVALID_BLOCKNO
        invariant curr != INVALID_BLOCKNO ==> i < |list| && curr as int < |E|
        invariant forall j :: 0 <= j < i ==> b[j].key != key
        decreases |list| - i
      {
        assert LinkAt(E, list, i);
        assert b[i].key == Key(E[list[i]].source, E[list[i]].blkno);
        assert i + 1 < |list| ==> LinkAt(E, list, i + 1);
        curr := entries[curr].next;
        i := i + 1;
      }
      assert i < |list| ==> LinkAt(E, list, i) && b[i].key == key;
      PositionAt(b, key, i);
    }

    /** `read`: a hit moves the block to the front of its bucket; other buckets are untouched. */
    method Read(vtxno: Word, blkno: Word) returns (r: Lookup)
      requires Valid()
      modifies entries, table, `lists
      ensures Valid()
      ensures var h, key := hash(vtxno, blkno), Key(vtxno, blkno);
              && r == Found(old(BucketAt(hash(vtxno, blkno))), key)
              && BucketAt(h) == AfterRead(old(BucketAt(hash(vtxno, blkno))), key)
      ensures forall g :: 0 <= g < heads && g != hash(vtxno, blkno) ==> BucketAt(g) == old(BucketAt(g))
    {
      var h := hash(vtxno, blkno);
      ghost var E, D, ls, b := entries[..], data[..], lists, BucketAt(h);
      ghost var p := Position(b, Key(vtxno, blkno));
      var curr := Find(h, vtxno, blkno);
      EntryOf(E, D, ls, h, p, Window(), hash);
      if curr == INVALID_BLOCKNO {
        return Miss;
      }
      hide LinksOk;
      MoveFront(h, curr, p);
      MovedBuckets(E, entries[..], D, ls, h, p, Window(), hash);
      return Hit(data[curr]);
    }

    /**
     Any history of reads and writes on a new cache: each bucket is what its own events make of it, and each
     read returned what its bucket then held.
     */
    method Serve(events: seq<Event>) returns (replies: seq<Lookup>)
      requires Valid() && forall h :: 0 <= h < heads ==> BucketAt(h) == []
      modifies entries, table, data, `freeList, `free, `lists
      ensures Valid()
      ensures forall h :: 0 <= h < heads ==> BucketAt(h) == Replay(Window(), Concerning(h, hash, events))
      ensures |replies| == |events|
      ensures forall i :: 0 <= i < |events| && events[i].Reading? ==>
        var key := events[i].key;
        replies[i] == Found(Replay(Window(), Concerning(hash(key.vtxno, key.blkno), hash, events[..i])), key)
      ensures forall i :: 0 <= i < |events| && events[i].Reading? ==>
        HitsAsTouched(slots, heads, hash, events, replies, i)
    {
      hide LinksOk, BucketsOk, Apply, Found, Replay, Concerning;
      replies := [];
      forall h | 0 <= h < heads ensures Replay(Window(), Concerning(h, hash, [])) == [] {
        ReplayNothing(h, hash, Window());
      }
      assert events[..0] == [];
      while |replies| < |events|
        invariant Valid() && |replies| <= |events|
        invariant forall h :: 0 <= h < heads ==>
          BucketAt(h) == Replay(Window(), Concerning(h, hash, events[..|replies|]))
        invariant forall i :: 0 <= i < |replies| && events[i].Reading? ==>
          var key := events[i].key;
          replies[i] == Found(Replay(Window(), Concerning(hash(key.vtxno, key.blkno), hash, events[..i])), key)
      {
        var e := events[|replies|];
        ghost var done := events[..|replies|];
        assert events[..|replies| + 1] == done + [e];
        forall h | 0 <= h < heads
          ensures Replay(Window(), Concerning(h, hash, done + [e])) ==
            if hash(e.key.vtxno, e.key.blkno) == h then Apply(Replay(Window(), Concerning(h, hash, done)), Window(), e)
            else Replay(Window(), Concerning(h, hash, done))
        {
          ReplayOneMore(h, hash, Window(), done, e);
        }
        var r := ServeOne(e);
        replies := replies + [r];
      }
      assert events[..|events|] == events;
      assert RepliesRight(Window(), hash, events, replies);
      hide RepliesRight, HitsAsTouched;
      forall i | 0 <= i < |events| && events[i].Reading? ensures HitsAsTouched(slots, heads, hash, events, replies, i) {
        ReadsHit(slots, heads, hash, events, replies, i);
      }
    }

    /** `write`: replaces and moves to the front, admits below the window, or evicts the last block at it. */
    method Write(vtxno: Word, blkno: Word, blk: Block)
      requires Valid()
      modifies entries, table, data, `freeList, `free, `lists
      ensures Valid()
      ensures var h, key := hash(vtxno, blkno), Key(vtxno, blkno);
              BucketAt(h) == AfterWrite(old(BucketAt(hash(vtxno, blkno))), Window(), key, blk)
      ensures forall g :: 0 <= g < heads && g != hash(vtxno, blkno) ==> BucketAt(g) == old(BucketAt(g))
    {
      hide LinksOk, BucketsOk, Position, AfterWrite, Remaining;
      var h := hash(vtxno, blkno);
      ghost var E, D, ls := entries[..], data[..], lists;
      EntryOf(E, D, ls, h, 0, Window(), hash);
      var curr := Place(h, vtxno, blkno);
      ghost var E1 := entries[..];
      entries[curr] := entries[curr].(source := vtxno);
      entries[curr] := entries[curr].(blkno := blkno);
      data[curr] := blk;
      Rekeyed(E1, entries[..], table[..], freeList, free, lists);
      WrittenBuckets(E, entries[..], D, data[..], ls, h, curr, Key(vtxno, blkno), blk, Window(), hash);
    }

    /** One read or write. */
    method ServeOne(e: Event) returns (r: Lookup)
      requires Valid()
      modifies entries, table, data, `freeList, `free, `lists
      ensures Valid()
      ensures forall h :: 0 <= h < heads ==>
        BucketAt(h) ==
          if hash(e.key.vtxno, e.key.blkno) == h then Apply(old(BucketAt(h)), Window(), e) else old(BucketAt(h))
      ensures e.Reading? ==> r == Found(old(BucketAt(hash(e.key.vtxno, e.key.blkno))), e.key)
    {
      hide LinksOk, BucketsOk, AfterRead, AfterWrite, Found;
      r := Miss;
      match e {
        case Reading(key) => r := Read(key.vtxno, key.blkno);
        case Writing(key, blk) => Write(key.vtxno, key.blkno, blk);
      }
    }

    /** The entry that will hold the block is put first in its bucket: the one that does, a free one, or the last. */
    method Place(h: nat, vtxno: Word, blkno: Word) returns (curr: Word)
      requires Valid() && h < heads
      modifies entries, table, `freeList, `free, `lists
      ensures Shape() && LinksOk(entries[..], table[..], freeList, free, lists)
      ensures InArray(old(lists)[h], slots) && |old(lists)[h]| <= Window() && curr as int < slots
      ensures var rest := Remaining(old(lists)[h], Position(old(BucketAt(h)), Key(vtxno, blkno)), Window());
              && lists == old(lists)[h := [curr as nat] + rest]
              && curr as nat !in rest
      ensures forall g :: 0 <= g < heads && g != h ==> curr as nat !in old(lists)[g]
      ensures SameKeys(old(entries[..]), entries[..])
    {
      hide LinksOk, BucketsOk, Position;
      ghost var E, D, ls, p := entries[..], data[..], lists, Position(BucketAt(h), Key(vtxno, blkno));
      curr := Find(h, vtxno, blkno);
      EntryOf(E, D, ls, h, p, Window(), hash);
      TableNum(E, table[..], freeList, free, ls, h);
      if curr == INVALID_BLOCKNO {
        if table[h].num < Window() {
          curr := Admit(h);
        } else {
          EntryOf(E, D, ls, h, |ls[h]| - 1, Window(), hash);
          curr := table[h].prev;
          MoveFront(h, curr, |ls[h]| - 1);
        }
      } else {
        MoveFront(h, curr, p);
      }
      OnlyIn(entries[..], table[..], freeList, free, lists, h);
      forall g | 0 <= g < heads && g != h ensures curr as nat !in ls[g] {
        assert lists[g] == ls[g];
      }
    }

    /** `move_front`: the entry becomes the first of its bucket; nothing but links changes. */
    method MoveFront(h: nat, e: Word, ghost k: nat)
      requires Valid() && h < heads && k < |lists[h]| && lists[h][k] == e as nat
      modifies entries, table, `lists
      ensures Shape() && LinksOk(entries[..], table[..], freeList, free, lists)
      ensures lists == old(lists)[h := [e as nat] + Delete(old(lists)[h], k)]
      ensures SameKeys(old(entries[..]), entries[..])
    {
      hide LinksOk, BucketsOk;
      ghost var E, T, list := entries[..], table[..], lists[h];
      MoveFacts(E, T, freeList, free, lists, h, k);
      if table[h].next != e {
        MoveOk(E, T, freeList, free, lists, h, k);
        Relink(h, e);
      }
      lists := lists[h := [e as nat] + Delete(list, k)];
    }

    /** The link writes of `move_front` for an entry that is not first. */
    method Relink(h: nat, e: Word)
      requires entries.Length <= INVALID_BLOCKNO && h < table.Length && e as int < entries.Length
      requires entries[e].prev as int < entries.Length && entries[e].prev != e
      requires entries[e].next != INVALID_BLOCKNO ==> entries[e].next as int < entries.Length && entries[e].next != e
      requires table[h].num > 0 && (entries[e].next == INVALID_BLOCKNO ==> table[h].prev == e)
      requires table[h].next as int < entries.Length && table[h].next != e
      modifies entries, table
      ensures entries[..] == PushLinks(CutLinks(old(entries[..]), e), CutHead(old(entries[..]), old(table[h]), e), e)
      ensures table[..] == old(table[..])[h := PushHead(CutHead(old(entries[..]), old(table[h]), e), e)]
    {
      Unlink(h, e);
      // insert the entry at the head
      entries[e] := entries[e].(prev := INVALID_BLOCKNO);
      entries[e] := entries[e].(next := table[h].next);
      entries[table[h].next] := entries[table[h].next].(prev := e);
      table[h] := table[h].(next := e);
    }

    /** `popFreeEntry`. */
    method PopFreeEntry() returns (curr: Word)
      requires freeList.next as int < entries.Length && freeList.num > 0
      modifies `freeList
      ensures curr == old(freeList).next
      ensures freeList == old(freeList).(next := entries[curr].next, num := old(freeList).num - 1)
    {
      curr := freeList.next;
      freeList := freeList.(next := entries[curr].next);
      freeList := freeList.(num := freeList.num - 1);
    }

    /** `push_front`. */
    method PushFront(h: nat, e: Word)
      requires h < table.Length && e as int < entries.Length && e != INVALID_BLOCKNO
      requires table[h].next != INVALID_BLOCKNO ==> table[h].next as int < entries.Length
      modifies entries, table
      ensures entries[..] == PushLinks(old(entries[..]), old(table[h]), e)
      ensures table[..] == old(table[..])[h := PushHead(old(table[h]), e)]
    {
      entries[e] := entries[e].(next := table[h].next);
      table[h] := table[h].(next := e);
      if entries[e].next != INVALID_BLOCKNO {
        entries[entries[e].next] := entries[entries[e].next].(prev := e);
      } else {
        table[h] := table[h].(prev := e);
      }
      entries[e] := entries[e].(prev := INVALID_BLOCKNO);
      table[h] := table[h].(num := table[h].num + 1);
    }

    /** Takes an entry off the free list into a bucket below its window. */
    method Admit(h: nat) returns (curr: Word)
      requires Valid() && h < heads && |lists[h]| < Window()
      modifies entries, table, `freeList, `free, `lists
      ensures Shape() && LinksOk(entries[..], table[..], freeList, free, lists)
      ensures lists == old(lists)[h := [curr as nat] + old(lists)[h]]
      ensures curr as int < slots && forall g :: 0 <= g < |lists| ==> curr as nat !in old(lists)[g]
      ensures SameKeys(old(entries[..]), entries[..])
    {
      ghost var E, T, fl := entries[..], table[..], freeList;
      FreeLeft(E, data[..], T, fl, free, lists, h, Window(), hash);
      AdmitOk(E, T, fl, free, lists, h);
      hide LinksOk, BucketsOk;
      curr := PopFreeEntry();
      PushFront(h, curr);
      lists := lists[h := [curr as nat] + lists[h]];
      free := Front(free);
    }

    /** The removal half of `move_front`. */
    method Unlink(h: nat, e: Word)
      requires entries.Length <= INVALID_BLOCKNO && h < table.Length && e as int < entries.Length
      requires entries[e].prev as int < entries.Length && entries[e].prev != e
      requires entries[e].next != INVALID_BLOCKNO ==> entries[e].next as int < entries.Length && entries[e].next != e
      requires table[h].num > 0 && (entries[e].next == INVALID_BLOCKNO ==> table[h].prev == e)
      modifies entries, table
      ensures entries[..] == CutLinks(old(entries[..]), e)
      ensures table[..] == old(table[..])[h := CutHead(old(entries[..]), old(table[h]), e).(num := old(table[h].num))]
    {
      entries[entries[e].prev] := entries[entries[e].prev].(next := entries[e].next);
      if entries[e].next != INVALID_BLOCKNO {
        entries[entries[e].next] := entries[entries[e].next].(prev := entries[e].prev);
      } else {
        table[h] := table[h].(prev := entries[e].prev);
        entries[table[h].prev] := entries[table[h].prev].(next := INVALID_BLOCKNO);
      }
    }
  }

  lemma ListApart(free: seq<nat>, lists: seq<seq<nat>>, n: nat, h: nat)
    requires Partition(free, lists, n) && h < |lists|
    ensures NoDup(lists[h]) && InArray(lists[h], n)
  {
    assert forall i :: 0 <= i < |lists[h]| ==> lists[h][i] in lists[h];
  }

  lemma MovedMembers(list: seq<nat>, k: nat)
    requires NoDup(list) && k < |list|
    ensures NoDup(Delete(list, k)) && list[k] !in Delete(list, k)
    ensures NoDup([list[k]] + Delete(list, k))
    ensures forall x :: x in [list[k]] + Delete(list, k) <==> x in list
  {
    DeleteMembers(list, k);
    assert list[k] in list;
    NoDupAppend([list[k]], Delete(list, k));
  }

  lemma SameLinksTrans(E: seq<LruEntry>, E1: seq<LruEntry>, E2: seq<LruEntry>, t1: seq<nat>, t2: seq<nat>)
    requires SameLinks(E, E1, t1) && SameLinks(E1, E2, t2) && SameKeys(E, E1) && SameKeys(E1, E2)
    requires forall x :: x in t1 ==> x in t2
    ensures SameLinks(E, E2, t2) && SameKeys(E, E2)
  {
  }

  /** What `move_front` finds at position `k`. */
  lemma MoveFacts(E: seq<LruEntry>, T: seq<LruList>, freeList: LruList, free: seq<nat>,
                  lists: seq<seq<nat>>, h: nat, k: nat)
    requires LinksOk(E, T, freeList, free, lists) && h < |lists| && k < |lists[h]|
    ensures |T| == |lists| && |E| <= INVALID_BLOCKNO
    ensures EntryFacts(E, T[h], lists[h], k)
    ensures k == 0 ==> lists[h := [lists[h][k]] + Delete(lists[h], k)] == lists
  {
    var list := lists[h];
    ListApart(free, lists, |E|, h);
    assert Chained(E, T[h], list);
    hide Partition, FreeChained;
    ChainedFacts(E, T[h], list, k);
    if k == 0 {
      assert [list[0]] + Delete(list, 0) == list;
    }
  }

  ghost predicate EntryFacts(E: seq<LruEntry>, head: LruList, list: seq<nat>, k: nat)
    requires k < |list|
  {
    var e := list[k];
    && e < |E| && head.num > 0 && head.next as int < |E|
    && (head.next == e <==> k == 0)
    && (k > 0 ==> E[e].prev as int < |E| && E[e].prev != e)
    && (E[e].next != INVALID_BLOCKNO ==> E[e].next as int < |E| && E[e].next != e)
    && (E[e].next == INVALID_BLOCKNO ==> head.prev == e)
  }

  lemma ChainedFacts(E: seq<LruEntry>, head: LruList, list: seq<nat>, k: nat)
    requires Chained(E, head, list) && NoDup(list) && k < |list| && |E| <= INVALID_BLOCKNO
    ensures EntryFacts(E, head, list, k)
  {
    assert LinkAt(E, list, k) && LinkAt(E, list, 0);
    assert k > 0 ==> LinkAt(E, list, k - 1);
    assert k + 1 < |list| ==> LinkAt(E, list, k + 1);
  }

  /** Cutting an entry out and pushing it in front is a rearrangement of its bucket. */
  lemma MoveOk(E: seq<LruEntry>, T: seq<LruList>, freeList: LruList, free: seq<nat>,
               lists: seq<seq<nat>>, h: nat, k: nat)
    requires LinksOk(E, T, freeList, free, lists) && h < |lists| && 0 < k < |lists[h]|
    ensures |T| == |lists|
    ensures var e := lists[h][k];
            && e < |E| && e < 0x1_0000_0000 && E[e].prev as int < |E|
            && (E[e].next != INVALID_BLOCKNO ==> E[e].next as int < |E|)
            && var hd1 := CutHead(E, T[h], e);
            && (hd1.next != INVALID_BLOCKNO ==> hd1.next as int < |CutLinks(E, e)|)
            && |CutLinks(E, e)| == |E|
            && LinksOk(PushLinks(CutLinks(E, e), hd1, e), T[h := PushHead(hd1, e)], freeList, free,
                       lists[h := [e] + Delete(lists[h], k)])
            && SameKeys(E, PushLinks(CutLinks(E, e), hd1, e))
  {
    var list := lists[h];
    ListApart(free, lists, |E|, h);
    assert Chained(E, T[h], list);
    hide Partition, FreeChained, NoDup, Chained, SameLinks;
    CutOk(E, T[h], list, k);
    MovedMembers(list, k);
    var e: Word := list[k];
    var E1, hd1 := CutLinks(E, e), CutHead(E, T[h], e);
    PushOk(E1, hd1, Delete(list, k), e);
    SameLinksTrans(E, E1, PushLinks(E1, hd1, e), Delete(list, k), [e as nat] + Delete(list, k));
    RearrangedOk(E, PushLinks(E1, hd1, e), T, freeList, free, lists, h, PushHead(hd1, e), [e as nat] + Delete(list, k));
  }

  /** Below the window there is a free entry, as the assertion in `write` claims. */
  lemma FreeLeft(E: seq<LruEntry>, D: seq<Block>, T: seq<LruList>, freeList: LruList, free: seq<nat>,
                 lists: seq<seq<nat>>,
                 h: nat, window: nat, hash: (Word, Word) -> nat)
    requires LinksOk(E, T, freeList, free, lists) && |D| == |E| && BucketsOk(E, D, lists, window, hash)
    requires h < |lists| && window == Div(|E|, |lists|) && |lists[h]| < window
    ensures free != []
  {
    forall g | 0 <= g < |lists| ensures |lists[g]| <= window {
      assert BucketOk(E, D, lists[g], g, window, hash);
    }
    SlotConservation(free, lists, |E|, window, h);
  }

  lemma AdmitOk(E: seq<LruEntry>, T: seq<LruList>, freeList: LruList, free: seq<nat>, lists: seq<seq<nat>>, h: nat)
    requires LinksOk(E, T, freeList, free, lists) && h < |lists| && free != []
    ensures |T| == |lists| && freeList.next == Last(free) && freeList.next as int < |E| && freeList.num > 0
    ensures freeList.next != INVALID_BLOCKNO
    ensures T[h].next != INVALID_BLOCKNO ==> T[h].next as int < |E|
    ensures forall g :: 0 <= g < |lists| ==> Last(free) !in lists[g]
    ensures var e := freeList.next;
            LinksOk(PushLinks(E, T[h], e), T[h := PushHead(T[h], e)],
                    freeList.(next := E[e].next, num := freeList.num - 1),
                    Front(free), lists[h := [e as nat] + lists[h]])
            && SameKeys(E, PushLinks(E, T[h], e))
  {
    var e := freeList.next;
    ListApart(free, lists, |E|, h);
    assert free[|free| - 1] in free;
    assert Chained(E, T[h], lists[h]);
    PushOk(E, T[h], lists[h], e);
    AdmittedOk(E, PushLinks(E, T[h], e), T, freeList, freeList.(next := E[e].next, num := freeList.num - 1),
               free, lists, h, PushHead(T[h], e));
  }

  /** The entry at the position of a key. */
  lemma EntryOf(E: seq<LruEntry>, D: seq<Block>, lists: seq<seq<nat>>, h: nat, p: nat, window: nat,
                hash: (Word, Word) -> nat)
    requires |D| == |E| <= INVALID_BLOCKNO && BucketsOk(E, D, lists, window, hash) && h < |lists|
    ensures InArray(lists[h], |E|) && |lists[h]| <= window
    ensures p < |lists[h]| ==> lists[h][p] < |E| < 0x1_0000_0000 && lists[h][p] != INVALID_BLOCKNO as nat
  {
    assert BucketOk(E, D, lists[h], h, window, hash);
  }

  /** The list head's counter and tail. */
  lemma TableNum(E: seq<LruEntry>, T: seq<LruList>, freeList: LruList, free: seq<nat>, lists: seq<seq<nat>>, h: nat)
    requires LinksOk(E, T, freeList, free, lists) && h < |lists|
    ensures |T| == |lists| && T[h].num == |lists[h]|
    ensures lists[h] != [] ==> T[h].prev == lists[h][|lists[h]| - 1]
  {
    assert Chained(E, T[h], lists[h]);
  }

  /** Keys and data may change without disturbing links. */
  lemma Rekeyed(E: seq<LruEntry>, E': seq<LruEntry>, T: seq<LruList>, freeList: LruList, free: seq<nat>,
                lists: seq<seq<nat>>)
    requires LinksOk(E, T, freeList, free, lists) && SameLinks(E, E', [])
    ensures LinksOk(E', T, freeList, free, lists)
  {
    forall h | 0 <= h < |lists| ensures Chained(E', T[h], lists[h]) {
      ChainedFrame(E, E', T[h], lists[h], []);
    }
    FreeFrame(E, E', freeList, free, []);
  }

  lemma SameBucket(E: seq<LruEntry>, E': seq<LruEntry>, D: seq<Block>, D': seq<Block>, list: seq<nat>)
    requires |D| == |E| == |E'| == |D'| && InArray(list, |E|)
    requires forall i :: 0 <= i < |list| ==>
      E'[list[i]].source == E[list[i]].source && E'[list[i]].blkno == E[list[i]].blkno && D'[list[i]] == D[list[i]]
    ensures BucketOf(E', D', list) == BucketOf(E, D, list)
  {
  }

  /** A hit: the bucket's list is rotated, so its items are. */
  lemma MovedBuckets(E: seq<LruEntry>, E': seq<LruEntry>, D: seq<Block>, lists: seq<seq<nat>>, h: nat, k: nat,
                     window: nat, hash: (Word, Word) -> nat)
    requires |D| == |E| && BucketsOk(E, D, lists, window, hash) && SameKeys(E, E')
    requires h < |lists| && k < |lists[h]|
    ensures var lists' := lists[h := [lists[h][k]] + Delete(lists[h], k)];
            && BucketsOk(E', D, lists', window, hash)
            && (forall g :: 0 <= g < |lists| ==> InArray(lists[g], |E|) && InArray(lists'[g], |E|))
            && (forall g :: 0 <= g < |lists| && g != h ==> BucketOf(E', D, lists'[g]) == BucketOf(E, D, lists[g]))
            && var b := BucketOf(E, D, lists[h]);
            BucketOf(E', D, lists'[h]) == ToFront(b, k, b[k])
  {
    var list := lists[h];
    var list' := [list[k]] + Delete(list, k);
    var lists' := lists[h := list'];
    assert BucketOk(E, D, list, h, window, hash);
    var b := BucketOf(E, D, list);
    forall i | 0 <= i < |list'| ensures list'[i] == list[if i == 0 then k else if i - 1 < k then i - 1 else i] {
    }
    var b' := BucketOf(E', D, list');
    assert b' == ToFront(b, k, b[k]);
    forall g | 0 <= g < |lists'| ensures BucketOk(E', D, lists'[g], g, window, hash) {
      assert BucketOk(E, D, lists[g], g, window, hash);
      if g != h {
        SameBucket(E, E', D, D, lists[g]);
      }
    }
    forall g | 0 <= g < |lists| && g != h ensures BucketOf(E', D, lists'[g]) == BucketOf(E, D, lists[g]) {
      assert BucketOk(E, D, lists[g], g, window, hash);
      SameBucket(E, E', D, D, lists[g]);
    }
  }

  /** What is left of a list of `window` places when position `p`, or room for one more, is given up. */
  function Remaining<T>(s: seq<T>, p: nat, window: nat): (r: seq<T>)
    requires 0 < window && p <= |s| <= window
    ensures |r| < window
  {
    if p < |s| then Delete(s, p) else if |s| < window then s else Delete(s, |s| - 1)
  }

  /** The first entry of a bucket is in that bucket once and in no other. */
  lemma OnlyIn(E: seq<LruEntry>, T: seq<LruList>, freeList: LruList, free: seq<nat>, lists: seq<seq<nat>>, h: nat)
    requires LinksOk(E, T, freeList, free, lists) && h < |lists| && lists[h] != []
    ensures lists[h][0] < |E| && lists[h][0] !in lists[h][1..]
    ensures forall g :: 0 <= g < |lists| && g != h ==> lists[h][0] !in lists[g]
  {
    assert lists[h][0] in lists[h];
  }

  /** The position of a key is the first place that holds it. */
  lemma PositionAt(b: Bucket, key: Key, i: nat)
    requires i <= |b| && (forall j :: 0 <= j < i ==> b[j].key != key) && (i < |b| ==> b[i].key == key)
    ensures Position(b, key) == i
  {
    assert Position(b, key) < |b| ==> b[Position(b, key)].key == key;
  }

  /** Where the part that is left comes from. */
  lemma RemainingAt<T>(s: seq<T>, p: nat, window: nat)
    requires 0 < window && p <= |s| <= window
    ensures var r, at := Remaining(s, p, window), if p < |s| then p else if |s| < window then |s| else |s| - 1;
            && |r| == (if at < |s| then |s| - 1 else |s|)
            && forall i :: 0 <= i < |r| ==> r[i] == s[if i < at then i else i + 1]
  {
  }

  /** Once the entry at its position is gone the key is not found, and other keys stay distinct. */
  lemma RemainingKeys(b: Bucket, window: nat, key: Key)
    requires 0 < window && |b| <= window && DistinctKeys(b)
    ensures var r := Remaining(b, Position(b, key), window);
            DistinctKeys(r) && forall i :: 0 <= i < |r| ==> r[i].key != key
  {
    RemainingAt(b, Position(b, key), window);
    hide Remaining;
  }

  lemma RemainingItems(E: seq<LruEntry>, D: seq<Block>, list: seq<nat>, p: nat, window: nat, key: Key)
    requires |D| == |E| && InArray(list, |E|) && 0 < window && |list| <= window
    requires p == Position(BucketOf(E, D, list), key) && DistinctKeys(BucketOf(E, D, list))
    ensures InArray(Remaining(list, p, window), |E|)
    ensures BucketOf(E, D, Remaining(list, p, window)) == Remaining(BucketOf(E, D, list), p, window)
    ensures var r := Remaining(BucketOf(E, D, list), p, window);
            DistinctKeys(r) && forall i :: 0 <= i < |r| ==> r[i].key != key
    ensures forall i :: 0 <= i < |Remaining(list, p, window)| ==> Remaining(list, p, window)[i] in list
  {
    RemainingAt(list, p, window);
    RemainingAt(BucketOf(E, D, list), p, window);
    RemainingKeys(BucketOf(E, D, list), window, key);
    hide Remaining, Position, DistinctKeys;
  }

  lemma WriteIsRemaining(b: Bucket, window: nat, key: Key, blk: Block)
    requires 0 < window && |b| <= window
    ensures AfterWrite(b, window, key, blk) == [Item(key, blk)] + Remaining(b, Position(b, key), window)
  {
  }

  /** The bucket that was written, and the others. */
  lemma WrittenBuckets(E: seq<LruEntry>, E': seq<LruEntry>, D: seq<Block>, D': seq<Block>, lists: seq<seq<nat>>, h: nat,
                       e: Word, key: Key, blk: Block, window: nat, hash: (Word, Word) -> nat)
    requires |D| == |E| == |D'| == |E'| && 0 < window && BucketsOk(E, D, lists, window, hash) && h < |lists|
    requires InArray(lists[h], |E|) && |lists[h]| <= window && e as int < |E|
    requires var rest := Remaining(lists[h], Position(BucketOf(E, D, lists[h]), key), window); e as nat !in rest
    requires forall g :: 0 <= g < |lists| && g != h ==> e as nat !in lists[g]
    requires forall x :: 0 <= x < |E| && x != e ==>
      E'[x].source == E[x].source && E'[x].blkno == E[x].blkno && D'[x] == D[x]
    requires Key(E'[e].source, E'[e].blkno) == key && D'[e] == blk && hash(key.vtxno, key.blkno) == h
    ensures var rest := Remaining(lists[h], Position(BucketOf(E, D, lists[h]), key), window);
            var lists' := lists[h := [e as nat] + rest];
            && BucketsOk(E', D', lists', window, hash)
            && (forall g :: 0 <= g < |lists| ==> InArray(lists[g], |E|) && InArray(lists'[g], |E|))
            && (forall g :: 0 <= g < |lists| && g != h ==> BucketOf(E', D', lists'[g]) == BucketOf(E, D, lists[g]))
            && BucketOf(E', D', lists'[h]) == AfterWrite(BucketOf(E, D, lists[h]), window, key, blk)
  {
    assert BucketOk(E, D, lists[h], h, window, hash);
    var rest := Remaining(lists[h], Position(BucketOf(E, D, lists[h]), key), window);
    WrittenBucket(E, E', D, D', lists[h], h, e, key, blk, window, hash);
    hide BucketOk, Remaining, Position, AfterWrite, DistinctKeys;
    var lists' := lists[h := [e as nat] + rest];
    forall g | 0 <= g < |lists|
      ensures BucketOk(E', D', lists'[g], g, window, hash) && InArray(lists[g], |E|) && InArray(lists'[g], |E|)
      ensures g != h ==> BucketOf(E', D', lists'[g]) == BucketOf(E, D, lists[g])
    {
      assert BucketOk(E, D, lists[g], g, window, hash);
      if g != h {
        UntouchedBucket(E, E', D, D', lists[g], g, e, window, hash);
      }
    }
  }

  lemma UntouchedBucket(E: seq<LruEntry>, E': seq<LruEntry>, D: seq<Block>, D': seq<Block>, list: seq<nat>, g: nat,
                        e: Word, window: nat, hash: (Word, Word) -> nat)
    requires |D| == |E| == |D'| == |E'| && BucketOk(E, D, list, g, window, hash) && e as nat !in list
    requires forall x :: 0 <= x < |E| && x != e ==>
      E'[x].source == E[x].source && E'[x].blkno == E[x].blkno && D'[x] == D[x]
    ensures InArray(list, |E|) && BucketOk(E', D', list, g, window, hash)
    ensures BucketOf(E', D', list) == BucketOf(E, D, list)
  {
    assert forall i :: 0 <= i < |list| ==> list[i] in list;
    SameBucket(E, E', D, D', list);
  }

  lemma WrittenBucket(E: seq<LruEntry>, E': seq<LruEntry>, D: seq<Block>, D': seq<Block>, list: seq<nat>, h: nat,
                      e: Word, key: Key, blk: Block, window: nat, hash: (Word, Word) -> nat)
    requires |D| == |E| == |D'| == |E'| && 0 < window && BucketOk(E, D, list, h, window, hash) && e as int < |E|
    requires var rest := Remaining(list, Position(BucketOf(E, D, list), key), window); e as nat !in rest
    requires forall x :: 0 <= x < |E| && x != e ==>
      E'[x].source == E[x].source && E'[x].blkno == E[x].blkno && D'[x] == D[x]
    requires Key(E'[e].source, E'[e].blkno) == key && D'[e] == blk && hash(key.vtxno, key.blkno) == h
    ensures var list' := [e as nat] + Remaining(list, Position(BucketOf(E, D, list), key), window);
            && BucketOk(E', D', list', h, window, hash)
            && InArray(list', |E|)
            && BucketOf(E', D', list') == AfterWrite(BucketOf(E, D, list), window, key, blk)
  {
    var b, p := BucketOf(E, D, list), Position(BucketOf(E, D, list), key);
    var rest := Remaining(list, p, window);
    RemainingItems(E, D, list, p, window, key);
    WriteIsRemaining(b, window, key, blk);
    hide Remaining, Position, AfterWrite, DistinctKeys;
    assert forall i :: 0 <= i < |rest| ==> rest[i] in rest;
    SameBucket(E, E', D, D', rest);
    PrependedBucket(E', D', e, rest);
    WrittenHere(E, E', D', list, h, e, rest, key, window, hash);
  }

  lemma PrependedBucket(E: seq<LruEntry>, D: seq<Block>, e: nat, rest: seq<nat>)
    requires |D| == |E| && e < |E| && InArray(rest, |E|)
    ensures InArray([e] + rest, |E|)
    ensures BucketOf(E, D, [e] + rest) == [Item(Key(E[e].source, E[e].blkno), D[e])] + BucketOf(E, D, rest)
  {
  }

  lemma WrittenHere(E: seq<LruEntry>, E': seq<LruEntry>, D': seq<Block>, list: seq<nat>, h: nat, e: Word,
                    rest: seq<nat>, key: Key, window: nat, hash: (Word, Word) -> nat)
    requires |E| == |D'| == |E'| && InArray(list, |E|) && InArray(rest, |E|) && |rest| < window && e as int < |E|
    requires forall i :: 0 <= i < |list| ==> hash(E[list[i]].source, E[list[i]].blkno) == h
    requires forall i :: 0 <= i < |rest| ==> rest[i] in list && rest[i] != e as nat
    requires forall x :: 0 <= x < |E| && x != e ==> E'[x].source == E[x].source && E'[x].blkno == E[x].blkno
    requires Key(E'[e].source, E'[e].blkno) == key && hash(key.vtxno, key.blkno) == h
    requires var r := BucketOf(E', D', rest); DistinctKeys(r) && forall i :: 0 <= i < |r| ==> r[i].key != key
    ensures BucketOk(E', D', [e as nat] + rest, h, window, hash)
  {
    var list', r := [e as nat] + rest, BucketOf(E', D', rest);
    var b' := BucketOf(E', D', list');
    forall i, j | 0 <= i < j < |b'| ensures b'[i].key != b'[j].key {
      assert b'[j] == r[j - 1];
      assert i > 0 ==> b'[i] == r[i - 1];
    }
  }
}
