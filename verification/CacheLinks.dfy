/**
 The intrusive lists of the block cache: which link words make the entry array store a free stack and one
 list per bucket, and what moving, admitting and freeing an entry does to them.  Values only.
 */
module CacheLinks {
  import opened BlockFormat
  import opened Ownership
  import opened BlockLists

  datatype LruEntry = LruEntry(source: Word, blkno: Word, next: Word, prev: Word)
  datatype LruList = LruList(next: Word, prev: Word, num: nat)

  ghost predicate LinkAt(E: seq<LruEntry>, list: seq<nat>, i: nat)
    requires i < |list|
  {
    && list[i] < |E|
    && E[list[i]].next == After(list, i, INVALID_BLOCKNO)
    && E[list[i]].prev == Before(list, i, INVALID_BLOCKNO)
  }

  /** The entries of `list`, in order, hang on `head`. */
  ghost predicate Chained(E: seq<LruEntry>, head: LruList, list: seq<nat>) {
    && head.next == HeadOf(list)
    && head.prev == TailOf(list)
    && head.num == |list|
    && forall i :: 0 <= i < |list| ==> LinkAt(E, list, i)
  }

  /** The free entries hang on `head` by their next links alone, the top of the stack first. */
  ghost predicate FreeChained(E: seq<LruEntry>, head: LruList, free: seq<nat>) {
    && head.next == TailOf(free)
    && head.num == |free|
    && forall i :: 0 <= i < |free| ==> free[i] < |E| && E[free[i]].next == Before(free, i, INVALID_BLOCKNO)
  }

  ghost predicate LinksOk(E: seq<LruEntry>, T: seq<LruList>, freeList: LruList, free: seq<nat>, lists: seq<seq<nat>>) {
    && |E| <= INVALID_BLOCKNO
    && |T| == |lists|
    && Partition(free, lists, |E|)
    && FreeChained(E, freeList, free)
    && forall h :: 0 <= h < |lists| ==> Chained(E, T[h], lists[h])
  }

  // ---------------------------------------------------------------- the link writes

  function SetNext(E: seq<LruEntry>, e: nat, w: Word): seq<LruEntry>
    requires e < |E|
  {
    E[e := E[e].(next := w)]
  }

  function SetPrev(E: seq<LruEntry>, e: nat, w: Word): seq<LruEntry>
    requires e < |E|
  {
    E[e := E[e].(prev := w)]
  }

  /** `push_front` on the entries. */
  function PushLinks(E: seq<LruEntry>, head: LruList, e: Word): seq<LruEntry>
    requires e as int < |E| && (head.next != INVALID_BLOCKNO ==> head.next as int < |E|)
  {
    var E1 := SetNext(E, e, head.next);
    var E2 := if head.next != INVALID_BLOCKNO then SetPrev(E1, head.next, e) else E1;
    SetPrev(E2, e, INVALID_BLOCKNO)
  }

  /** The first half of `move_front`: entry `e`, which has a predecessor, leaves its list. */
  function CutLinks(E: seq<LruEntry>, e: Word): seq<LruEntry>
    requires e as int < |E| && E[e].prev as int < |E|
    requires E[e].next != INVALID_BLOCKNO ==> E[e].next as int < |E|
  {
    var E1 := SetNext(E, E[e].prev, E[e].next);
    if E1[e].next != INVALID_BLOCKNO && E1[e].next as int < |E| then SetPrev(E1, E1[e].next, E1[e].prev)
    else SetNext(E1, E1[e].prev, INVALID_BLOCKNO)
  }

  /** The list head `move_front` leaves after that half. */
  function CutHead(E: seq<LruEntry>, head: LruList, e: Word): LruList
    requires e as int < |E|
  {
    head.(prev := if E[e].next == INVALID_BLOCKNO then E[e].prev else head.prev,
          num := if head.num > 0 then head.num - 1 else 0)
  }

  function PushHead(head: LruList, e: Word): LruList {
    LruList(e, if head.next == INVALID_BLOCKNO then e else head.prev, head.num + 1)
  }

  ghost predicate SameKeys(E: seq<LruEntry>, E': seq<LruEntry>) {
    |E'| == |E| && forall e :: 0 <= e < |E| ==> E'[e].source == E[e].source && E'[e].blkno == E[e].blkno
  }

  /** Entries outside `touched` keep their links. */
  ghost predicate SameLinks(E: seq<LruEntry>, E': seq<LruEntry>, touched: seq<nat>) {
    |E'| == |E| && forall e :: 0 <= e < |E| && e !in touched ==> E'[e].next == E[e].next && E'[e].prev == E[e].prev
  }

  /** What the cut does to each entry that stays. */
  lemma CutEntry(E: seq<LruEntry>, list: seq<nat>, k: nat, j: nat)
    requires NoDup(list) && 0 < k < |list| && j < |list| && j != k && |E| <= INVALID_BLOCKNO
    requires LinkAt(E, list, k) && LinkAt(E, list, k - 1) && LinkAt(E, list, j)
    requires k + 1 < |list| ==> LinkAt(E, list, k + 1)
    ensures var e, e' := E[list[j]], CutLinks(E, list[k])[list[j]];
            && e'.next == (if j == k - 1 then After(list, k, INVALID_BLOCKNO) else e.next)
            && e'.prev == (if j == k + 1 then Before(list, k, INVALID_BLOCKNO) else e.prev)
  {
  }

  lemma CutLinkAt(E: seq<LruEntry>, list: seq<nat>, k: nat, i: nat)
    requires NoDup(list) && 0 < k < |list| && i < |list| - 1 && |E| <= INVALID_BLOCKNO
    requires forall j :: 0 <= j < |list| ==> LinkAt(E, list, j)
    requires list[k] < |E| && list[k] < INVALID_BLOCKNO && E[list[k]].prev as int < |E|
    requires E[list[k]].next != INVALID_BLOCKNO ==> E[list[k]].next as int < |E|
    ensures LinkAt(CutLinks(E, list[k]), Delete(list, k), i)
  {
    var j := if i < k then i else i + 1;
    var list' := Delete(list, k);
    assert LinkAt(E, list, k) && LinkAt(E, list, k - 1) && LinkAt(E, list, j) && list'[i] == list[j];
    assert k + 1 < |list| ==> LinkAt(E, list, k + 1);
    CutEntry(E, list, k, j);
    hide NoDup, CutLinks;
    assert i > 0 ==> list'[i - 1] == list[if i - 1 < k then i - 1 else i];
    assert i + 1 < |list'| ==> list'[i + 1] == list[if i + 1 < k then i + 1 else i + 2];
  }

  lemma CutOk(E: seq<LruEntry>, head: LruList, list: seq<nat>, k: nat)
    requires Chained(E, head, list) && NoDup(list) && 0 < k < |list| && |E| <= INVALID_BLOCKNO
    ensures list[k] < |E| && list[k] < INVALID_BLOCKNO && E[list[k]].prev as int < |E|
    ensures E[list[k]].next != INVALID_BLOCKNO ==> E[list[k]].next as int < |E|
    ensures Chained(CutLinks(E, list[k]), CutHead(E, head, list[k]), Delete(list, k))
    ensures SameKeys(E, CutLinks(E, list[k])) && SameLinks(E, CutLinks(E, list[k]), Delete(list, k))
  {
    assert LinkAt(E, list, k) && LinkAt(E, list, k - 1);
    assert k + 1 < |list| ==> LinkAt(E, list, k + 1);
    var list' := Delete(list, k);
    forall i | 0 <= i < |list'| ensures LinkAt(CutLinks(E, list[k]), list', i) {
      CutLinkAt(E, list, k, i);
    }
    hide NoDup, LinkAt;
    assert list'[k - 1] == list[k - 1];
    assert k + 1 < |list| ==> list'[k] == list[k + 1];
  }

  lemma PushOk(E: seq<LruEntry>, head: LruList, list: seq<nat>, e: Word)
    requires Chained(E, head, list) && NoDup(list) && e as int < |E| <= INVALID_BLOCKNO && e as nat !in list
    ensures head.next != INVALID_BLOCKNO ==> head.next as int < |E|
    ensures Chained(PushLinks(E, head, e), PushHead(head, e), [e as nat] + list)
    ensures SameKeys(E, PushLinks(E, head, e)) && SameLinks(E, PushLinks(E, head, e), [e as nat] + list)
  {
    assert list != [] ==> LinkAt(E, list, 0);
    var E', list' := PushLinks(E, head, e), [e as nat] + list;
    forall i | 0 <= i < |list'| ensures LinkAt(E', list', i) {
      if i > 0 {
        assert LinkAt(E, list, i - 1) && list'[i] == list[i - 1] && list[i - 1] in list;
      }
    }
  }

  /** A list none of whose entries was touched keeps its chain. */
  lemma ChainedFrame(E: seq<LruEntry>, E': seq<LruEntry>, head: LruList, list: seq<nat>, touched: seq<nat>)
    requires Chained(E, head, list) && SameLinks(E, E', touched)
    requires forall i :: 0 <= i < |list| ==> list[i] !in touched
    ensures Chained(E', head, list)
  {
    forall i | 0 <= i < |list| ensures LinkAt(E', list, i) {
      assert LinkAt(E, list, i);
    }
  }

  lemma FreeFrame(E: seq<LruEntry>, E': seq<LruEntry>, head: LruList, free: seq<nat>, touched: seq<nat>)
    requires FreeChained(E, head, free) && SameLinks(E, E', touched)
    requires forall i :: 0 <= i < |free| ==> free[i] !in touched
    ensures FreeChained(E', head, free)
  {
  }

  // ---------------------------------------------------------------- the whole array

  /** Bucket `h` was rearranged within its own entries: everything stays chained. */
  lemma RearrangedOk(E: seq<LruEntry>, E': seq<LruEntry>, T: seq<LruList>, freeList: LruList, free: seq<nat>,
                     lists: seq<seq<nat>>, h: nat, head': LruList, list': seq<nat>)
    requires LinksOk(E, T, freeList, free, lists) && h < |lists|
    requires NoDup(list') && (forall x :: x in list' <==> x in lists[h])
    requires Chained(E', head', list') && SameLinks(E, E', list')
    ensures LinksOk(E', T[h := head'], freeList, free, lists[h := list'])
  {
    var lists' := lists[h := list'];
    hide LinkAt, NoDup;
    forall g | 0 <= g < |lists'| ensures Chained(E', T[h := head'][g], lists'[g]) {
      if g != h {
        assert forall i :: 0 <= i < |lists[g]| ==> lists[g][i] in lists[g];
        ChainedFrame(E, E', T[g], lists[g], list');
      }
    }
    assert forall i :: 0 <= i < |free| ==> free[i] in free;
    FreeFrame(E, E', freeList, free, list');
    RearrangedPartition(free, lists, |E|, h, list');
  }

  lemma RearrangedPartition(free: seq<nat>, lists: seq<seq<nat>>, n: nat, h: nat, list': seq<nat>)
    requires Partition(free, lists, n) && h < |lists| && NoDup(list') && (forall x :: x in list' <==> x in lists[h])
    ensures Partition(free, lists[h := list'], n)
  {
    var lists' := lists[h := list'];
    forall x | 0 <= x < n ensures x in free || Listed(lists', x) {
      if x !in free {
        var g :| 0 <= g < |lists| && x in lists[g];
        assert x in lists'[g];
      }
    }
  }

  /** Popping the top entry and touching it leaves the rest of the free stack chained. */
  lemma FreePopped(E: seq<LruEntry>, E': seq<LruEntry>, freeList: LruList, freeList': LruList, free: seq<nat>,
                   touched: seq<nat>)
    requires FreeChained(E, freeList, free) && free != [] && Last(free) < |E|
    requires freeList'.num == |free| - 1 && freeList'.next == E[Last(free)].next
    requires SameLinks(E, E', touched) && forall i :: 0 <= i < |free| - 1 ==> free[i] !in touched
    ensures FreeChained(E', freeList', Front(free))
  {
    assert E[free[|free| - 1]].next == Before(free, |free| - 1, INVALID_BLOCKNO);
    assert FreeChained(E, freeList', Front(free));
    FreeFrame(E, E', freeList', Front(free), touched);
  }

  /** What an admission moves is apart from everything else. */
  lemma AdmissionApart(free: seq<nat>, lists: seq<seq<nat>>, n: nat, h: nat)
    requires Partition(free, lists, n) && h < |lists| && free != []
    ensures Partition(Front(free), lists[h := [Last(free)] + lists[h]], n)
    ensures forall i :: 0 <= i < |free| - 1 ==> free[i] !in [Last(free)] + lists[h]
    ensures forall g, i :: 0 <= g < |lists| && g != h && 0 <= i < |lists[g]| ==> lists[g][i] !in [Last(free)] + lists[h]
  {
    assert Insert(lists[h], 0, Last(free)) == [Last(free)] + lists[h];
    TakeKeepsPartition(free, lists, n, h, 0);
    assert Last(free) in free;
    assert forall i :: 0 <= i < |free| ==> free[i] in free;
    assert forall g, i :: 0 <= g < |lists| && 0 <= i < |lists[g]| ==> lists[g][i] in lists[g];
  }

  lemma SameLength(E: seq<LruEntry>, E': seq<LruEntry>, touched: seq<nat>)
    requires SameLinks(E, E', touched)
    ensures |E'| == |E|
  {
  }

  /** The top of the free stack was admitted to bucket `h`. */
  lemma AdmittedOk(E: seq<LruEntry>, E': seq<LruEntry>, T: seq<LruList>, freeList: LruList, freeList': LruList,
                   free: seq<nat>, lists: seq<seq<nat>>, h: nat, head': LruList)
    requires LinksOk(E, T, freeList, free, lists) && h < |lists| && free != []
    requires freeList'.num == |free| - 1 && Last(free) < |E| && freeList'.next == E[Last(free)].next
    requires Chained(E', head', [Last(free)] + lists[h]) && SameLinks(E, E', [Last(free)] + lists[h])
    ensures LinksOk(E', T[h := head'], freeList', Front(free), lists[h := [Last(free)] + lists[h]])
  {
    hide Partition, NoDup, Chained, FreeChained, SameLinks;
    var list' := [Last(free)] + lists[h];
    var lists' := lists[h := list'];
    AdmissionApart(free, lists, |E|, h);
    SameLength(E, E', list');
    FreePopped(E, E', freeList, freeList', free, list');
    forall g | 0 <= g < |lists'| ensures Chained(E', T[h := head'][g], lists'[g]) {
      if g != h {
        ChainedFrame(E, E', T[g], lists[g], list');
      }
    }
  }
}
