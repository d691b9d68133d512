/**
 What any run of list operations on a subgraph guarantees.
 */
module SubgraphTheorems {
  import opened BlockFormat
  import opened Ownership
  import opened SubgraphModel

  // ---------------------------------------------------------------- ownership over whole runs

  /**
   After any run every block number is exactly once on the free stack or in one vertex list, and the
   lengths add up to the number of blocks.
   */
  lemma {:induction false} RunOwnership(g: Geometry, s: Subgraph, ops: seq<Op>)
    requires WellFormed(g, s) && Runnable(g, s, ops)
    ensures WellFormed(g, Run(g, s, ops))
    ensures var s' := Run(g, s, ops);
            && (forall b: nat :: b < s'.sup ==> Occurrences(s'.free + Concat(s'.lists), b) == 1)
            && |s'.free| + TotalLength(s'.lists) == s'.sup
    decreases |ops|
  {
    if ops == [] {
      PartitionExact(s.free, s.lists, s.sup);
    } else {
      StepKeeps(g, s, ops[0]);
      RunOwnership(g, Step(g, s, ops[0]), ops[1..]);
    }
  }

  /** Block numbers are never lost: the bound only grows, and an operation on one vertex leaves the others alone. */
  lemma StepFrame(g: Geometry, s: Subgraph, op: Op)
    requires WellFormed(g, s) && Applicable(g, s, op)
    ensures var s' := Step(g, s, op);
            && s.sup <= s'.sup && |s'.lists| == |s.lists|
            && (forall w :: 0 <= w < |s.lists| && w != op.v ==> s'.lists[w] == s.lists[w] && s'.sizes[w] == s.sizes[w])
            && (forall w, x {:trigger x in s.lists[w]} :: 0 <= w < |s.lists| && w != op.v && x in s.lists[w] ==>
                 x in s.body && x in s'.body && s'.body[x] == s.body[x])
  {
    if Inserting(op) {
      InsertKeeps(g, s, op.v, InsertPosition(s.lists[op.v], op), op.content);
    } else if s.lists[op.v] != [] {
      assert s.lists[op.v][DeletePosition(s.lists[op.v], op)] in s.lists[op.v];
    }
  }

  // ---------------------------------------------------------------- the operations are list operations

  ghost predicate StepOnListHolds(list: seq<nat>, list': seq<nat>, op: Op, b: nat) {
    match op
    case Push(_, _) => list' == list + [b]
    case Unshift(_, _) => list' == [b] + list
    case InsertPrev(_, next, _) =>
      if next == INVALID_BLOCKNO then list' == list + [b]
      else forall k :: 0 <= k < |list| && list[k] == next ==> list' == list[..k] + [b] + list[k..]
    case InsertNext(_, prev, _) =>
      if prev == INVALID_BLOCKNO then list' == [b] + list
      else forall k :: 0 <= k < |list| && list[k] == prev ==> list' == list[..k + 1] + [b] + list[k + 1..]
    case Shift(_) => list' == if list == [] then [] else list[1..]
    case Pop(_) => list' == if list == [] then [] else list[..|list| - 1]
    case Remove(_, blkno) =>
      forall k :: 0 <= k < |list| && list[k] == blkno ==> list' == list[..k] + list[k + 1..]
  }

  /** Append, prepend, insert before and after a block, drop first, drop last and delete a block. */
  lemma StepRefinesList(g: Geometry, s: Subgraph, op: Op)
    requires WellFormed(g, s) && Applicable(g, s, op)
    ensures StepOnListHolds(s.lists[op.v], Step(g, s, op).lists[op.v], op, NextBlock(g, s))
  {
    Handles(g, s, op.v);
    StepOnList(g, s, op);
  }

  lemma StepOnList(g: Geometry, s: Subgraph, op: Op)
    requires Applicable(g, s, op)
    requires forall k :: 0 <= k < |s.lists[op.v]| ==> HandleAt(s.lists[op.v], k)
    ensures StepOnListHolds(s.lists[op.v], Step(g, s, op).lists[op.v], op, NextBlock(g, s))
  {
    var list := s.lists[op.v];
    assert forall k :: 0 <= k < |list| ==> list[k] == list[k] && HandleAt(list, k);
  }

  /** A listed block number is never the invalid one and identifies its position. */
  ghost predicate HandleAt(list: seq<nat>, k: nat)
    requires k < |list|
  {
    list[k] != INVALID_BLOCKNO as nat && IndexOf(list, list[k]) == k
  }

  lemma Handles(g: Geometry, s: Subgraph, v: nat)
    requires WellFormed(g, s) && v < |s.lists|
    ensures forall k :: 0 <= k < |s.lists[v]| ==> HandleAt(s.lists[v], k)
  {
    var list := s.lists[v];
    forall k | 0 <= k < |list| ensures HandleAt(list, k) {
      assert list[k] in list;
      IndexUnique(list, k);
    }
  }

  // ---------------------------------------------------------------- vertex sizes

  lemma {:induction false} TotalContentFrame(list: seq<nat>, body: map<nat, Body>, body': map<nat, Body>)
    requires forall i :: 0 <= i < |list| ==> ContentAt(body, list[i]) == ContentAt(body', list[i])
    ensures TotalContent(list, body') == TotalContent(list, body)
  {
    if list != [] {
      TotalContentFrame(Front(list), body, body');
    }
  }

  lemma {:induction false} TotalContentInsert(list: seq<nat>, k: nat, b: nat, body: map<nat, Body>)
    requires k <= |list|
    ensures TotalContent(Insert(list, k, b), body) == TotalContent(list, body) + ContentAt(body, b)
  {
    if k == |list| {
      assert Front(Insert(list, k, b)) == list;
    } else {
      TotalContentInsert(Front(list), k, b, body);
      assert Front(Insert(list, k, b)) == Insert(Front(list), k, b);
    }
  }

  lemma SizeExactInsert(list: seq<nat>, size: Word, body: map<nat, Body>, k: nat, b: nat, content: Body)
    requires SizeExact(list, size, body) && k <= |list|
    requires forall i :: 0 <= i < |list| ==> list[i] != b
    ensures SizeExact(Insert(list, k, b), AddWord(size, ContentSize(content)), body[b := content])
  {
    TotalContentFrame(list, body, body[b := content]);
    TotalContentInsert(list, k, b, body[b := content]);
  }

  lemma TotalContentDelete(list: seq<nat>, k: nat, body: map<nat, Body>)
    requires k < |list| && NoDup(list)
    ensures TotalContent(Delete(list, k), body - {list[k]}) == TotalContent(list, body) - ContentAt(body, list[k])
  {
    var rest := Delete(list, k);
    InsertDelete(list, k);
    DeleteMembers(list, k);
    assert forall i :: 0 <= i < |rest| ==> rest[i] in rest;
    hide TotalContent, NoDup, Delete, Insert, ContentSize;
    TotalContentFrame(rest, body, body - {list[k]});
    TotalContentInsert(rest, k, list[k], body);
  }

  lemma SizeExactDelete(list: seq<nat>, size: Word, body: map<nat, Body>, k: nat)
    requires SizeExact(list, size, body) && k < |list| && NoDup(list)
    ensures SizeExact(Delete(list, k), SubWord(size, ContentAt(body, list[k])), body - {list[k]})
  {
    hide TotalContent, NoDup, Delete, ContentAt, SubWord;
    TotalContentDelete(list, k, body);
    WrapSub(TotalContent(list, body), ContentAt(body, list[k]));
  }

  lemma WrapSub(t: nat, c: nat)
    requires c <= t
    ensures SubWord(t % 0x1_0000_0000, c) == (t - c) % 0x1_0000_0000
  {
  }

  lemma InsertSizes(g: Geometry, s: Subgraph, v: nat, k: nat, content: Body)
    requires g.Valid() && SizesExact(s)
    requires v < |s.lists| && k <= |s.lists[v]|
    requires forall w :: 0 <= w < |s.lists| ==> NextBlock(g, s) !in s.lists[w]
    ensures SizesExact(InsertBlock(g, s, v, k, content))
  {
    var s' := InsertBlock(g, s, v, k, content);
    forall w | 0 <= w < |s'.lists| ensures SizeExact(s'.lists[w], s'.sizes[w], s'.body) {
      assert SizeExact(s.lists[w], s.sizes[w], s.body);
      assert forall i :: 0 <= i < |s.lists[w]| ==> s.lists[w][i] in s.lists[w];
      if w == v {
        SizeExactInsert(s.lists[v], s.sizes[v], s.body, k, NextBlock(g, s), content);
      } else {
        TotalContentFrame(s.lists[w], s.body, s'.body);
      }
    }
  }

  lemma DeleteSizes(s: Subgraph, v: nat, k: nat)
    requires SizesExact(s) && v < |s.lists| && k < |s.lists[v]| && NoDup(s.lists[v])
    requires forall w :: 0 <= w < |s.lists| && w != v ==> s.lists[v][k] !in s.lists[w]
    ensures SizesExact(DeleteBlock(s, v, k))
  {
    var s' := DeleteBlock(s, v, k);
    forall w | 0 <= w < |s'.lists| ensures SizeExact(s'.lists[w], s'.sizes[w], s'.body) {
      assert SizeExact(s.lists[w], s.sizes[w], s.body);
      if w == v {
        SizeExactDelete(s.lists[v], s.sizes[v], s.body, k);
      } else {
        assert forall i :: 0 <= i < |s.lists[w]| ==> s.lists[w][i] in s.lists[w];
        TotalContentFrame(s.lists[w], s.body, s'.body);
      }
    }
  }

  lemma StepSizes(g: Geometry, s: Subgraph, op: Op)
    requires WellFormed(g, s) && Applicable(g, s, op) && SizesExact(s)
    ensures SizesExact(Step(g, s, op))
  {
    var list := s.lists[op.v];
    if Inserting(op) {
      InsertKeeps(g, s, op.v, InsertPosition(list, op), op.content);
      InsertSizes(g, s, op.v, InsertPosition(list, op), op.content);
    } else if list != [] {
      assert list[DeletePosition(list, op)] in list;
      DeleteSizes(s, op.v, DeletePosition(list, op));
    }
  }

  /** A block removed from list `w` but charged to vertex `v` leaves the sizes exact only if its content is empty. */
  lemma MisremovalSizes(g: Geometry, s: Subgraph, v: nat, w: nat, k: nat)
    requires WellFormed(g, s) && SizesExact(s)
    requires v < |s.lists| && w < |s.lists| && v != w && k < |s.lists[w]|
    ensures var c := ContentAt(s.body, s.lists[w][k]);
            SizesExact(DeleteBlock(s, w, k).(sizes := s.sizes[v := SubWord(s.sizes[v], c)])) <==> c == 0
  {
    var b := s.lists[w][k];
    var c := ContentAt(s.body, b);
    assert b in s.lists[w];
    DeleteSizes(s, w, k);
    var s1 := DeleteBlock(s, w, k);
    var s2 := s1.(sizes := s.sizes[v := SubWord(s.sizes[v], c)]);
    assert SizeExact(s1.lists[v], s1.sizes[v], s1.body);
    if c == 0 {
      assert s2.sizes == s1.sizes;
    } else {
      assert !SizeExact(s2.lists[v], s2.sizes[v], s2.body);
    }
  }

  /** After any run each vertex size is the sum of the content sizes of its blocks, modulo 2^32. */
  lemma {:induction false} RunSizes(g: Geometry, s: Subgraph, ops: seq<Op>)
    requires WellFormed(g, s) && Runnable(g, s, ops) && SizesExact(s)
    ensures SizesExact(Run(g, s, ops))
    decreases |ops|
  {
    if ops != [] {
      StepSizes(g, s, ops[0]);
      StepKeeps(g, s, ops[0]);
      RunSizes(g, Step(g, s, ops[0]), ops[1..]);
    }
  }

  /** The 16-bit size fields of the blocks of a list, added up. */
  ghost function SizeFields(list: seq<nat>, body: map<nat, Body>): nat {
    if list == [] then 0
    else
      SizeFields(Front(list), body) +
      (if Last(list) in body && 5 <= |body[Last(list)]| then body[Last(list)][4] % 0x1_0000 else 0)
  }

  lemma {:induction false} TotalIsSizeFields(list: seq<nat>, body: map<nat, Body>)
    ensures TotalContent(list, body) == SizeFields(list, body)
  {
    if list != [] {
      TotalIsSizeFields(Front(list), body);
    }
  }

  /** On the words: after any run each vertex size is the sum of the size fields of its blocks, modulo 2^32. */
  lemma RunSizeFields(g: Geometry, s: Subgraph, ops: seq<Op>)
    requires WellFormed(g, s) && Runnable(g, s, ops) && SizesExact(s)
    ensures var s' := Run(g, s, ops);
            |s'.sizes| == |s'.lists| && forall v :: 0 <= v < |s'.lists| ==>
              s'.sizes[v] as int == SizeFields(s'.lists[v], s'.body) % 0x1_0000_0000
  {
    RunSizes(g, s, ops);
    var s' := Run(g, s, ops);
    forall v | 0 <= v < |s'.lists| ensures s'.sizes[v] as int == SizeFields(s'.lists[v], s'.body) % 0x1_0000_0000 {
      assert SizeExact(s'.lists[v], s'.sizes[v], s'.body);
      TotalIsSizeFields(s'.lists[v], s'.body);
    }
  }

  /** A block whose size field holds `n` adds `n` to its vertex when it is inserted, whatever else it carries. */
  lemma InsertAdds(g: Geometry, s: Subgraph, v: nat, k: nat, content: Body, n: nat, hi: nat)
    requires g.Valid() && v < |s.lists| == |s.sizes| && k <= |s.lists[v]|
    requires 5 <= |content| && n < 0x1_0000 && content[4] as int == n + 0x1_0000 * hi
    ensures InsertBlock(g, s, v, k, content).sizes == s.sizes[v := ((s.sizes[v] + n) % 0x1_0000_0000) as Word]
  {
    SizeField(content, n, hi);
  }

  /** And takes it off again when it is deleted. */
  lemma DeleteTakesOff(s: Subgraph, v: nat, k: nat, n: nat, hi: nat)
    requires v < |s.lists| == |s.sizes| && k < |s.lists[v]| && s.lists[v][k] in s.body
    requires 5 <= |s.body[s.lists[v][k]]| && n < 0x1_0000
    requires s.body[s.lists[v][k]][4] as int == n + 0x1_0000 * hi
    ensures DeleteBlock(s, v, k).sizes == s.sizes[v := ((s.sizes[v] - n) % 0x1_0000_0000) as Word]
  {
    SizeField(s.body[s.lists[v][k]], n, hi);
  }

  // ---------------------------------------------------------------- what one call undoes

  /** Removing the block just inserted restores the subgraph exactly, unless a page was added in between. */
  lemma DeleteUndoesInsert(g: Geometry, s: Subgraph, v: nat, k: nat, content: Body)
    requires WellFormed(g, s) && CanAllocate(g, s)
    requires v < |s.lists| && k <= |s.lists[v]| && |content| == g.words - BODY
    ensures DeleteBlock(InsertBlock(g, s, v, k, content), v, k) == Grown(g, s)
    ensures s.free != [] <==> DeleteBlock(InsertBlock(g, s, v, k, content), v, k) == s
  {
    InsertKeeps(g, s, v, k, content);
    DeleteAfterInsert(g, s, v, k, content);
  }

  lemma DeleteAfterInsert(g: Geometry, s: Subgraph, v: nat, k: nat, content: Body)
    requires g.Valid() && v < |s.lists| == |s.sizes| && k <= |s.lists[v]|
    requires NextBlock(g, s) !in s.body
    ensures DeleteBlock(InsertBlock(g, s, v, k, content), v, k) == Grown(g, s)
  {
    var b := NextBlock(g, s);
    var s2 := DeleteBlock(InsertBlock(g, s, v, k, content), v, k);
    DeleteInsert(s.lists[v], k, b);
    assert s2.free == Grown(g, s).free;
    assert s2.lists == s.lists;
    assert s2.sizes == s.sizes;
    assert s2.body == s.body;
  }

  /** Putting the same content back where it was removed reuses the block number and restores everything. */
  lemma InsertUndoesDelete(g: Geometry, s: Subgraph, v: nat, k: nat)
    requires WellFormed(g, s)
    requires v < |s.lists| && k < |s.lists[v]|
    ensures s.lists[v][k] in s.body
    ensures InsertBlock(g, DeleteBlock(s, v, k), v, k, s.body[s.lists[v][k]]) == s
  {
    assert s.lists[v][k] in s.lists[v];
    InsertAfterDelete(g, s, v, k);
  }

  lemma InsertAfterDelete(g: Geometry, s: Subgraph, v: nat, k: nat)
    requires g.Valid() && v < |s.lists| == |s.sizes| && k < |s.lists[v]| && s.lists[v][k] in s.body
    ensures InsertBlock(g, DeleteBlock(s, v, k), v, k, s.body[s.lists[v][k]]) == s
  {
    var b := s.lists[v][k];
    var s2 := InsertBlock(g, DeleteBlock(s, v, k), v, k, s.body[b]);
    assert Front(s.free + [b]) == s.free;
    InsertDelete(s.lists[v], k);
    assert s2.lists == s.lists;
    assert s2.sizes == s.sizes;
    assert s2.body == s.body;
  }

  // ---------------------------------------------------------------- exhaustion

  /**
   An insertion that throws leaves the subgraph as it was exactly when no page could be named any more and
   the vertex was not resized: an inner insertion, or content of size zero.
   */
  lemma ExhaustionHarmlessIff(g: Geometry, s: Subgraph, op: Op)
    requires WellFormed(g, s) && Callable(g, s, op) && Inserting(op) && !CanAllocate(g, s)
    ensures Exhausted(g, s, op) == s <==>
      s.sup == g.blknoMax && (ResizesFirst(s.lists[op.v], op) ==> ContentSize(op.content) == 0)
  {
    var s' := Exhausted(g, s, op);
    if ResizesFirst(s.lists[op.v], op) {
      assert s'.sizes[op.v] == AddWord(s.sizes[op.v], ContentSize(op.content));
      assert ContentSize(op.content) == 0 ==> s'.sizes == s.sizes;
    }
  }

  // ---------------------------------------------------------------- sequential allocation

  /** The state after `n` block numbers were handed out of a fresh subgraph and none came back. */
  ghost predicate Sequential(g: Geometry, s: Subgraph, n: nat) {
    n <= s.sup && s.free == PageStack(n, s.sup - n)
  }

  /** The block numbers a run of insertions hands back, in order. */
  ghost function Granted(g: Geometry, s: Subgraph, ops: seq<Op>): seq<nat>
    requires Runnable(g, s, ops)
    decreases |ops|
  {
    if ops == [] then []
    else [NextBlock(g, s)] + Granted(g, Step(g, s, ops[0]), ops[1..])
  }

  lemma SequentialStep(g: Geometry, s: Subgraph, n: nat, op: Op)
    requires Sequential(g, s, n) && Applicable(g, s, op) && Inserting(op)
    ensures NextBlock(g, s) == n && Sequential(g, Step(g, s, op), n + 1)
  {
    PageStackFacts(n, s.sup - n);
    PageStackFacts(s.sup, g.page);
  }

  /**
   In every run of insertions from a freshly formatted subgraph (`n` = 0) the insertions get the blocks
   0, 1, 2, ... in order, through the volume and every page added later.
   */
  lemma {:induction false} SequentialAllocation(g: Geometry, s: Subgraph, n: nat, ops: seq<Op>)
    requires Sequential(g, s, n) && Runnable(g, s, ops)
    requires forall i :: 0 <= i < |ops| ==> Inserting(ops[i])
    ensures |Granted(g, s, ops)| == |ops|
    ensures forall i :: 0 <= i < |ops| ==> Granted(g, s, ops)[i] == n + i
    ensures Sequential(g, Run(g, s, ops), n + |ops|)
    decreases |ops|
  {
    if ops != [] {
      var s' := Step(g, s, ops[0]);
      SequentialStep(g, s, n, ops[0]);
      SequentialAllocation(g, s', n + 1, ops[1..]);
    }
  }

  /** A freshly formatted subgraph. */
  function Fresh(g: Geometry): Subgraph {
    Subgraph(PageStack(0, g.volume), g.volume,
             seq(g.width, _ => []), seq(g.width, _ => 0), map[])
  }

  lemma FreshWellFormed(g: Geometry)
    requires g.Valid()
    ensures WellFormed(g, Fresh(g)) && SizesExact(Fresh(g)) && Sequential(g, Fresh(g), 0)
  {
    PageStackFacts(0, g.volume);
  }
}
