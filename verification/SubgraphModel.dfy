/**
 A subgraph seen by its callers: a stack of free block numbers, one list of block numbers per vertex, the
 vertex sizes and what each live block carries.  The storage and list classes are proved to refine it.
 */
module SubgraphModel {
  import opened BlockFormat
  import opened Ownership

  type Body = seq<Word>

  datatype Subgraph = Subgraph(
    free: seq<nat>,          // bottom first
    sup: nat,                // block numbers below it exist
    lists: seq<seq<nat>>,    // by vertex
    sizes: seq<Word>,        // by vertex
    body: map<nat, Body>)    // what live blocks carry besides their header links

  datatype Op =
    | Push(v: nat, content: Body)
    | Unshift(v: nat, content: Body)
    | InsertPrev(v: nat, next: Word, content: Body)
    | InsertNext(v: nat, prev: Word, content: Body)
    | Shift(v: nat)
    | Pop(v: nat)
    | Remove(v: nat, blkno: Word)

  // ---------------------------------------------------------------- allocation

  /** The page of block numbers from `base`, as the release loops leave it: lowest number on top. */
  function PageStack(base: nat, n: nat): seq<nat> {
    seq(n, i requires 0 <= i < n => base + (n - 1 - i))
  }

  predicate CanAllocate(g: Geometry, s: Subgraph) {
    s.free != [] || s.sup + g.page <= g.blknoMax
  }

  function Grown(g: Geometry, s: Subgraph): Subgraph {
    if s.free == [] then s.(free := PageStack(s.sup, g.page), sup := s.sup + g.page) else s
  }

  function NextBlock(g: Geometry, s: Subgraph): nat
    requires g.Valid()
  {
    Last(Grown(g, s).free)
  }

  // ---------------------------------------------------------------- the two effects

  function ContentAt(body: map<nat, Body>, b: nat): Word {
    if b in body then ContentSize(body[b]) else 0
  }

  function InsertBlock(g: Geometry, s: Subgraph, v: nat, k: nat, content: Body): Subgraph
    requires g.Valid() && v < |s.lists| == |s.sizes| && k <= |s.lists[v]|
  {
    var b := NextBlock(g, s);
    var s' := Grown(g, s);
    Subgraph(Front(s'.free), s'.sup,
             s.lists[v := Insert(s.lists[v], k, b)],
             s.sizes[v := AddWord(s.sizes[v], ContentSize(content))],
             s.body[b := content])
  }

  function DeleteBlock(s: Subgraph, v: nat, k: nat): Subgraph
    requires v < |s.lists| == |s.sizes| && k < |s.lists[v]|
  {
    var b := s.lists[v][k];
    Subgraph(s.free + [b], s.sup,
             s.lists[v := Delete(s.lists[v], k)],
             s.sizes[v := SubWord(s.sizes[v], ContentAt(s.body, b))],
             s.body - {b})
  }

  // ---------------------------------------------------------------- the invariant

  ghost predicate Carried(s: Subgraph, words: nat) {
    && (forall v, x {:trigger x in s.lists[v]} :: 0 <= v < |s.lists| && x in s.lists[v] ==> x in s.body)
    && (forall x :: x in s.body ==> |s.body[x]| == words - BODY && Listed(s.lists, x))
  }

  /** The content sizes of the blocks of a list, added up. */
  ghost function TotalContent(list: seq<nat>, body: map<nat, Body>): nat {
    if list == [] then 0 else TotalContent(Front(list), body) + ContentAt(body, Last(list))
  }

  ghost predicate SizeExact(list: seq<nat>, size: Word, body: map<nat, Body>) {
    size == TotalContent(list, body) % 0x1_0000_0000
  }

  ghost predicate SizesExact(s: Subgraph) {
    |s.sizes| == |s.lists| && forall v :: 0 <= v < |s.lists| ==> SizeExact(s.lists[v], s.sizes[v], s.body)
  }

  ghost predicate WellFormed(g: Geometry, s: Subgraph) {
    && g.Valid()
    && g.volume <= s.sup <= g.blknoMax
    && Mod(s.sup, g.page) == 0
    && |s.sizes| == |s.lists|
    && Partition(s.free, s.lists, s.sup)
    && Carried(s, g.words)
  }

  // ---------------------------------------------------------------- steps

  predicate Inserting(op: Op) {
    op.Push? || op.Unshift? || op.InsertPrev? || op.InsertNext?
  }

  /** What the code demands of its caller: handles name blocks of the vertex. */
  ghost predicate Callable(g: Geometry, s: Subgraph, op: Op) {
    && g.Valid()
    && op.v < |s.lists| == |s.sizes|
    && (Inserting(op) ==> |op.content| == g.words - BODY)
    && (op.InsertPrev? ==> op.next == INVALID_BLOCKNO || op.next as nat in s.lists[op.v])
    && (op.InsertNext? ==> op.prev == INVALID_BLOCKNO || op.prev as nat in s.lists[op.v])
    && (op.Remove? ==> s.lists[op.v] == [] || op.blkno as nat in s.lists[op.v])
  }

  /** A call that block numbers suffice for. */
  ghost predicate Applicable(g: Geometry, s: Subgraph, op: Op) {
    Callable(g, s, op) && (Inserting(op) ==> CanAllocate(g, s))
  }

  /** Where an insertion puts its block. */
  function InsertPosition(list: seq<nat>, op: Op): (k: nat)
    requires Inserting(op)
    requires op.InsertPrev? ==> op.next == INVALID_BLOCKNO || op.next as nat in list
    requires op.InsertNext? ==> op.prev == INVALID_BLOCKNO || op.prev as nat in list
    ensures k <= |list|
  {
    match op
    case Push(_, _) => |list|
    case Unshift(_, _) => 0
    case InsertPrev(_, next, _) => if next == INVALID_BLOCKNO then |list| else IndexOf(list, next)
    case InsertNext(_, prev, _) => if prev == INVALID_BLOCKNO then 0 else IndexOf(list, prev) + 1
  }

  function DeletePosition(list: seq<nat>, op: Op): (k: nat)
    requires !Inserting(op) && list != []
    requires op.Remove? ==> op.blkno as nat in list
    ensures k < |list|
  {
    match op
    case Shift(_) => 0
    case Pop(_) => |list| - 1
    case Remove(_, blkno) => IndexOf(list, blkno)
  }

  ghost function Step(g: Geometry, s: Subgraph, op: Op): Subgraph
    requires Applicable(g, s, op)
  {
    var list := s.lists[op.v];
    if Inserting(op) then
      InsertBlock(g, s, op.v, InsertPosition(list, op), op.content)
    else if list == [] then
      s
    else
      DeleteBlock(s, op.v, DeletePosition(list, op))
  }

  /** Insertions at either end resize the vertex before they allocate. */
  predicate ResizesFirst(list: seq<nat>, op: Op)
    requires Inserting(op)
    requires op.InsertPrev? ==> op.next == INVALID_BLOCKNO || op.next as nat in list
    requires op.InsertNext? ==> op.prev == INVALID_BLOCKNO || op.prev as nat in list
  {
    InsertPosition(list, op) == 0 || InsertPosition(list, op) == |list|
  }

  /** What an insertion that throws for want of block numbers leaves behind. */
  ghost function Exhausted(g: Geometry, s: Subgraph, op: Op): Subgraph
    requires Callable(g, s, op) && Inserting(op)
  {
    s.(sizes := if ResizesFirst(s.lists[op.v], op)
                then s.sizes[op.v := AddWord(s.sizes[op.v], ContentSize(op.content))] else s.sizes,
       sup := if s.sup < g.blknoMax then AddWord(s.sup, g.page) else s.sup)
  }

  ghost predicate Runnable(g: Geometry, s: Subgraph, ops: seq<Op>)
    decreases |ops|
  {
    ops != [] ==> Applicable(g, s, ops[0]) && Runnable(g, Step(g, s, ops[0]), ops[1..])
  }

  /** `pop` as written does what is meant, unless the list has exactly one block. */
  ghost predicate PopsAsMeant(s: Subgraph, op: Op) {
    op.Pop? && op.v < |s.lists| ==> |s.lists[op.v]| != 1
  }

  /** No `pop` of the run meets a list of exactly one block. */
  ghost predicate AllPopAsMeant(g: Geometry, s: Subgraph, ops: seq<Op>)
    requires Runnable(g, s, ops)
    decreases |ops|
  {
    ops != [] ==> PopsAsMeant(s, ops[0]) && AllPopAsMeant(g, Step(g, s, ops[0]), ops[1..])
  }

  ghost function Run(g: Geometry, s: Subgraph, ops: seq<Op>): Subgraph
    requires Runnable(g, s, ops)
    decreases |ops|
  {
    if ops == [] then s else Run(g, Step(g, s, ops[0]), ops[1..])
  }

  // ---------------------------------------------------------------- allocation facts

  lemma PageStackFacts(base: nat, n: nat)
    ensures NoDup(PageStack(base, n))
    ensures forall x :: x in PageStack(base, n) <==> base <= x < base + n
    ensures n > 0 ==> Last(PageStack(base, n)) == base && Front(PageStack(base, n)) == PageStack(base + 1, n - 1)
  {
    var p := PageStack(base, n);
    forall x: nat | base <= x < base + n ensures x in p {
      assert p[base + n - 1 - x] == x;
    }
  }

  lemma PageStackExtend(base: nat, n: nat)
    requires 1 <= base
    ensures PageStack(base - 1, n + 1) == PageStack(base, n) + [base - 1]
    ensures forall x :: x < base ==> x !in PageStack(base, n)
  {
  }

  lemma GrownWellFormed(g: Geometry, s: Subgraph)
    requires WellFormed(g, s) && CanAllocate(g, s)
    ensures WellFormed(g, Grown(g, s)) && Grown(g, s).free != []
  {
    if s.free == [] {
      PageStackFacts(s.sup, g.page);
      assert |PageStack(s.sup, g.page)| == g.page;
      GrowKeepsPartition(s.lists, s.sup, PageStack(s.sup, g.page), s.sup + g.page);
      ModPeriod(s.sup, g.page);
    }
  }

  lemma {:induction false} ModPeriod(x: nat, m: nat)
    requires 1 <= m
    ensures Mod(x + m, m) == Mod(x, m)
  {
  }

  // ---------------------------------------------------------------- every step keeps the invariant

  lemma InsertKeeps(g: Geometry, s: Subgraph, v: nat, k: nat, content: Body)
    requires WellFormed(g, s) && CanAllocate(g, s)
    requires v < |s.lists| && k <= |s.lists[v]| && |content| == g.words - BODY
    ensures WellFormed(g, InsertBlock(g, s, v, k, content))
    ensures NextBlock(g, s) !in s.body && NextBlock(g, s) < InsertBlock(g, s, v, k, content).sup
  {
    GrownWellFormed(g, s);
    var s1 := Grown(g, s);
    var b := NextBlock(g, s);
    var s' := InsertBlock(g, s, v, k, content);
    assert b in s1.free;
    TakeKeepsPartition(s1.free, s1.lists, s1.sup, v, k);
    InsertMembers(s.lists[v], k, b);
    forall x | x in s'.body ensures Listed(s'.lists, x) {
      if x == b {
        assert b in s'.lists[v];
      } else {
        var w :| 0 <= w < |s.lists| && x in s.lists[w];
        assert x in s'.lists[w];
      }
    }
  }

  lemma DeleteKeeps(g: Geometry, s: Subgraph, v: nat, k: nat)
    requires WellFormed(g, s)
    requires v < |s.lists| && k < |s.lists[v]|
    ensures s.lists[v][k] in s.body
    ensures WellFormed(g, DeleteBlock(s, v, k))
  {
    var b := s.lists[v][k];
    assert b in s.lists[v];
    var s' := DeleteBlock(s, v, k);
    GiveKeepsPartition(s.free, s.lists, s.sup, v, k);
    DeleteMembers(s.lists[v], k);
    forall x | x in s'.body ensures Listed(s'.lists, x) {
      var w :| 0 <= w < |s.lists| && x in s.lists[w];
      assert x in s'.lists[w];
    }
  }

  lemma StepKeeps(g: Geometry, s: Subgraph, op: Op)
    requires WellFormed(g, s) && Applicable(g, s, op)
    ensures WellFormed(g, Step(g, s, op))
    ensures |Step(g, s, op).lists| == |s.lists|
  {
    var list := s.lists[op.v];
    if Inserting(op) {
      InsertKeeps(g, s, op.v, InsertPosition(list, op), op.content);
    } else if list != [] {
      DeleteKeeps(g, s, op.v, DeletePosition(list, op));
    }
  }
}
