/**
 `ProducerDaemon`: a write is applied to every replica of a subgraph in turn.
 */
module Producer {
  import opened BlockFormat
  import opened Ownership
  import opened BlockStore
  import opened SubgraphModel
  import opened SubgraphTheorems
  import opened ListSoundness
  import opened SubgraphStorage
  import opened StrayBlocks
  import opened SubgraphSet

  // ---------------------------------------------------------------- what a call comes to

  /** What the handlers are given: a vertex of the subgraph and a whole block.  They check no block number. */
  ghost predicate Accepted(g: Geometry, s: Subgraph, op: Op) {
    && g.Valid()
    && op.v < |s.lists| == |s.sizes|
    && (Inserting(op) ==> |op.content| == g.words - BODY)
  }

  /** The block number a call names, if it names one. */
  function Handle(op: Op): nat {
    match op
    case InsertPrev(_, next, _) => next
    case InsertNext(_, prev, _) => prev
    case Remove(_, blkno) => blkno
    case _ => 0
  }

  /** The block named is at the end of another vertex's list where the code looks for its neighbour. */
  ghost predicate AtEnd(s: Subgraph, op: Op)
    requires Listed(s.lists, Handle(op))
  {
    var list := s.lists[Owner(s.lists, Handle(op))];
    var k := IndexOf(list, Handle(op));
    if op.InsertPrev? then k == 0
    else if op.InsertNext? then k == |list| - 1
    else k == 0 || k == |list| - 1
  }

  /**
   `Regular` calls carry out a step of the subgraph and `Exhausts` ones throw for want of block numbers; a call
   that `Crashes` follows a null pointer, and one that `Spoils` answers but leaves no lists stored.  One that
   `Strays` names a free block, whose words say whether it crashes or answers and leaves no subgraph stored.
   */
  datatype Fate = Regular | Exhausts | Crashes | Spoils | Strays

  ghost function FateOf(g: Geometry, s: Subgraph, op: Op, repaired: bool): Fate {
    if Inserting(op) && !CanAllocate(g, s) then Exhausts
    else if Callable(g, s, op) then (if repaired || PopsAsMeant(s, op) then Regular else Spoils)
    else if !Listed(s.lists, Handle(op)) then
      (if (if Inserting(op) then Grown(g, s).sup else s.sup) <= Handle(op) then Crashes else Strays)
    else if AtEnd(s, op) then Crashes
    else if op.Remove? then Regular
    else Spoils
  }

  /** A block of another vertex left its list, charged to vertex `op.v`. */
  ghost function RemovedElsewhere(s: Subgraph, op: Op): Subgraph
    requires op.Remove? && op.v < |s.lists| == |s.sizes| && Inner(s.lists, op.blkno)
  {
    var w := Owner(s.lists, op.blkno);
    var k := IndexOf(s.lists[w], op.blkno);
    DeleteBlock(s, w, k).(sizes := s.sizes[op.v := SubWord(s.sizes[op.v], ContentAt(s.body, s.lists[w][k]))])
  }

  /** The subgraph after a call that was regular or threw. */
  ghost function After(g: Geometry, s: Subgraph, op: Op): Subgraph
    requires Accepted(g, s, op)
  {
    if Applicable(g, s, op) then Step(g, s, op)
    else if Callable(g, s, op) then Exhausted(g, s, op)
    else if op.Remove? && Inner(s.lists, op.blkno) then RemovedElsewhere(s, op)
    else s.(sup := if s.sup < g.blknoMax then AddWord(s.sup, g.page) else s.sup)
  }

  /** The reply of a call on a subgraph in state `s`, if it does not stray and crash. */
  ghost function ReplyOf(g: Geometry, s: Subgraph, op: Op, repaired: bool): (r: Reply)
    requires g.Valid()
  {
    match FateOf(g, s, op, repaired)
    case Exhausts => Threw
    case Crashes => Crashed
    case _ =>
      if !Inserting(op) then Done
      else if NextBlock(g, s) < 0x1_0000_0000 then Given(NextBlock(g, s)) else Threw
  }

  /** One store after a call, against the subgraph it held before. */
  twostate predicate Fated(st: Storage, op: Op, repaired: bool, r: Reply)
    requires old(st.Sound()) && Accepted(st.mem.g, old(st.Model()), op)
    reads st, st.mem
  {
    var g, s := st.mem.g, old(st.Model());
    && (r == ReplyOf(g, s, op, repaired) || (r == Crashed && FateOf(g, s, op, repaired) == Strays))
    && match FateOf(g, s, op, repaired)
       case Regular => st.Sound() && st.Model() == After(g, s, op)
       case Exhausts =>
         && st.Model() == After(g, s, op) && st.Refused()
         && (st.Sound() <==> old(st.mem.supBlkno) as int == g.blknoMax)
       case Crashes => true
       case Spoils => st.Valid() && NoLists(g, st.mem.blocks, st.vertices)
       case Strays =>
         r != Crashed ==> NoSubgraph(g, st.mem.blocks, st.vertices, st.headBlkno, st.numOfFreeBlks)
  }

  /** One provider carries out one call; `repaired` says which `pop` it runs. */
  method Perform(st: Storage, op: Op, repaired: bool) returns (r: Reply)
    requires st.Sound() && Accepted(st.mem.g, st.Model(), op)
    modifies st, st.mem
    ensures Fated(st, op, repaired, r)
  {
    match op
    case InsertPrev(_, _, _) => r := PerformBefore(st, op, repaired);
    case InsertNext(_, _, _) => r := PerformAfter(st, op, repaired);
    case Remove(_, _) => r := PerformRemove(st, op, repaired);
    case _ => r := PerformAtEnd(st, op, repaired);
  }

  method PerformAtEnd(st: Storage, op: Op, repaired: bool) returns (r: Reply)
    requires st.Sound() && Accepted(st.mem.g, st.Model(), op)
    requires op.Push? || op.Unshift? || op.Shift? || op.Pop?
    modifies st, st.mem
    ensures Fated(st, op, repaired, r)
  {
    hide WellFormed, ListsSound, FreeOk, BlockMemory.Valid, DeleteBlock, InsertBlock, NoLists, NoSubgraph, Owner;
    VertexFacts(st.mem.g, st.mem.blocks, st.vertices, st.Model(), op.v);
    var vtxno := (st.FirstVertex() as int + op.v) as Word;
    match op
    case Push(_, content) => r := SubgraphSet.Push(st, vtxno, [0, 0, 0] + content);
    case Unshift(_, content) => r := SubgraphSet.Unshift(st, vtxno, [0, 0, 0] + content);
    case Shift(_) =>
      SubgraphSet.Shift(st, vtxno);
      r := Done;
    case Pop(_) =>
      if repaired {
        SubgraphSet.PopRepaired(st, vtxno);
      } else {
        SubgraphSet.Pop(st, vtxno);
      }
      r := Done;
  }

  method PerformBefore(st: Storage, op: Op, repaired: bool) returns (r: Reply)
    requires st.Sound() && Accepted(st.mem.g, st.Model(), op) && op.InsertPrev?
    modifies st, st.mem
    ensures Fated(st, op, repaired, r)
  {
    hide WellFormed, ListsSound, FreeOk, BlockMemory.Valid, DeleteBlock, InsertBlock, NoLists, NoSubgraph, Owner;
    VertexFacts(st.mem.g, st.mem.blocks, st.vertices, st.Model(), op.v);
    var vtxno := (st.FirstVertex() as int + op.v) as Word;
    r := SubgraphSet.InsertPrev(st, vtxno, op.next, [0, 0, 0] + op.content);
  }

  method PerformAfter(st: Storage, op: Op, repaired: bool) returns (r: Reply)
    requires st.Sound() && Accepted(st.mem.g, st.Model(), op) && op.InsertNext?
    modifies st, st.mem
    ensures Fated(st, op, repaired, r)
  {
    hide WellFormed, ListsSound, FreeOk, BlockMemory.Valid, DeleteBlock, InsertBlock, NoLists, NoSubgraph, Owner;
    VertexFacts(st.mem.g, st.mem.blocks, st.vertices, st.Model(), op.v);
    var vtxno := (st.FirstVertex() as int + op.v) as Word;
    r := SubgraphSet.InsertNext(st, vtxno, op.prev, [0, 0, 0] + op.content);
  }

  method PerformRemove(st: Storage, op: Op, repaired: bool) returns (r: Reply)
    requires st.Sound() && Accepted(st.mem.g, st.Model(), op) && op.Remove?
    modifies st, st.mem
    ensures Fated(st, op, repaired, r)
  {
    hide WellFormed, ListsSound, FreeOk, BlockMemory.Valid, DeleteBlock, InsertBlock, NoLists, NoSubgraph, Owner;
    VertexFacts(st.mem.g, st.mem.blocks, st.vertices, st.Model(), op.v);
    OwnerOf(st.mem.g, st.mem.blocks, st.vertices, st.Model(), op.v, op.blkno);
    var vtxno := (st.FirstVertex() as int + op.v) as Word;
    var removed := SubgraphSet.Remove(st, vtxno, op.blkno);
    r := if removed then Done else Crashed;
  }

  // ---------------------------------------------------------------- replicas

  /** Replicas are separate stores. */
  ghost predicate Separate(replicas: seq<Storage>) {
    forall i, j :: 0 <= i < j < |replicas| ==> replicas[i] != replicas[j] && replicas[i].mem != replicas[j].mem
  }

  ghost function Footprint(replicas: seq<Storage>): set<object> {
    (set i | 0 <= i < |replicas| :: replicas[i]) + (set i | 0 <= i < |replicas| :: replicas[i].mem)
  }

  /** Replicas `lo` to `hi` store the subgraph `s`. */
  ghost predicate AgreeOn(replicas: seq<Storage>, lo: nat, hi: nat, g: Geometry, s: Subgraph)
    reads Footprint(replicas)
  {
    forall i :: lo <= i < hi && i < |replicas| ==> Stores(replicas, i, g, s)
  }

  ghost predicate Stores(replicas: seq<Storage>, i: nat, g: Geometry, s: Subgraph)
    requires i < |replicas|
    reads replicas[i], replicas[i].mem
  {
    replicas[i].mem.g == g && replicas[i].Sound() && replicas[i].Model() == s
  }

  /** Every replica stores the subgraph `s`. */
  ghost predicate Agree(replicas: seq<Storage>, g: Geometry, s: Subgraph)
    reads Footprint(replicas)
  {
    AgreeOn(replicas, 0, |replicas|, g, s)
  }

  /** Replica `i` after a call that came to an answer. */
  ghost predicate Answered(replicas: seq<Storage>, i: nat, g: Geometry, s: Subgraph, op: Op, repaired: bool)
    requires i < |replicas| && Accepted(g, s, op)
    reads replicas[i], replicas[i].mem
  {
    var st := replicas[i];
    match FateOf(g, s, op, repaired)
    case Spoils => st.Valid() && NoLists(st.mem.g, st.mem.blocks, st.vertices)
    case Strays => NoSubgraph(st.mem.g, st.mem.blocks, st.vertices, st.headBlkno, st.numOfFreeBlks)
    case _ => Stores(replicas, i, g, After(g, s, op))
  }

  ghost predicate AnsweredOn(replicas: seq<Storage>, n: nat, g: Geometry, s: Subgraph, op: Op, repaired: bool)
    requires Accepted(g, s, op)
    reads Footprint(replicas)
  {
    forall i :: 0 <= i < n && i < |replicas| ==> Answered(replicas, i, g, s, op, repaired)
  }

  /**
   A write handler, for any call: replicas that agreed give the same answer.  After a regular call they agree on
   lists, contents and free stack, and the number returned names the same block in each; after one that spoils,
   none of them stores any lists.  The first `done` replicas answered; the one at which the call throws or crashes
   is the first, unless it strayed, and those after it are as they were.  A call that throws leaves the first in the
   exhausted state, so they still agree exactly when that is no change.
   */
  method Write(replicas: seq<Storage>, op: Op, repaired: bool, ghost g: Geometry, ghost s: Subgraph)
    returns (r: Reply, ghost done: nat)
    requires replicas != [] && Separate(replicas) && Agree(replicas, g, s) && Accepted(g, s, op)
    modifies Footprint(replicas)
    ensures r == ReplyOf(g, s, op, repaired) || (r == Crashed && FateOf(g, s, op, repaired) == Strays)
    ensures done <= |replicas| && (done < |replicas| <==> r == Threw || r == Crashed)
    ensures AnsweredOn(replicas, done, g, s, op, repaired) && AgreeOn(replicas, done + 1, |replicas|, g, s)
    ensures FateOf(g, s, op, repaired) != Strays ==> done == 0 || done == |replicas|
    ensures FateOf(g, s, op, repaired) == Regular ==> Agree(replicas, g, After(g, s, op))
    ensures r == Threw ==>
      replicas[0].Model() == After(g, s, op) && old(replicas[0].mem.blocks) <= replicas[0].mem.blocks
    ensures r == Threw ==> (Agree(replicas, g, s) <==> After(g, s, op) == s)
  {
    assert Stores(replicas, 0, g, s);
    assert WellFormed(g, s);
    ThrowsIff(g, s, op, repaired);
    ghost var fate := FateOf(g, s, op, repaired);
    hide *;
    r, done := Threw, 0;
    var i := 0;
    while i < |replicas|
      invariant done == i <= |replicas|
      invariant AnsweredOn(replicas, done, g, s, op, repaired) && AgreeOn(replicas, done, |replicas|, g, s)
      invariant done > 0 ==> fate in {Regular, Spoils, Strays} && r == ReplyOf(g, s, op, repaired)
      invariant done > 0 ==> r != Threw && r != Crashed
      invariant done == 0 ==> replicas[0].mem.blocks == old(replicas[0].mem.blocks)
    {
      r := Next(replicas, i, op, repaired, g, s);
      if r == Threw || r == Crashed {
        if done == 0 {
          FirstDecides(replicas, g, s);
        }
        return;
      }
      i, done := i + 1, done + 1;
    }
    if fate == Regular {
      AllAnswered(replicas, g, s, op, repaired);
    }
  }

  lemma FirstDecides(replicas: seq<Storage>, g: Geometry, s: Subgraph)
    requires replicas != [] && AgreeOn(replicas, 1, |replicas|, g, s)
    ensures Agree(replicas, g, s) <==> Stores(replicas, 0, g, s)
  {
    hide Stores;
  }

  lemma AllAnswered(replicas: seq<Storage>, g: Geometry, s: Subgraph, op: Op, repaired: bool)
    requires Accepted(g, s, op) && FateOf(g, s, op, repaired) == Regular
    requires AnsweredOn(replicas, |replicas|, g, s, op, repaired)
    ensures Agree(replicas, g, After(g, s, op))
  {
    hide Stores, FateOf, After;
    forall i | 0 <= i < |replicas| ensures Stores(replicas, i, g, After(g, s, op)) {
      assert Answered(replicas, i, g, s, op, repaired);
    }
  }

  /** A throw that leaves no trace met a bound that could not move. */
  lemma TracelessOnly(g: Geometry, s: Subgraph, op: Op, repaired: bool)
    requires WellFormed(g, s) && Accepted(g, s, op)
    ensures FateOf(g, s, op, repaired) == Exhausts && After(g, s, op) == s ==> s.sup == g.blknoMax
  {
    hide Partition, Carried;
  }

  lemma AnsweredHere(replicas: seq<Storage>, i: nat, g: Geometry, s: Subgraph, op: Op, repaired: bool)
    requires i < |replicas| && Accepted(g, s, op) && replicas[i].mem.g == g
    ensures var st, fate := replicas[i], FateOf(g, s, op, repaired);
      && (fate == Regular && st.Sound() && st.Model() == After(g, s, op) ==> Answered(replicas, i, g, s, op, repaired))
      && (fate == Spoils && st.Valid() && NoLists(g, st.mem.blocks, st.vertices) ==>
           Answered(replicas, i, g, s, op, repaired))
      && (fate == Strays && NoSubgraph(g, st.mem.blocks, st.vertices, st.headBlkno, st.numOfFreeBlks) ==>
           Answered(replicas, i, g, s, op, repaired))
      && (st.Sound() && st.Model() == s <==> Stores(replicas, i, g, s))
  {
    hide Storage.Sound, Storage.Valid, FateOf, Accepted, After, NoLists, NoSubgraph;
  }

  /** The call on one replica. */
  method NextOne(replicas: seq<Storage>, i: nat, op: Op, repaired: bool, ghost g: Geometry, ghost s: Subgraph)
    returns (r: Reply)
    requires i < |replicas| && Accepted(g, s, op) && Stores(replicas, i, g, s)
    modifies replicas[i], replicas[i].mem
    ensures r == ReplyOf(g, s, op, repaired) || (r == Crashed && FateOf(g, s, op, repaired) == Strays)
    ensures var fate := FateOf(g, s, op, repaired);
            && (fate == Regular || fate == Spoils ==> Answered(replicas, i, g, s, op, repaired))
            && (fate == Strays && r != Crashed ==> Answered(replicas, i, g, s, op, repaired))
            && (fate == Exhausts ==> replicas[i].Model() == After(g, s, op))
            && (fate == Exhausts ==> old(replicas[i].mem.blocks) <= replicas[i].mem.blocks)
            && (fate == Exhausts ==> (Stores(replicas, i, g, s) <==> After(g, s, op) == s))
  {
    TracelessOnly(g, s, op, repaired);
    hide Storage.Sound, Storage.Valid, ReplyOf, FateOf, Accepted, After, NoLists, NoSubgraph;
    r := Perform(replicas[i], op, repaired);
    AnsweredHere(replicas, i, g, s, op, repaired);
  }

  /** It leaves the others alone. */
  method Next(replicas: seq<Storage>, i: nat, op: Op, repaired: bool, ghost g: Geometry, ghost s: Subgraph)
    returns (r: Reply)
    requires i < |replicas| && Separate(replicas) && Accepted(g, s, op)
    requires AnsweredOn(replicas, i, g, s, op, repaired) && AgreeOn(replicas, i, |replicas|, g, s)
    modifies replicas[i], replicas[i].mem
    ensures r == ReplyOf(g, s, op, repaired) || (r == Crashed && FateOf(g, s, op, repaired) == Strays)
    ensures AnsweredOn(replicas, i, g, s, op, repaired) && AgreeOn(replicas, i + 1, |replicas|, g, s)
    ensures var fate := FateOf(g, s, op, repaired);
            && (fate == Regular || fate == Spoils ==> AnsweredOn(replicas, i + 1, g, s, op, repaired))
            && (fate == Strays && r != Crashed ==> AnsweredOn(replicas, i + 1, g, s, op, repaired))
            && (fate == Exhausts ==> replicas[i].Model() == After(g, s, op))
            && (fate == Exhausts ==> old(replicas[i].mem.blocks) <= replicas[i].mem.blocks)
            && (fate == Exhausts ==> (Stores(replicas, i, g, s) <==> After(g, s, op) == s))
  {
    hide Stores, Answered, ReplyOf, FateOf, Accepted, After;
    r := NextOne(replicas, i, op, repaired, g, s);
    forall j | 0 <= j < |replicas| && j != i
      ensures Stores(replicas, j, g, s) == old(Stores(replicas, j, g, s))
      ensures Answered(replicas, j, g, s, op, repaired) == old(Answered(replicas, j, g, s, op, repaired))
    {
      Apart(replicas, i, j);
    }
  }

  // ---------------------------------------------------------------- runs of calls

  /** Every call of the run is regular; with the written `pop` these are the ones where it is as meant. */
  ghost predicate Servable(g: Geometry, s: Subgraph, ops: seq<Op>, repaired: bool)
    decreases |ops|
  {
    ops != [] ==>
      && Accepted(g, s, ops[0]) && FateOf(g, s, ops[0], repaired) == Regular
      && Servable(g, After(g, s, ops[0]), ops[1..], repaired)
  }

  ghost function Outcome(g: Geometry, s: Subgraph, ops: seq<Op>, repaired: bool): Subgraph
    requires Servable(g, s, ops, repaired)
    decreases |ops|
  {
    if ops == [] then s else Outcome(g, After(g, s, ops[0]), ops[1..], repaired)
  }

  /** The replies of a run. */
  ghost function Replies(g: Geometry, s: Subgraph, ops: seq<Op>, repaired: bool): seq<Reply>
    requires Servable(g, s, ops, repaired)
    decreases |ops|
  {
    if ops == [] then []
    else assert g.Valid(); [ReplyOf(g, s, ops[0], repaired)] + Replies(g, After(g, s, ops[0]), ops[1..], repaired)
  }

  /**
   Serialized calls keep the replicas in agreement on the outcome of the whole run, and answer with the block
   numbers the model hands out.
   */
  method Serve(replicas: seq<Storage>, ops: seq<Op>, repaired: bool, ghost g: Geometry, ghost s: Subgraph)
    returns (replies: seq<Reply>)
    requires replicas != [] && Separate(replicas) && Agree(replicas, g, s) && Servable(g, s, ops, repaired)
    modifies Footprint(replicas)
    ensures Agree(replicas, g, Outcome(g, s, ops, repaired))
    ensures replies == Replies(g, s, ops, repaired) && Threw !in replies && Crashed !in replies
  {
    hide Agree, Footprint, Separate, After, FateOf, Accepted, ReplyOf, WellFormed, Servable, Outcome, Replies;
    replies := [];
    ghost var t := s;
    var i := 0;
    while i < |ops|
      invariant 0 <= i <= |ops| && Threw !in replies && Crashed !in replies
      invariant Agree(replicas, g, t) && Servable(g, t, ops[i..], repaired)
      invariant Outcome(g, t, ops[i..], repaired) == Outcome(g, s, ops, repaired)
      invariant replies + Replies(g, t, ops[i..], repaired) == Replies(g, s, ops, repaired)
    {
      AgreedSound(replicas, g, t);
      FirstServed(g, t, ops[i..], repaired);
      assert ops[i..][1..] == ops[i + 1..];
      var r, _ := Write(replicas, ops[i], repaired, g, t);
      t := After(g, t, ops[i]);
      ghost var later := Replies(g, t, ops[i + 1..], repaired);
      assert replies + ([r] + later) == (replies + [r]) + later;
      replies := replies + [r];
      i := i + 1;
    }
    NoneLeft(g, t, ops[i..], repaired);
  }

  lemma NoneLeft(g: Geometry, s: Subgraph, ops: seq<Op>, repaired: bool)
    requires ops == [] && Servable(g, s, ops, repaired)
    ensures Outcome(g, s, ops, repaired) == s && Replies(g, s, ops, repaired) == []
  {
  }

  /** A run is its first call and the rest. */
  lemma FirstServed(g: Geometry, s: Subgraph, ops: seq<Op>, repaired: bool)
    requires WellFormed(g, s) && ops != [] && Servable(g, s, ops, repaired)
    ensures Accepted(g, s, ops[0]) && FateOf(g, s, ops[0], repaired) == Regular
    ensures var s', reply := After(g, s, ops[0]), ReplyOf(g, s, ops[0], repaired);
            && Servable(g, s', ops[1..], repaired)
            && Outcome(g, s', ops[1..], repaired) == Outcome(g, s, ops, repaired)
            && [reply] + Replies(g, s', ops[1..], repaired) == Replies(g, s, ops, repaired)
            && reply != Threw && reply != Crashed
  {
    ThrowsIff(g, s, ops[0], repaired);
  }

  /** A regular call keeps the ownership of all blocks, whichever vertex they belong to. */
  lemma RegularKeeps(g: Geometry, s: Subgraph, op: Op, repaired: bool)
    requires WellFormed(g, s) && Accepted(g, s, op) && FateOf(g, s, op, repaired) == Regular
    ensures WellFormed(g, After(g, s, op))
  {
    if Callable(g, s, op) {
      StepKeeps(g, s, op);
    } else {
      var w := Owner(s.lists, op.blkno);
      DeleteKeeps(g, s, w, IndexOf(s.lists[w], op.blkno));
    }
  }

  /** So after any run of calls every block number is exactly once on the free stack or in one list. */
  lemma {:induction false} ServedOwnership(g: Geometry, s: Subgraph, ops: seq<Op>, repaired: bool)
    requires WellFormed(g, s) && Servable(g, s, ops, repaired)
    ensures var s' := Outcome(g, s, ops, repaired);
            && WellFormed(g, s')
            && (forall b: nat :: b < s'.sup ==> Occurrences(s'.free + Concat(s'.lists), b) == 1)
            && |s'.free| + TotalLength(s'.lists) == s'.sup
    decreases |ops|
  {
    hide After, Accepted, FateOf;
    if ops == [] {
      PartitionExact(s.free, s.lists, s.sup);
    } else {
      RegularKeeps(g, s, ops[0], repaired);
      ServedOwnership(g, After(g, s, ops[0]), ops[1..], repaired);
    }
  }

  /** The runs of the abstract machine are served, and what they come to is what the replicas come to. */
  lemma {:induction false} RunsServed(g: Geometry, s: Subgraph, ops: seq<Op>, repaired: bool)
    requires WellFormed(g, s) && Runnable(g, s, ops) && (repaired || AllPopAsMeant(g, s, ops))
    ensures Servable(g, s, ops, repaired) && Outcome(g, s, ops, repaired) == Run(g, s, ops)
    decreases |ops|
  {
    if ops != [] {
      CallableAccepted(g, s, ops[0]);
      StepKeeps(g, s, ops[0]);
      hide WellFormed, Step, Accepted, Applicable;
      RunsServed(g, Step(g, s, ops[0]), ops[1..], repaired);
    }
  }

  lemma CallableAccepted(g: Geometry, s: Subgraph, op: Op)
    requires WellFormed(g, s) && Callable(g, s, op)
    ensures Accepted(g, s, op)
  {
  }

  lemma InsertionServed(g: Geometry, s: Subgraph, op: Op, repaired: bool)
    requires WellFormed(g, s) && Accepted(g, s, op) && Inserting(op) && FateOf(g, s, op, repaired) == Regular
    ensures Applicable(g, s, op) && After(g, s, op) == Step(g, s, op) && NextBlock(g, s) < 0x1_0000_0000
    ensures ReplyOf(g, s, op, repaired) == Given(NextBlock(g, s))
  {
    GrownWellFormed(g, s);
    assert NextBlock(g, s) in Grown(g, s).free;
  }

  /** From a fresh format (`n` = 0) the insertions of a run are answered with the numbers 0, 1, 2, ... */
  lemma {:induction false} SequentialReplies(g: Geometry, s: Subgraph, n: nat, ops: seq<Op>, repaired: bool)
    requires WellFormed(g, s) && Sequential(g, s, n) && Servable(g, s, ops, repaired)
    requires forall i :: 0 <= i < |ops| ==> Inserting(ops[i])
    ensures |Replies(g, s, ops, repaired)| == |ops| && n + |ops| <= g.blknoMax
    ensures forall i :: 0 <= i < |ops| ==>
      n + i < 0x1_0000_0000 && Replies(g, s, ops, repaired)[i] == Given(n + i)
    decreases |ops|
  {
    hide Accepted, FateOf, Step, After, ReplyOf, NextBlock, Applicable, Partition, Carried;
    if ops != [] {
      FirstServed(g, s, ops, repaired);
      InsertionServed(g, s, ops[0], repaired);
      SequentialStep(g, s, n, ops[0]);
      StepKeeps(g, s, ops[0]);
      SequentialReplies(g, Step(g, s, ops[0]), n + 1, ops[1..], repaired);
    }
  }

  lemma AgreedSound(replicas: seq<Storage>, g: Geometry, s: Subgraph)
    requires replicas != [] && Agree(replicas, g, s)
    ensures WellFormed(g, s)
  {
    assert Stores(replicas, 0, g, s);
  }

  lemma Apart(replicas: seq<Storage>, i: nat, j: nat)
    requires Separate(replicas) && i < |replicas| && j < |replicas| && i != j
    ensures replicas[i] != replicas[j] && replicas[i].mem != replicas[j].mem
  {
  }

  /** A call throws exactly when it is an insertion and block numbers are exhausted. */
  lemma ThrowsIff(g: Geometry, s: Subgraph, op: Op, repaired: bool)
    requires WellFormed(g, s) && Accepted(g, s, op)
    ensures ReplyOf(g, s, op, repaired) == Threw <==> Inserting(op) && !CanAllocate(g, s)
    ensures ReplyOf(g, s, op, repaired) == Threw <==> FateOf(g, s, op, repaired) == Exhausts
    ensures ReplyOf(g, s, op, repaired) == Crashed <==> FateOf(g, s, op, repaired) == Crashes
  {
    if Inserting(op) && CanAllocate(g, s) {
      GrownWellFormed(g, s);
      assert NextBlock(g, s) in Grown(g, s).free;
    }
  }
}
