/**
 The daemon's count of attached shared-memory segments (`shm_manager_t`) under every interleaving of its
 threads.  A step is one call on the manager together with the queue operation it belongs to.
 */
module ShmAccounting {
  import opened Framing
  import opened LinkReader

  datatype State = State(
    shmseg: nat,
    count: nat,
    sized: set<nat>,          // links whose cached fragment has a segment attached
    outgoing: seq<nat>,       // tokens waiting in each link's write queue
    delayed: bool,            // the token whose release the writer has put off
    local: nat,               // local deliveries between their require and their release
    lost: nat)                // tokens attached for a destination that is no link

  datatype Step =
    | ReaderSized(link: nat)      // the size field is known: require
    | ReaderDone(link: nat)       // the frame is complete: release
    | QueueRemote(link: nat)      // wresponder: require, then push on the link's queue
    | QueueUnknown                // wresponder: require for a host that is no link
    | WriterTake(link: nat)       // writer: pop a token, release the delayed one, delay this one
    | LocalAttach                 // wresponder, local destination: require
    | LocalDetach                 // ... and release

  /** `require` waits while the count has reached the limit. */
  predicate CanRequire(s: State) {
    s.count != s.shmseg
  }

  predicate Enabled(s: State, step: Step) {
    match step
    case ReaderSized(link) => CanRequire(s) && link !in s.sized
    case ReaderDone(link) => link in s.sized && s.count != 0
    case QueueRemote(link) => CanRequire(s) && link < |s.outgoing|
    case QueueUnknown => CanRequire(s)
    case WriterTake(link) => link < |s.outgoing| && s.outgoing[link] > 0 && (s.delayed ==> s.count != 0)
    case LocalAttach => CanRequire(s)
    case LocalDetach => s.local > 0 && s.count != 0
  }

  function Next(s: State, step: Step): State
    requires Enabled(s, step)
  {
    match step
    case ReaderSized(link) => s.(count := s.count + 1, sized := s.sized + {link})
    case ReaderDone(link) => s.(count := s.count - 1, sized := s.sized - {link})
    case QueueRemote(link) => s.(count := s.count + 1, outgoing := s.outgoing[link := s.outgoing[link] + 1])
    case QueueUnknown => s.(count := s.count + 1, lost := s.lost + 1)
    case WriterTake(link) =>
      s.(count := if s.delayed then s.count - 1 else s.count,
         outgoing := s.outgoing[link := s.outgoing[link] - 1],
         delayed := true)
    case LocalAttach => s.(count := s.count + 1, local := s.local + 1)
    case LocalDetach => s.(count := s.count - 1, local := s.local - 1)
  }

  /** The tokens in all write queues. */
  ghost function Queued(outgoing: seq<nat>): nat {
    if outgoing == [] then 0 else Queued(outgoing[..|outgoing| - 1]) + outgoing[|outgoing| - 1]
  }

  lemma {:induction false} QueuedUpdate(outgoing: seq<nat>, link: nat, n: nat)
    requires link < |outgoing|
    ensures Queued(outgoing[link := n]) == Queued(outgoing) - outgoing[link] + n
  {
    var init := outgoing[..|outgoing| - 1];
    if link < |init| {
      QueuedUpdate(init, link, n);
      assert outgoing[link := n][..|outgoing| - 1] == init[link := n];
    } else {
      assert outgoing[link := n][..|outgoing| - 1] == init;
    }
  }

  /** The count is what is attached: fragments, queued tokens, the delayed token, local deliveries and losses. */
  ghost predicate Accounted(s: State) {
    && s.count == |s.sized| + Queued(s.outgoing) + (if s.delayed then 1 else 0) + s.local + s.lost
    && s.count <= s.shmseg
  }

  lemma StepAccounted(s: State, step: Step)
    requires Accounted(s) && Enabled(s, step)
    ensures Accounted(Next(s, step))
  {
    match step
    case QueueRemote(link) => QueuedUpdate(s.outgoing, link, s.outgoing[link] + 1);
    case WriterTake(link) => QueuedUpdate(s.outgoing, link, s.outgoing[link] - 1);
    case _ =>
  }

  ghost predicate Execution(s: State, steps: seq<Step>)
    decreases |steps|
  {
    steps != [] ==> Enabled(s, steps[0]) && Execution(Next(s, steps[0]), steps[1..])
  }

  ghost function Final(s: State, steps: seq<Step>): State
    requires Execution(s, steps)
    decreases |steps|
  {
    if steps == [] then s else Final(Next(s, steps[0]), steps[1..])
  }

  /** How often a token was attached for a destination that is no link. */
  ghost function Unknowns(steps: seq<Step>): nat
    decreases |steps|
  {
    if steps == [] then 0 else (if steps[0].QueueUnknown? then 1 else 0) + Unknowns(steps[1..])
  }

  /** In every interleaving the count is accounted for and in bounds, and exactly the unknown destinations are lost. */
  lemma {:induction false} AlwaysAccounted(s: State, steps: seq<Step>)
    requires Accounted(s) && Execution(s, steps)
    ensures Accounted(Final(s, steps)) && Final(s, steps).lost == s.lost + Unknowns(steps)
    ensures Final(s, steps).shmseg == s.shmseg
    decreases |steps|
  {
    if steps != [] {
      StepAccounted(s, steps[0]);
      AlwaysAccounted(Next(s, steps[0]), steps[1..]);
    }
  }

  /** How often a step occurs in an execution. */
  ghost function Times(steps: seq<Step>, step: Step): nat
    decreases |steps|
  {
    if steps == [] then 0 else (if steps[0] == step then 1 else 0) + Times(steps[1..], step)
  }

  /**
   In every interleaving each link holds what was queued on it less what was taken from it, a fragment is sized
   when it was sized once more than it was done, and the same goes for local deliveries and losses.
   */
  lemma {:induction false} PerLink(s: State, steps: seq<Step>, link: nat)
    requires Execution(s, steps) && link < |s.outgoing|
    ensures var t := Final(s, steps);
      && |t.outgoing| == |s.outgoing|
      && t.outgoing[link] == s.outgoing[link] + Times(steps, QueueRemote(link)) - Times(steps, WriterTake(link))
      && (if link in t.sized then 1 else 0)
           == (if link in s.sized then 1 else 0) + Times(steps, ReaderSized(link)) - Times(steps, ReaderDone(link))
      && t.local == s.local + Times(steps, LocalAttach) - Times(steps, LocalDetach)
      && t.lost == s.lost + Times(steps, QueueUnknown)
      && (t.delayed <==> s.delayed || exists l :: Times(steps, WriterTake(l)) > 0)
    decreases |steps|
  {
    if steps != [] {
      PerLink(Next(s, steps[0]), steps[1..], link);
      TakenOrNot(steps);
    }
  }

  lemma TakenOrNot(steps: seq<Step>)
    requires steps != []
    ensures (exists l :: Times(steps, WriterTake(l)) > 0) <==>
      steps[0].WriterTake? || exists l :: Times(steps[1..], WriterTake(l)) > 0
  {
    if steps[0].WriterTake? {
      assert Times(steps, WriterTake(steps[0].link)) > 0;
    }
    if l :| Times(steps[1..], WriterTake(l)) > 0 {
      assert Times(steps, WriterTake(l)) > 0;
    }
  }

  function Initial(shmseg: nat, outgoing: seq<nat>): State {
    State(shmseg, 0, {}, outgoing, false, 0, 0)
  }

  /**
   Between local deliveries, the count is the sized fragments plus the queued tokens plus the delayed one
   exactly when no message was ever addressed to an unknown host.
   */
  lemma CountExactIff(shmseg: nat, outgoing: seq<nat>, steps: seq<Step>)
    requires Queued(outgoing) == 0 && Execution(Initial(shmseg, outgoing), steps)
    requires Final(Initial(shmseg, outgoing), steps).local == 0
    ensures var s := Final(Initial(shmseg, outgoing), steps);
            && s.count <= shmseg
            && (s.count == |s.sized| + Queued(s.outgoing) + (if s.delayed then 1 else 0) <==> Unknowns(steps) == 0)
  {
    AlwaysAccounted(Initial(shmseg, outgoing), steps);
  }

  // ---------------------------------------------------------------- starvation

  /** A token that was ever queued stays attached: the last one taken is released only for the next. */
  ghost predicate Pinning(s: State) {
    s.delayed || Queued(s.outgoing) > 0
  }

  /** What no thread will ever give back: the losses, and one token once any was queued. */
  ghost function Pinned(s: State): nat {
    s.lost + if Pinning(s) then 1 else 0
  }

  /** Some continuation comes to a state in which a segment can be required. */
  ghost predicate Recovers(s: State) {
    exists steps :: Execution(s, steps) && CanRequire(Final(s, steps))
  }

  lemma {:induction false} QueuedAt(outgoing: seq<nat>, link: nat)
    requires link < |outgoing|
    ensures outgoing[link] <= Queued(outgoing)
  {
    if link < |outgoing| - 1 {
      QueuedAt(outgoing[..|outgoing| - 1], link);
    }
  }

  lemma PinnedStep(s: State, step: Step)
    requires Enabled(s, step)
    ensures Pinning(Next(s, step)) <==> Pinning(s) || step.QueueRemote?
    ensures Next(s, step).lost == s.lost + if step.QueueUnknown? then 1 else 0
  {
    match step
    case QueueRemote(link) => QueuedUpdate(s.outgoing, link, s.outgoing[link] + 1);
    case WriterTake(link) => QueuedAt(s.outgoing, link);
    case _ =>
  }

  /** Whether a message for another host was ever queued. */
  ghost predicate Remote(steps: seq<Step>) {
    exists i :: 0 <= i < |steps| && steps[i].QueueRemote?
  }

  /** In every execution the messages for unknown hosts are pinned, and one token once any other was queued. */
  lemma {:induction false} PinnedAfter(s: State, steps: seq<Step>)
    requires Execution(s, steps)
    ensures Final(s, steps).lost == s.lost + Unknowns(steps)
    ensures Pinning(Final(s, steps)) <==> Pinning(s) || Remote(steps)
    decreases |steps|
  {
    if steps != [] {
      PinnedStep(s, steps[0]);
      PinnedAfter(Next(s, steps[0]), steps[1..]);
      assert Remote(steps) <==> steps[0].QueueRemote? || Remote(steps[1..]) by {
        if Remote(steps[1..]) {
          var i :| 0 <= i < |steps[1..]| && steps[1..][i].QueueRemote?;
          assert steps[i + 1].QueueRemote?;
        }
        if Remote(steps) && !steps[0].QueueRemote? {
          var i :| 0 <= i < |steps| && steps[i].QueueRemote?;
          assert steps[1..][i - 1].QueueRemote?;
        }
      }
    }
  }

  /** What is pinned is attached. */
  lemma PinnedCounted(s: State)
    requires Accounted(s)
    ensures Pinned(s) <= s.count
  {
  }

  ghost function Busy(s: State): nat {
    |s.sized| + s.local + Queued(s.outgoing)
  }

  lemma {:induction false} SomeQueued(outgoing: seq<nat>) returns (link: nat)
    requires Queued(outgoing) > 0
    ensures link < |outgoing| && outgoing[link] > 0
  {
    if outgoing[|outgoing| - 1] > 0 {
      link := |outgoing| - 1;
    } else {
      link := SomeQueued(outgoing[..|outgoing| - 1]);
    }
  }

  /** A step that ends a frame, a local delivery or the wait of a token. */
  lemma WindDown(s: State) returns (step: Step)
    requires Accounted(s) && Busy(s) > 0
    ensures Enabled(s, step) && Busy(Next(s, step)) < Busy(s)
    ensures !step.QueueRemote? && !step.QueueUnknown? && Next(s, step).shmseg == s.shmseg
  {
    if s.sized != {} {
      var link :| link in s.sized;
      step := ReaderDone(link);
    } else if s.local > 0 {
      step := LocalDetach;
    } else {
      var link := SomeQueued(s.outgoing);
      QueuedUpdate(s.outgoing, link, s.outgoing[link] - 1);
      step := WriterTake(link);
    }
  }

  /** The threads can always come to rest, and then nothing but what is pinned is attached. */
  lemma {:induction false} Drain(s: State) returns (steps: seq<Step>)
    requires Accounted(s)
    ensures Execution(s, steps) && Accounted(Final(s, steps)) && Busy(Final(s, steps)) == 0
    ensures Pinned(Final(s, steps)) == Pinned(s) && Final(s, steps).shmseg == s.shmseg
    decreases Busy(s)
  {
    if Busy(s) == 0 {
      steps := [];
    } else {
      var step := WindDown(s);
      StepAccounted(s, step);
      PinnedStep(s, step);
      var rest := Drain(Next(s, step));
      steps := [step] + rest;
      assert steps[1..] == rest;
    }
  }

  /**
   Starvation: from any state a segment can be required again, in some continuation, if and only if less than
   the limit is pinned.
   */
  lemma RecoversIff(s: State)
    requires Accounted(s)
    ensures Recovers(s) <==> Pinned(s) < s.shmseg
  {
    var steps := Drain(s);
    assert Pinned(s) < s.shmseg ==> CanRequire(Final(s, steps));
    if Recovers(s) {
      var some :| Execution(s, some) && CanRequire(Final(s, some));
      AlwaysAccounted(s, some);
      PinnedAfter(s, some);
      PinnedCounted(Final(s, some));
    }
  }

  /**
   From a fresh daemon: after any execution a segment can be required again if and only if the messages for
   unknown hosts, and one more if any other message was queued, are fewer than the limit.
   */
  lemma StarvesIff(shmseg: nat, outgoing: seq<nat>, steps: seq<Step>)
    requires Queued(outgoing) == 0 && Execution(Initial(shmseg, outgoing), steps)
    ensures Recovers(Final(Initial(shmseg, outgoing), steps)) <==>
      Unknowns(steps) + (if Remote(steps) then 1 else 0) < shmseg
  {
    AlwaysAccounted(Initial(shmseg, outgoing), steps);
    PinnedAfter(Initial(shmseg, outgoing), steps);
    RecoversIff(Final(Initial(shmseg, outgoing), steps));
  }

  /** With room for one segment, a single message for a known host is enough. */
  lemma OneMessageStarves()
    ensures var s := Initial(1, [0]);
            && Execution(s, [QueueRemote(0), WriterTake(0)])
            && Final(s, [QueueRemote(0), WriterTake(0)]).lost == 0
            && !Recovers(Final(s, [QueueRemote(0), WriterTake(0)]))
  {
    var s, steps := Initial(1, [0]), [QueueRemote(0), WriterTake(0)];
    assert steps[1..] == [WriterTake(0)] && steps[1..][1..] == [];
    assert Execution(Next(s, steps[0]), steps[1..]);
    assert Queued([0]) == 0;
    assert steps[0].QueueRemote?;
    StarvesIff(1, [0], steps);
    PinnedAfter(s, steps);
  }

  /**
   The lost attachments are never given back: once as many messages as the limit went to unknown hosts, no
   segment can be required again, whatever the threads do.
   */
  lemma LossIsForGood(s: State, steps: seq<Step>)
    requires Accounted(s) && s.lost == s.shmseg && Execution(s, steps)
    ensures !CanRequire(Final(s, steps))
  {
    RecoversIff(s);
  }

  /** As many messages to unknown hosts as the limit, one after the other, lose every segment. */
  lemma {:induction false} LossReached(s: State, n: nat)
    requires s.lost + n <= s.shmseg && s.count == s.lost
    ensures var steps := seq(n, _ => QueueUnknown);
            && Execution(s, steps)
            && Final(s, steps) == s.(count := s.count + n, lost := s.lost + n)
    decreases n
  {
    if n > 0 {
      var s' := Next(s, QueueUnknown);
      LossReached(s', n - 1);
      assert seq(n, _ => QueueUnknown)[1..] == seq(n - 1, _ => QueueUnknown);
    }
  }

  /** So a fresh daemon can be brought to where it can never require a segment again. */
  lemma StarvedFromStart(shmseg: nat, outgoing: seq<nat>, later: seq<Step>)
    requires Queued(outgoing) == 0
    ensures var steps := seq(shmseg, _ => QueueUnknown);
            && Execution(Initial(shmseg, outgoing), steps)
            && (Execution(Final(Initial(shmseg, outgoing), steps), later) ==>
                 !CanRequire(Final(Final(Initial(shmseg, outgoing), steps), later)))
  {
    var s, steps := Initial(shmseg, outgoing), seq(shmseg, _ => QueueUnknown);
    LossReached(s, shmseg);
    AlwaysAccounted(s, steps);
    if Execution(Final(s, steps), later) {
      LossIsForGood(Final(s, steps), later);
    }
  }

  // ---------------------------------------------------------------- the reader's steps are what the code does

  /** The reader's calls on the manager, as steps of its link. */
  function StepsOf(link: nat, calls: seq<SegmentCall>): seq<Step> {
    seq(|calls|, i requires 0 <= i < |calls| =>
      if calls[i] == Attach then ReaderSized(link) else ReaderDone(link))
  }

  /** What they make of the state: the link holds a segment or not, and everything else is as it was. */
  ghost function WithReader(s: State, link: nat, held: bool): State {
    s.(sized := if held then s.sized + {link} else s.sized - {link},
       count := s.count + (if held then 1 else 0) - (if link in s.sized && s.count > 0 then 1 else 0))
  }

  /** The calls attach and detach by turns; a held segment is detached first. */
  ghost predicate ByTurns(calls: seq<SegmentCall>, held: bool) {
    calls != [] ==> (calls[0] == Attach <==> !held) && ByTurns(calls[1..], !held)
  }

  ghost predicate HeldAfter(calls: seq<SegmentCall>, held: bool) {
    if calls == [] then held else HeldAfter(calls[1..], !held)
  }

  lemma {:induction false} TurnsAt(calls: seq<SegmentCall>, held: bool)
    requires forall i :: 0 <= i < |calls| ==> (calls[i] == Attach <==> (i % 2 == 0) == !held)
    ensures ByTurns(calls, held) && HeldAfter(calls, held) == ((|calls| % 2 == 0) == held)
  {
    if calls != [] {
      var rest := calls[1..];
      forall i | 0 <= i < |rest| ensures rest[i] == Attach <==> (i % 2 == 0) == held {
        assert rest[i] == calls[i + 1];
      }
      TurnsAt(rest, !held);
    }
  }

  lemma NewCalls(before: seq<SegmentCall>, calls: seq<SegmentCall>, held: nat, held': nat, n: nat, n': nat)
    requires before <= calls && held <= 1 && held' <= 1
    requires |before| == 2 * n + held && |calls| == 2 * n' + held'
    requires forall i :: 0 <= i < |calls| ==> (calls[i] == Attach <==> i % 2 == 0)
    ensures ByTurns(calls[|before|..], held == 1) && HeldAfter(calls[|before|..], held == 1) == (held' == 1)
  {
    var rest := calls[|before|..];
    forall i | 0 <= i < |rest| ensures rest[i] == Attach <==> (i % 2 == 0) == (held == 0) {
      assert rest[i] == calls[|before| + i];
    }
    TurnsAt(rest, held == 1);
  }

  lemma ReaderStep(s: State, link: nat, step: Step, held: bool)
    requires Accounted(s) && Enabled(s, step) && step == if link in s.sized then ReaderDone(link) else ReaderSized(link)
    ensures WithReader(Next(s, step), link, held) == WithReader(s, link, held)
    ensures Accounted(Next(s, step)) && (link in Next(s, step).sized <==> link !in s.sized)
    ensures link in Next(s, step).sized || CanRequire(Next(s, step))
  {
    StepAccounted(s, step);
    var t := Next(s, step);
    assert t.sized + {link} == s.sized + {link} && t.sized - {link} == s.sized - {link};
  }

  /** Calls by turns are steps that can be taken, whenever the first one can. */
  lemma {:induction false} ReaderRuns(s: State, link: nat, calls: seq<SegmentCall>)
    requires Accounted(s) && (link in s.sized || CanRequire(s)) && ByTurns(calls, link in s.sized)
    ensures Execution(s, StepsOf(link, calls))
    ensures Final(s, StepsOf(link, calls)) == WithReader(s, link, HeldAfter(calls, link in s.sized))
    decreases |calls|
  {
    if calls == [] {
      assert s.sized + {link} == s.sized || s.sized - {link} == s.sized;
    } else {
      var step, rest := StepsOf(link, calls)[0], calls[1..];
      assert StepsOf(link, calls)[1..] == StepsOf(link, rest);
      assert Enabled(s, step);
      ReaderStep(s, link, step, HeldAfter(calls, link in s.sized));
      hide Accounted, WithReader, Enabled;
      ReaderRuns(Next(s, step), link, rest);
    }
  }

  /** The state counts the reader's segment. */
  ghost predicate Counts(s: State, link: nat, r: Reader)
    reads r
  {
    r.Valid() && (link in s.sized <==> r.attached == 1)
  }

  /**
   Handling one received chunk is a run of `ReaderSized` and `ReaderDone` steps of the link: two for every frame
   it completes, one less if a segment was held before, one more if one is held after.
   */
  method ReadChunk(r: Reader, buff: seq<Byte>, ghost s: State, ghost link: nat) returns (ghost steps: seq<Step>)
    requires Accounted(s) && Counts(s, link, r) && (CanRequire(s) || link in s.sized)
    requires buff != [] && WellFramed(r.received + buff)
    modifies r
    ensures Execution(s, steps) && Counts(Final(s, steps), link, r)
    ensures Final(s, steps) == WithReader(s, link, r.attached == 1)
    ensures |steps| == 2 * |Completed(old(r.received), buff)| + r.attached - old(r.attached)
    ensures forall i :: 0 <= i < |steps| ==> steps[i] == ReaderSized(link) || steps[i] == ReaderDone(link)
  {
    ghost var before := r.calls;
    r.HandleChunk(buff);
    ghost var calls := r.calls[|before|..];
    steps := StepsOf(link, calls);
    FramesAppend(old(r.received), buff);
    NewCalls(before, r.calls, old(r.attached), r.attached, |old(r.emitted)|, |r.emitted|);
    hide *;
    ReaderRuns(s, link, calls);
  }
}
