/**
 End-to-end delivery on one link: `infuse` lays messages out in shared memory, they are queued on the link,
 `writer` sends them in pieces of any size, `reader` receives pieces of any size, `effuse` copies bodies out.
 */
module Delivery {
  import opened Framing
  import opened LinkReader

  datatype Option<T> = None | Some(value: T)

  // ---------------------------------------------------------------- the tap

  /** `infuse`: fills a segment field by field; refuses a message larger than a segment may be. */
  method Infuse(host: seq<Byte>, msgid: seq<Byte>, body: seq<Byte>, shmmax: nat) returns (shm: Option<seq<Byte>>)
    requires |host| < HOST_SIZE && |msgid| < MSGID_SIZE
    ensures shm == if HEADER + |body| > shmmax then None else Some(Message(host, msgid, body))
  {
    var shmsize := SIZE_FIELD + HOST_SIZE + MSGID_SIZE + |body|;
    if shmsize > shmmax {
      return None;
    }
    var buf := Zeros(shmsize);
    assert Zeros(shmsize) == [] + Zeros(shmsize);
    Paint([], shmsize, Encode(shmsize, SIZE_FIELD), SIZE_FIELD);
    buf := CopyInto(buf, 0, Encode(shmsize, SIZE_FIELD));
    ghost var a := [] + (Encode(shmsize, SIZE_FIELD) + Zeros(0));
    assert a == Encode(shmsize, SIZE_FIELD);
    Paint(a, shmsize - SIZE_FIELD, host, HOST_SIZE);
    buf := CopyInto(buf, SIZE_FIELD, host);
    ghost var b := a + (host + Zeros(HOST_SIZE - |host|));
    Paint(b, shmsize - SIZE_FIELD - HOST_SIZE, msgid, MSGID_SIZE);
    buf := CopyInto(buf, SIZE_FIELD + HOST_SIZE, msgid);
    ghost var c := b + (msgid + Zeros(MSGID_SIZE - |msgid|));
    Paint(c, |body|, body, |body|);
    buf := CopyInto(buf, HEADER, body);
    assert body + Zeros(0) == body;
    assert (c + body) + Zeros(0) == c + body;
    return Some(buf);
  }

  /** Writing a field of a zeroed segment behind the part already filled pads it with zeros. */
  lemma Paint(filled: seq<Byte>, m: nat, src: seq<Byte>, field: nat)
    requires |src| <= field <= m
    ensures CopyInto(filled + Zeros(m), |filled|, src) == (filled + (src + Zeros(field - |src|))) + Zeros(m - field)
  {
    ZerosSplit(m, |src|);
    ZerosSplit(m - |src|, field - |src|);
    hide Zeros, CopyInto;
    var padding, after := Zeros(field - |src|), Zeros(m - field);
    Overwrites(filled, Zeros(m), src);
    Associates(filled + src, padding, after);
    Associates(filled, src, padding);
  }

  lemma Overwrites(filled: seq<Byte>, zeros: seq<Byte>, src: seq<Byte>)
    requires |src| <= |zeros|
    ensures CopyInto(filled + zeros, |filled|, src) == (filled + src) + zeros[|src|..]
  {
    var z := filled + zeros;
    assert z[..|filled|] == filled;
    assert z[|filled| + |src|..] == zeros[|src|..];
  }

  lemma {:induction false} ZerosSplit(m: nat, k: nat)
    requires k <= m
    ensures Zeros(m) == Zeros(k) + Zeros(m - k) && Zeros(m)[k..] == Zeros(m - k)
  {
    if k > 0 {
      ZerosSplit(m - 1, k - 1);
    }
  }

  /** `effuse` on a token: the size field says how much body to copy. */
  method Effuse(shm: seq<Byte>) returns (body: seq<Byte>)
    requires IsFrame(shm)
    ensures body == Body(shm)
  {
    var size := SizeOf(shm) - HEADER;
    body := shm[HEADER..HEADER + size];
  }

  /** `writer` on one token, for any amounts its `send` calls offer to take (0 stands for EAGAIN). */
  method SendToken(shm: seq<Byte>, sends: seq<nat>) returns (sent: seq<Byte>, left: seq<Byte>)
    ensures sent + left == shm
    ensures |sent| == if Total(sends) <= |shm| then Total(sends) else |shm|
  {
    var size := 0;
    var i := 0;
    while i < |sends| && size < |shm|
      invariant 0 <= i <= |sends|
      invariant size == if Total(sends[..i]) <= |shm| then Total(sends[..i]) else |shm|
    {
      var s := if sends[i] <= |shm| - size then sends[i] else |shm| - size;
      assert sends[..i + 1][..i] == sends[..i];
      size := size + s;
      i := i + 1;
    }
    TotalGrows(sends, i);
    assert sends[..|sends|] == sends;
    sent, left := shm[..size], shm[size..];
  }

  ghost function Total(sends: seq<nat>): nat {
    if sends == [] then 0 else Total(sends[..|sends| - 1]) + sends[|sends| - 1]
  }

  lemma {:induction false} TotalGrows(sends: seq<nat>, i: nat)
    requires i <= |sends|
    ensures Total(sends[..i]) <= Total(sends)
  {
    if i < |sends| {
      TotalGrows(sends[..|sends| - 1], i);
      assert sends[..|sends| - 1][..i] == sends[..i];
    } else {
      assert sends[..i] == sends;
    }
  }

  // ---------------------------------------------------------------- one link, over its steps

  datatype Link = Link(
    history: seq<seq<Byte>>,   // every frame ever queued on the link
    wqueue: seq<seq<Byte>>,    // frames still queued
    current: seq<Byte>,        // unsent bytes of the frame the writer holds
    wire: seq<Byte>,           // bytes sent and not yet received
    reader: Parsed,            // frames emitted and fragment kept at the other end
    hoses: Hoses)              // queues registered there

  datatype Step =
    | Enqueue(frame: seq<Byte>)   // wresponder
    | Take                        // writer pops the next token
    | Send(n: nat)                // one send call takes n bytes
    | Receive(n: nat)             // one recv call returns n bytes

  predicate Enabled(l: Link, step: Step) {
    match step
    case Enqueue(frame) => IsFrame(frame)
    case Take => l.current == [] && l.wqueue != []
    case Send(n) => n <= |l.current|
    case Receive(n) => 0 < n <= |l.wire|
  }

  ghost function Next(l: Link, step: Step): Link
    requires Enabled(l, step)
  {
    match step
    case Enqueue(frame) => l.(history := l.history + [frame], wqueue := l.wqueue + [frame])
    case Take => l.(current := l.wqueue[0], wqueue := l.wqueue[1..])
    case Send(n) => l.(wire := l.wire + l.current[..n], current := l.current[n..])
    case Receive(n) =>
      l.(wire := l.wire[n..], reader := Feed(l.reader, l.wire[..n]), hoses := Delivered(l, n))
  }

  ghost function Delivered(l: Link, n: nat): Hoses
    requires n <= |l.wire|
  {
    FramesExhaust(l.reader.fragment + l.wire[..n]);
    DeliverAll(l.hoses, Frames(l.reader.fragment + l.wire[..n]))
  }

  ghost predicate Execution(l: Link, steps: seq<Step>)
    decreases |steps|
  {
    steps != [] ==> Enabled(l, steps[0]) && Execution(Next(l, steps[0]), steps[1..])
  }

  ghost function Final(l: Link, steps: seq<Step>): Link
    requires Execution(l, steps)
    decreases |steps|
  {
    if steps == [] then l else Final(Next(l, steps[0]), steps[1..])
  }

  /** The frames an execution queues, in order. */
  ghost function Queued(steps: seq<Step>): seq<seq<Byte>>
    decreases |steps|
  {
    if steps == [] then []
    else (if steps[0].Enqueue? then [steps[0].frame] else []) + Queued(steps[1..])
  }

  /** They are the history of the link. */
  lemma {:induction false} HistoryIsQueued(l: Link, steps: seq<Step>)
    requires Execution(l, steps)
    ensures Final(l, steps).history == l.history + Queued(steps)
    decreases |steps|
  {
    if steps == [] {
      assert l.history + [] == l.history;
    } else {
      var l' := Next(l, steps[0]);
      HistoryIsQueued(l', steps[1..]);
      if steps[0].Enqueue? {
        var now, later := [steps[0].frame], Queued(steps[1..]);
        assert (l.history + now) + later == l.history + (now + later);
      } else {
        assert [] + Queued(steps[1..]) == Queued(steps[1..]);
      }
    }
  }

  function NewLink(hoses: Hoses): Link {
    Link([], [], [], [], Parsed([], []), hoses)
  }

  /** Everything received so far. */
  ghost function Received(l: Link): seq<Byte> {
    Flatten(l.reader.emitted) + l.reader.fragment
  }

  /**
   No byte is lost, repeated or reordered: received, in flight, unsent and queued bytes are the queued
   frames end to end; and the reader's state is what parsing the received bytes gives.
   */
  ghost predicate Faithful(l: Link, hoses0: Hoses) {
    && (forall i :: 0 <= i < |l.history| ==> IsFrame(l.history[i]))
    && Received(l) + l.wire + l.current + Flatten(l.wqueue) == Flatten(l.history)
    && l.reader == ParseOf(Received(l))
    && (forall i :: 0 <= i < |l.reader.emitted| ==> HEADER <= |l.reader.emitted[i]|)
    && l.hoses == DeliverAll(hoses0, l.reader.emitted)
  }

  /** A received chunk is parsed without losing a byte. */
  lemma ChunkParsed(p: Parsed, chunk: seq<Byte>)
    ensures var p' := Feed(p, chunk);
            Flatten(p'.emitted) + p'.fragment == (Flatten(p.emitted) + p.fragment) + chunk
  {
    hide Flatten, Rest, Frames;
    var fs, rest := Frames(p.fragment + chunk), Rest(p.fragment + chunk);
    FramesExhaust(p.fragment + chunk);
    FlattenAppend(p.emitted, fs);
    var a := Flatten(p.emitted);
    assert (a + Flatten(fs)) + rest == a + (Flatten(fs) + rest);
    assert a + (p.fragment + chunk) == (a + p.fragment) + chunk;
  }

  lemma ReceiveKeeps(l: Link, n: nat, hoses0: Hoses)
    requires Faithful(l, hoses0) && 0 < n <= |l.wire|
    ensures Faithful(Next(l, Receive(n)), hoses0)
  {
    hide Frames, Rest, Flatten, IsFrame, ParseOf;
    var chunk, r := l.wire[..n], Received(l);
    var l' := Next(l, Receive(n));
    ChunkParsed(l.reader, chunk);
    FeedContinues(r, chunk);
    ReceivedFrames(l.reader.fragment + chunk);
    assert (r + chunk) + l.wire[n..] == r + l.wire;
    DeliverAllAppend(hoses0, l.reader.emitted, Frames(l.reader.fragment + chunk));
  }

  lemma ReceivedFrames(s: seq<Byte>)
    ensures forall i :: 0 <= i < |Frames(s)| ==> HEADER <= |Frames(s)[i]|
  {
    FramesExhaust(s);
  }

  lemma EnqueueKeeps(l: Link, frame: seq<Byte>, hoses0: Hoses)
    requires Faithful(l, hoses0) && IsFrame(frame)
    ensures Faithful(Next(l, Enqueue(frame)), hoses0)
  {
    assert Flatten([frame]) == frame;
    hide Frames, Rest, ParseOf, DeliverAll, IsFrame, Flatten;
    FlattenAppend(l.history, [frame]);
    FlattenAppend(l.wqueue, [frame]);
    var a := Received(l) + l.wire + l.current;
    assert a + (Flatten(l.wqueue) + frame) == (a + Flatten(l.wqueue)) + frame;
  }

  lemma TakeKeeps(l: Link, hoses0: Hoses)
    requires Faithful(l, hoses0) && l.current == [] && l.wqueue != []
    ensures Faithful(Next(l, Take), hoses0)
  {
    hide Frames, Rest, ParseOf, DeliverAll, IsFrame;
    var a, w := Received(l) + l.wire, l.wqueue[0];
    assert (a + []) + (w + Flatten(l.wqueue[1..])) == (a + w) + Flatten(l.wqueue[1..]);
  }

  lemma SendKeeps(l: Link, n: nat, hoses0: Hoses)
    requires Faithful(l, hoses0) && n <= |l.current|
    ensures Faithful(Next(l, Send(n)), hoses0)
  {
    hide Frames, Rest, ParseOf, DeliverAll, IsFrame, Flatten;
    assert Received(l) + (l.wire + l.current[..n]) + l.current[n..] == Received(l) + l.wire + l.current;
  }

  lemma StepKeeps(l: Link, step: Step, hoses0: Hoses)
    requires Faithful(l, hoses0) && Enabled(l, step)
    ensures Faithful(Next(l, step), hoses0)
  {
    hide Faithful, Next;
    match step
    case Enqueue(frame) => EnqueueKeeps(l, frame, hoses0);
    case Take => TakeKeeps(l, hoses0);
    case Send(n) => SendKeeps(l, n, hoses0);
    case Receive(n) => ReceiveKeeps(l, n, hoses0);
  }

  lemma {:induction false} ExecutionKeeps(l: Link, steps: seq<Step>, hoses0: Hoses)
    requires Faithful(l, hoses0) && Execution(l, steps)
    ensures Faithful(Final(l, steps), hoses0)
    decreases |steps|
  {
    if steps != [] {
      StepKeeps(l, steps[0], hoses0);
      ExecutionKeeps(Next(l, steps[0]), steps[1..], hoses0);
    }
  }

  lemma NewLinkFaithful(hoses0: Hoses)
    ensures Faithful(NewLink(hoses0), hoses0)
  {
    assert Received(NewLink(hoses0)) == [];
  }

  /** The frames emitted are the first frames queued, all of them once nothing is in flight. */
  lemma EmittedFirst(l: Link, hoses0: Hoses)
    requires Faithful(l, hoses0)
    ensures l.reader.emitted <= l.history
    ensures l.wqueue == [] && l.current == [] && l.wire == [] ==> l.reader.emitted == l.history
  {
    hide Frames, Rest, WellFramed, DeliverAll;
    var rest := l.wire + l.current + Flatten(l.wqueue);
    assert Received(l) + rest == Received(l) + l.wire + l.current + Flatten(l.wqueue);
    FramesOfPrefix(l.history, Received(l));
  }

  /**
   Delivery: in every execution of a fresh link, the frames emitted are the first frames queued, in order;
   each registered queue holds exactly those of them with its id; and when nothing is in flight all arrived.
   */
  lemma InOrderDelivery(hoses0: Hoses, steps: seq<Step>)
    requires Execution(NewLink(hoses0), steps)
    ensures var l := Final(NewLink(hoses0), steps);
            && l.history == Queued(steps) && l.reader.emitted <= Queued(steps)
            && (forall i :: 0 <= i < |l.reader.emitted| ==> HEADER <= |l.reader.emitted[i]|)
            && (forall id :: id in hoses0 ==> id in l.hoses && l.hoses[id] == hoses0[id] + For(id, l.reader.emitted))
            && (l.wqueue == [] && l.current == [] && l.wire == [] ==> l.reader.emitted == Queued(steps))
  {
    var l := Final(NewLink(hoses0), steps);
    HistoryIsQueued(NewLink(hoses0), steps);
    assert [] + Queued(steps) == Queued(steps);
    NewLinkFaithful(hoses0);
    ExecutionKeeps(NewLink(hoses0), steps, hoses0);
    EmittedFirst(l, hoses0);
    hide Final, Execution, ParseOf, IsFrame, DeliverAll, Next, NewLink;
    forall id | id in hoses0
      ensures id in l.hoses && l.hoses[id] == hoses0[id] + For(id, l.reader.emitted)
    {
      DeliverAllRoutes(hoses0, l.reader.emitted, id);
    }
  }

  /** What `infuse` is given for one message. */
  datatype Letter = Letter(host: seq<Byte>, id: seq<Byte>, body: seq<Byte>)

  /** The link carries exactly these messages, in this order. */
  ghost predicate Carries(frames: seq<seq<Byte>>, letters: seq<Letter>) {
    && |frames| == |letters|
    && forall i :: 0 <= i < |frames| ==> IsLetter(frames[i], letters[i])
  }

  ghost predicate IsLetter(frame: seq<Byte>, letter: Letter) {
    && |letter.host| < HOST_SIZE && |letter.id| < MSGID_SIZE && NoZero(letter.id)
    && HEADER + |letter.body| < Capacity(SIZE_FIELD)
    && frame == Message(letter.host, letter.id, letter.body)
  }

  /** The bodies put in under one id, in order. */
  ghost function Addressed(id: seq<Byte>, letters: seq<Letter>): seq<seq<Byte>> {
    if letters == [] then []
    else
      var last := letters[|letters| - 1];
      Addressed(id, letters[..|letters| - 1]) + if last.id == id then [last.body] else []
  }

  lemma {:induction false} AddressedPrefix(id: seq<Byte>, letters: seq<Letter>, n: nat)
    requires n <= |letters|
    ensures Addressed(id, letters[..n]) <= Addressed(id, letters)
  {
    if n < |letters| {
      AddressedPrefix(id, letters[..|letters| - 1], n);
      assert letters[..|letters| - 1][..n] == letters[..n];
    } else {
      assert letters[..n] == letters;
    }
  }

  /** The frames in a queue are whole and have these bodies. */
  ghost predicate Bodies(frames: seq<seq<Byte>>, bodies: seq<seq<Byte>>) {
    |frames| == |bodies| && forall i :: 0 <= i < |frames| ==> IsFrame(frames[i]) && Body(frames[i]) == bodies[i]
  }

  /** The frames for one id have the bodies put in under that id. */
  lemma {:induction false} ForAddressed(id: seq<Byte>, frames: seq<seq<Byte>>, letters: seq<Letter>)
    requires Carries(frames, letters) && forall i :: 0 <= i < |frames| ==> HEADER <= |frames[i]|
    ensures Bodies(For(id, frames), Addressed(id, letters))
  {
    if frames != [] {
      var n := |frames| - 1;
      ForAddressed(id, frames[..n], letters[..n]);
      assert IsLetter(frames[n], letters[n]);
      MessageRoundTrip(letters[n].host, letters[n].id, letters[n].body);
    }
  }

  /** The first frames of a link have the first bodies put in under any id. */
  lemma EmittedBodies(history: seq<seq<Byte>>, emitted: seq<seq<Byte>>, letters: seq<Letter>, id: seq<Byte>)
    requires Carries(history, letters) && emitted <= history
    requires forall i :: 0 <= i < |emitted| ==> HEADER <= |emitted[i]|
    ensures var got, put := For(id, emitted), Addressed(id, letters);
            && |got| <= |put| && Bodies(got, put[..|got|])
            && (emitted == history ==> Bodies(got, put))
  {
    var n := |emitted|;
    hide IsLetter, For, Addressed, Bodies;
    assert forall i :: 0 <= i < n ==> emitted[i] == history[i];
    ForAddressed(id, emitted, letters[..n]);
    AddressedPrefix(id, letters, n);
    var first, put := Addressed(id, letters[..n]), Addressed(id, letters);
    SameNumber(For(id, emitted), first);
    assert put[..|first|] == first;
    assert emitted == history ==> letters[..n] == letters;
  }

  /**
   End to end: for every registered id, whatever other ids share the link, the bodies `effuse` copies out of
   its queue are a prefix, in order, of the bodies handed to `infuse` under that id, for all partial sends and
   all splits of the received stream; and all of them once nothing is in flight.
   */
  lemma EndToEnd(hoses0: Hoses, steps: seq<Step>, letters: seq<Letter>, id: seq<Byte>)
    requires Execution(NewLink(hoses0), steps) && Carries(Queued(steps), letters)
    requires id in hoses0 && hoses0[id] == []
    ensures var l := Final(NewLink(hoses0), steps);
            && id in l.hoses && |l.hoses[id]| <= |Addressed(id, letters)|
            && Bodies(l.hoses[id], Addressed(id, letters)[..|l.hoses[id]|])
            && (l.wqueue == [] && l.current == [] && l.wire == [] ==> Bodies(l.hoses[id], Addressed(id, letters)))
  {
    InOrderDelivery(hoses0, steps);
    var l := Final(NewLink(hoses0), steps);
    hide *;
    EmittedBodies(Queued(steps), l.reader.emitted, letters, id);
    assert [] + For(id, l.reader.emitted) == For(id, l.reader.emitted);
  }

  lemma SameNumber(frames: seq<seq<Byte>>, bodies: seq<seq<Byte>>)
    requires Bodies(frames, bodies)
    ensures |frames| == |bodies|
  {
  }

  // ---------------------------------------------------------------- the steps are what the code does

  /** The reader object has received what the link's reader has. */
  ghost predicate Represents(r: Reader, l: Link)
    reads r
  {
    r.Valid() && r.received == Received(l) && r.hoses == l.hoses
  }

  /** Handling one received chunk is one `Receive` step. */
  method ReceiveChunk(r: Reader, buff: seq<Byte>, ghost l: Link, ghost hoses0: Hoses)
    requires Faithful(l, hoses0) && Represents(r, l) && buff != [] && buff <= l.wire
    modifies r
    ensures Enabled(l, Receive(|buff|)) && Represents(r, Next(l, Receive(|buff|)))
  {
    ghost var received := Received(l);
    assert l.reader.fragment == Rest(received);
    hide Frames, Rest, IsFrame, Flatten, WellFramed, ParseOf;
    assert l.wire == buff + l.wire[|buff|..];
    ghost var rest := l.wire[|buff|..] + l.current + Flatten(l.wqueue);
    assert (received + buff) + rest == received + l.wire + l.current + Flatten(l.wqueue);
    FramesOfPrefix(l.history, received + buff);
    ChunkParsed(l.reader, buff);
    r.HandleChunk(buff);
  }

  /** An execution is its first step and the rest. */
  lemma Onward(l: Link, step: Step, steps: seq<Step>)
    requires steps != [] && steps[0] == step && Enabled(l, step) && Execution(Next(l, step), steps[1..])
    ensures Execution(l, steps) && Final(l, steps) == Final(Next(l, step), steps[1..])
  {
  }

  /** The send calls for a token, each taking what it was offered or what is left. */
  function Sends(size: nat, sends: seq<nat>): seq<Step>
    decreases |sends|
  {
    if sends == [] then []
    else var n := Min(sends[0], size); [Send(n)] + Sends(size - n, sends[1..])
  }

  lemma {:induction false} TotalFront(sends: seq<nat>)
    requires sends != []
    ensures Total(sends) == sends[0] + Total(sends[1..])
  {
    if |sends| > 1 {
      TotalFront(sends[..|sends| - 1]);
      assert sends[..|sends| - 1][1..] == sends[1..][..|sends| - 2];
    }
  }

  /** The first `m` unsent bytes are on the wire. */
  ghost function Moved(l: Link, m: nat): Link
    requires m <= |l.current|
  {
    l.(wire := l.wire + l.current[..m], current := l.current[m..])
  }

  lemma MovedOn(l: Link, n: nat, m: nat)
    requires n + m <= |l.current|
    ensures Moved(Moved(l, n), m) == Moved(l, n + m)
  {
    assert (l.wire + l.current[..n]) + l.current[n..][..m] == l.wire + l.current[..n + m];
    assert l.current[n..][m..] == l.current[n + m..];
  }

  function Min(a: nat, b: nat): nat {
    if a <= b then a else b
  }

  /** One send call and what follows it. */
  lemma SendThen(l: Link, n: nat, rest: seq<Step>, m: nat)
    requires n + m <= |l.current|
    requires Execution(Moved(l, n), rest) && Final(Moved(l, n), rest) == Moved(Moved(l, n), m)
    ensures Execution(l, [Send(n)] + rest) && Final(l, [Send(n)] + rest) == Moved(l, n + m)
  {
    MovedOn(l, n, m);
    assert Enabled(l, Send(n)) && Next(l, Send(n)) == Moved(l, n);
    assert ([Send(n)] + rest)[1..] == rest;
    hide Execution, Final, Next, Enabled, Moved;
    Onward(l, Send(n), [Send(n)] + rest);
  }

  /** They move the first bytes of the token to the wire, as many as they offer or as it has. */
  lemma {:induction false} SendsRun(l: Link, sends: seq<nat>)
    ensures var steps := Sends(|l.current|, sends);
            Execution(l, steps) && Final(l, steps) == Moved(l, Min(Total(sends), |l.current|))
    decreases |sends|
  {
    if sends == [] {
      assert l.wire + l.current[..0] == l.wire;
    } else {
      var n := Min(sends[0], |l.current|);
      var l', rest := Moved(l, n), sends[1..];
      assert |l'.current| == |l.current| - n;
      hide Execution, Final, Moved;
      SendsRun(l', rest);
      TotalFront(sends);
      hide Total;
      SendThen(l, n, Sends(|l'.current|, rest), Min(Total(rest), |l'.current|));
    }
  }

  /** The writer's loop on the next token is a `Take` step and `Send` steps. */
  method TakeAndSend(sends: seq<nat>, ghost l: Link, shm: seq<Byte>) returns (sent: seq<Byte>, left: seq<Byte>)
    requires l.current == [] && l.wqueue != [] && shm == l.wqueue[0]
    ensures Execution(l, [Take] + Sends(|shm|, sends))
    ensures Final(l, [Take] + Sends(|shm|, sends))
         == l.(wqueue := l.wqueue[1..], wire := l.wire + sent, current := left)
  {
    sent, left := SendToken(shm, sends);
    assert sent == shm[..|sent|] && left == shm[|sent|..];
    SendsRun(Next(l, Take), sends);
    ghost var steps := [Take] + Sends(|shm|, sends);
    assert steps[1..] == Sends(|shm|, sends);
    hide Total, Sends, Feed;
    Onward(l, Take, steps);
  }
}
