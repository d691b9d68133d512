/**
 The daemon's `reader`: reassembles frames from the chunks received on one link and hands them to the
 queue registered for their message id.
 */
module LinkReader {
  import opened Framing

  /** A token under assembly: the first `size` bytes of its buffer have been received. */
  datatype Token = Token(size: nat, shm: seq<Byte>)

  datatype Cached = NoFragment | Fragment(token: Token)

  /** memcpy into a buffer, which the bytes must fit. */
  function CopyInto(shm: seq<Byte>, at: nat, src: seq<Byte>): (r: seq<Byte>)
    requires at + |src| <= |shm|
    ensures |r| == |shm| && r[..at + |src|] == shm[..at] + src
  {
    shm[..at] + src + shm[at + |src|..]
  }

  /** The registered queues, by message id. */
  type Hoses = map<seq<Byte>, seq<seq<Byte>>>

  /** A frame goes to the queue of its id; without one it is dropped. */
  function Deliver(h: Hoses, frame: seq<Byte>): Hoses
    requires HEADER <= |frame|
  {
    var id := MsgId(frame);
    if id in h then h[id := h[id] + [frame]] else h
  }

  ghost function DeliverAll(h: Hoses, frames: seq<seq<Byte>>): Hoses
    requires forall i :: 0 <= i < |frames| ==> HEADER <= |frames[i]|
  {
    if frames == [] then h else Deliver(DeliverAll(h, frames[..|frames| - 1]), frames[|frames| - 1])
  }

  /** The frames for one id. */
  ghost function For(id: seq<Byte>, frames: seq<seq<Byte>>): seq<seq<Byte>>
    requires forall i :: 0 <= i < |frames| ==> HEADER <= |frames[i]|
  {
    if frames == [] then []
    else
      var last := frames[|frames| - 1];
      For(id, frames[..|frames| - 1]) + if MsgId(last) == id then [last] else []
  }

  /** A registered queue receives exactly the frames for its id, in order; no queue appears or disappears. */
  lemma {:induction false} DeliverAllRoutes(h: Hoses, frames: seq<seq<Byte>>, id: seq<Byte>)
    requires forall i :: 0 <= i < |frames| ==> HEADER <= |frames[i]|
    ensures id in DeliverAll(h, frames) <==> id in h
    ensures id in h ==> DeliverAll(h, frames)[id] == h[id] + For(id, frames)
  {
    if frames != [] {
      DeliverAllRoutes(h, frames[..|frames| - 1], id);
    }
  }

  lemma NoFrameYet(received: seq<Byte>, x: seq<Byte>)
    requires WellFramed(received + x) && !Complete(Rest(received) + x)
    ensures Frames(received + x) == Frames(received) && Rest(received + x) == Rest(received) + x
  {
    FramesAppend(received, x);
  }

  lemma FrameDone(received: seq<Byte>, x: seq<Byte>)
    requires IsFrame(Rest(received) + x)
    ensures Frames(received + x) == Frames(received) + [Rest(received) + x] && Rest(received + x) == []
  {
    FramesAppend(received, x);
    var frame := Rest(received) + x;
    assert frame[..|frame|] == frame && frame[|frame|..] == [];
    assert Frames(frame[|frame|..]) == [];
  }

  /** The size field at the start of the pending bytes covers at least the header. */
  lemma SizeFieldOk(received: seq<Byte>, rest: seq<Byte>)
    requires WellFramed(received + rest) && SIZE_FIELD <= |Rest(received) + rest|
    ensures HEADER <= SizeOf(Rest(received) + rest)
  {
    FramesAppend(received, rest);
  }

  lemma PrefixFramed(received: seq<Byte>, rest: seq<Byte>, n: nat)
    requires WellFramed(received + rest) && n <= |rest|
    ensures WellFramed(received + rest[..n])
  {
    assert received + rest == (received + rest[..n]) + rest[n..];
    WellFramedPrefix(received + rest[..n], rest[n..]);
  }

  lemma SliceStep(buff: seq<Byte>, p: nat, n: nat)
    requires p + n <= |buff|
    ensures buff[..p] + buff[p..][..n] == buff[..p + n]
  {
  }

  lemma Cancel(a: seq<seq<Byte>>, b: seq<seq<Byte>>, c: seq<seq<Byte>>)
    requires a + b == a + c
    ensures b == c
  {
    assert b == (a + b)[|a|..];
    assert c == (a + c)[|a|..];
  }

  const RECV_SIZE := 65536

  lemma {:induction false} DeliverAllAppend(h: Hoses, a: seq<seq<Byte>>, b: seq<seq<Byte>>)
    requires forall i :: 0 <= i < |a| ==> HEADER <= |a[i]|
    requires forall i :: 0 <= i < |b| ==> HEADER <= |b[i]|
    ensures DeliverAll(h, a + b) == DeliverAll(DeliverAll(h, a), b)
  {
    if b == [] {
      assert a + b == a;
    } else {
      DeliverAllAppend(h, a, b[..|b| - 1]);
      assert (a + b)[..|a + b| - 1] == a + b[..|b| - 1];
    }
  }

  /** The frames completed by `more` bytes after `received`. */
  ghost function Completed(received: seq<Byte>, more: seq<Byte>): (fs: seq<seq<Byte>>)
    ensures forall i :: 0 <= i < |fs| ==> HEADER <= |fs[i]|
  {
    FramesExhaust(Rest(received) + more);
    Frames(Rest(received) + more)
  }

  lemma CompletedAppend(received: seq<Byte>, a: seq<Byte>, b: seq<Byte>)
    ensures Completed(received, a + b) == Completed(received, a) + Completed(received + a, b)
  {
    FramesAppend(received, a);
    FramesAppend(Rest(received) + a, b);
    assert Rest(received) + (a + b) == (Rest(received) + a) + b;
  }

  /** What the reader asks of the segment manager. */
  datatype SegmentCall = Attach | Detach

  class Reader {
    var cached: Cached
    var hoses: Hoses
    var attached: nat          // shared-memory segments this link holds attached
    ghost var received: seq<Byte>
    ghost var emitted: seq<seq<Byte>>
    ghost var calls: seq<SegmentCall>

    /** A segment is attached and detached for every frame, and one is attached while `attached` is 1. */
    ghost predicate CallsOk()
      reads this
    {
      && |calls| == 2 * |emitted| + attached
      && forall i :: 0 <= i < |calls| ==> (calls[i] == Attach <==> i % 2 == 0)
    }

    ghost predicate Valid()
      reads this
    {
      && WellFramed(received)
      && emitted == Frames(received)
      && CallsOk()
      && match cached
         case NoFragment => Rest(received) == [] && attached == 0
         case Fragment(t) =>
           && 0 < t.size <= |t.shm|
           && t.shm[..t.size] == Rest(received)
           && if t.size < SIZE_FIELD then |t.shm| == SIZE_FIELD && attached == 0
              else |t.shm| == SizeOf(t.shm) && t.size < |t.shm| && attached == 1
    }

    constructor (hoses: Hoses)
      ensures Valid() && received == [] && calls == [] && this.hoses == hoses
    {
      cached := NoFragment;
      this.hoses := hoses;
      attached := 0;
      received, emitted, calls := [], [], [];
    }

    /** The frame in `shm` is whole: it is detached and handed over. */
    method Finish(shm: seq<Byte>, ghost x: seq<Byte>)
      requires WellFramed(received + x) && emitted == Frames(received)
      requires shm == Rest(received) + x && IsFrame(shm) && attached == 1 && CallsOk()
      modifies this
      ensures Valid() && cached == NoFragment && received == old(received) + x
      ensures emitted == old(emitted) + [shm] && hoses == Deliver(old(hoses), shm) && old(calls) <= calls
    {
      FrameDone(received, x);
      var id := MsgId(shm);
      attached, calls := attached - 1, calls + [Detach];
      if id in hoses {
        hoses := hoses[id := hoses[id] + [shm]];
      }
      cached := NoFragment;
      received, emitted := received + x, emitted + [shm];
    }

    /** A fragment that is still incomplete absorbs bytes. */
    ghost method Absorb(x: seq<Byte>)
      requires WellFramed(received + x) && emitted == Frames(received) && !Complete(Rest(received) + x)
      modifies `received
      ensures received == old(received) + x && emitted == Frames(received) && Rest(received) == old(Rest(received)) + x
    {
      NoFrameYet(received, x);
      received := received + x;
    }

    /** What the next pass over the buffer has done: it took `n` bytes, all of them unless it ended a frame. */
    twostate predicate Took(rest: seq<Byte>, n: nat)
      requires n <= |rest|
      reads this
    {
      && Valid()
      && received == old(received) + rest[..n] && old(calls) <= calls
      && (n < |rest| ==> cached == NoFragment)
      && (if cached == NoFragment
          then emitted == old(emitted) + [old(Rest(received)) + rest[..n]]
               && HEADER <= |old(Rest(received)) + rest[..n]|
               && hoses == Deliver(old(hoses), old(Rest(received)) + rest[..n])
          else emitted == old(emitted) && hoses == old(hoses))
    }

    /** A pass that finds no fragment and starts one from `rest`. */
    method Start(rest: seq<Byte>) returns (n: nat)
      requires Valid() && cached == NoFragment && rest != [] && WellFramed(received + rest)
      modifies this
      ensures 0 < n <= |rest| && Took(rest, n)
    {
      hide WellFramed, Frames, Rest, Decode;
      assert Rest(received) + rest == rest && rest[..|rest|] == rest;
      var s := |rest|;
      if s < SIZE_FIELD {
        // the chunk ends inside the size field
        cached := Fragment(Token(s, CopyInto(Zeros(SIZE_FIELD), 0, rest)));
        Absorb(rest);
        return s;
      }
      SizeFieldOk(received, rest);
      var msgsize := SizeOf(rest);
      attached, calls := attached + 1, calls + [Attach];
      var size := if s < msgsize then s else msgsize;
      var shm := CopyInto(Zeros(msgsize), 0, rest[..size]);
      n := size;
      assert shm[..size] == rest[..size] && shm[..SIZE_FIELD] == rest[..SIZE_FIELD];
      if msgsize == size {
        assert shm == rest[..size];
        PrefixFramed(received, rest, n);
        Finish(shm, rest[..n]);
      } else {
        cached := Fragment(Token(size, shm));
        Absorb(rest);
      }
    }

    /** A pass that continues the cached fragment with `rest`. */
    method Continue(rest: seq<Byte>) returns (n: nat)
      requires Valid() && cached != NoFragment && rest != [] && WellFramed(received + rest)
      modifies this
      ensures 0 < n <= |rest| && Took(rest, n)
    {
      hide WellFramed, Frames, Rest, Decode;
      ghost var fragment := Rest(received);
      var t := cached.token;
      var s := |rest|;
      if t.size + s < SIZE_FIELD {
        // still inside the size field
        cached := Fragment(Token(t.size + s, CopyInto(t.shm, t.size, rest)));
        Absorb(rest);
        assert rest[..s] == rest;
        return s;
      }
      var p := 0;
      if t.size < SIZE_FIELD {
        // the size field is complete now: the fragment moves to a segment of the right size
        SizeFieldOk(received, rest);
        var s1 := SIZE_FIELD - t.size;
        var field := CopyInto(t.shm, t.size, rest[..s1]);
        p := s1;
        var msgsize := SizeOf(field);
        assert field[..SIZE_FIELD] == fragment + rest[..s1] == (fragment + rest)[..SIZE_FIELD];
        attached, calls := attached + 1, calls + [Attach];
        t := Token(SIZE_FIELD, CopyInto(Zeros(msgsize), 0, field));
        assert t.shm[..SIZE_FIELD] == field;
      }
      assert t.shm[..t.size] == fragment + rest[..p];
      n := CompleteOrKeep(t, rest, p);
    }

    /** The fragment's size is known: `rest[p..]` completes it or is kept whole. */
    method CompleteOrKeep(t: Token, rest: seq<Byte>, p: nat) returns (n: nat)
      requires WellFramed(received + rest) && emitted == Frames(received)
      requires p <= |rest| && rest != [] && attached == 1 && CallsOk()
      requires SIZE_FIELD <= t.size <= |t.shm| == SizeOf(t.shm) && t.shm[..t.size] == Rest(received) + rest[..p]
      requires p == 0 ==> t.size < |t.shm|
      modifies this
      ensures 0 < n <= |rest| && Took(rest, n)
    {
      hide WellFramed, Frames, Rest, Decode;
      ghost var fragment := Rest(received);
      SizeFieldOk(received, rest);
      var s := |rest| - p;
      var remaining := |t.shm| - t.size;
      assert (fragment + rest)[..SIZE_FIELD] == t.shm[..SIZE_FIELD];
      if remaining <= s {
        n := p + remaining;
        var shm := CopyInto(t.shm, t.size, rest[p..n]);
        assert shm == fragment + rest[..n];
        assert shm[..SIZE_FIELD] == t.shm[..SIZE_FIELD];
        PrefixFramed(received, rest, n);
        Finish(shm, rest[..n]);
      } else {
        n := |rest|;
        assert rest[..n] == rest;
        var shm := CopyInto(t.shm, t.size, rest[p..]);
        assert shm[..t.size + s] == fragment + rest;
        assert shm[..SIZE_FIELD] == t.shm[..SIZE_FIELD];
        cached := Fragment(Token(t.size + s, shm));
        Absorb(rest);
      }
    }

    /** The loop over one received chunk. */
    method HandleChunk(buff: seq<Byte>)
      requires Valid() && buff != [] && WellFramed(received + buff)
      modifies this
      ensures Valid() && received == old(received) + buff
      ensures hoses == DeliverAll(old(hoses), Completed(old(received), buff)) && old(calls) <= calls
    {
      hide WellFramed, Frames, Rest, Complete, Deliver, SizeOf;
      var p := 0;
      ghost var done: seq<seq<Byte>> := [];
      assert buff[..0] == [] && received + [] == received;
      while p < |buff|
        invariant 0 <= p <= |buff| && Valid() && received == old(received) + buff[..p]
        invariant emitted == old(emitted) + done && old(calls) <= calls
        invariant forall i :: 0 <= i < |done| ==> HEADER <= |done[i]|
        invariant hoses == DeliverAll(old(hoses), done)
      {
        var rest := buff[p..];
        assert received + rest == old(received) + buff;
        var n;
        ghost var frame;
        if cached == NoFragment {
          n := Start(rest);
        } else {
          n := Continue(rest);
        }
        if cached == NoFragment {
          frame := emitted[|emitted| - 1];
          assert (done + [frame])[..|done|] == done;
          done := done + [frame];
        }
        SliceStep(buff, p, n);
        p := p + n;
      }
      assert buff[..p] == buff;
      FramesAppend(old(received), buff);
      FramesExhaust(old(Rest(received)) + buff);
      Cancel(old(emitted), done, Frames(old(Rest(received)) + buff));
    }

    /** One read task: chunks are received until one does not fill the buffer or none is there. */
    method HandleTask(incoming: seq<seq<Byte>>) returns (n: nat)
      requires Valid() && WellFramed(received + Flatten(incoming))
      requires forall i :: 0 <= i < |incoming| ==> 0 < |incoming[i]| <= RECV_SIZE
      modifies this
      ensures n <= |incoming| && (n == |incoming| || (n > 0 && |incoming[n - 1]| < 65536))
      ensures forall i :: 0 <= i < n - 1 ==> |incoming[i]| == 65536
      ensures Valid() && received == old(received) + Flatten(incoming[..n])
      ensures hoses == DeliverAll(old(hoses), Completed(old(received), Flatten(incoming[..n])))
    {
      hide WellFramed, Frames, Rest, Complete, Deliver, Completed;
      n := 0;
      var full := true;
      ghost var soFar: seq<Byte> := [];
      assert received + [] == received;
      NothingCompleted(received);
      assert incoming[..0] == [];
      while full && n < |incoming|
        invariant 0 <= n <= |incoming| && Valid() && soFar == Flatten(incoming[..n])
        invariant received == old(received) + soFar
        invariant hoses == DeliverAll(old(hoses), Completed(old(received), soFar))
        invariant !full ==> n > 0 && |incoming[n - 1]| < RECV_SIZE
        invariant forall i :: 0 <= i < (if full then n else n - 1) ==> |incoming[i]| == RECV_SIZE
        decreases |incoming| - n
      {
        var chunk := incoming[n];
        NextChunk(old(received), incoming, n);
        assert received + chunk == old(received) + (soFar + chunk);
        CompletedAppend(old(received), soFar, chunk);
        DeliverAllAppend(old(hoses), Completed(old(received), soFar), Completed(received, chunk));
        HandleChunk(chunk);
        soFar := soFar + chunk;
        full := |chunk| == RECV_SIZE;
        n := n + 1;
      }
    }
  }

  /** A new link that receives a frame of `n` bytes, in one chunk that starts n, 0, 0, ..., queues it by its id. */
  method FrameInOneChunk(hoses: Hoses, buff: seq<Byte>) returns (r: Reader)
    requires 64 <= |buff| && buff[0] as nat == |buff| && forall i :: 1 <= i < 8 ==> buff[i] == 0
    ensures var id := CString(buff[24..]);
            r.hoses == if id in hoses then hoses[id := hoses[id] + [buff]] else hoses
    ensures r.Valid() && r.received == buff && r.cached == NoFragment && r.attached == 0
  {
    r := new Reader(hoses);
    assert [] + buff == buff && Rest([]) == [];
    FirstFrameAt(buff, |buff|);
    assert buff[..|buff|] == buff && buff[|buff|..] == [];
    assert Frames([]) == [] && Rest([]) == [];
    assert Frames(buff) == [buff] && Rest(buff) == [];
    OneFramed(buff);
    hide Frames, Rest, WellFramed, Decode;
    r.HandleChunk(buff);
    assert Completed([], buff) == [buff];
    assert [buff][..0] == [];
    assert DeliverAll(hoses, []) == hoses;
  }

  lemma OneFramed(buff: seq<Byte>)
    requires 64 <= |buff| && buff[0] as nat == |buff| && forall i :: 1 <= i < 8 ==> buff[i] == 0
    ensures WellFramed(buff)
  {
    SizeBytes(buff);
    assert buff[|buff|..] == [];
  }

  /** The bytes received with one more chunk are well framed, like everything that is still to come. */
  lemma NextChunk(received: seq<Byte>, incoming: seq<seq<Byte>>, n: nat)
    requires n < |incoming| && WellFramed(received + Flatten(incoming))
    ensures Flatten(incoming[..n + 1]) == Flatten(incoming[..n]) + incoming[n]
    ensures WellFramed(received + (Flatten(incoming[..n]) + incoming[n]))
  {
    hide WellFramed;
    var chunk := incoming[n];
    assert Flatten([chunk]) == chunk;
    hide Flatten;
    assert incoming[..n + 1] == incoming[..n] + [chunk];
    FlattenAppend(incoming[..n], [chunk]);
    FlattenAppend(incoming[..n + 1], incoming[n + 1..]);
    assert incoming == incoming[..n + 1] + incoming[n + 1..];
    var before, after := received + (Flatten(incoming[..n]) + chunk), Flatten(incoming[n + 1..]);
    assert received + Flatten(incoming) == before + after;
    WellFramedPrefix(before, after);
  }

  lemma NothingCompleted(received: seq<Byte>)
    ensures Completed(received, []) == []
  {
    assert Rest(received) + [] == Rest(received);
    RestIncomplete(received);
  }

  lemma {:induction false} RestIncomplete(s: seq<Byte>)
    ensures !Complete(Rest(s))
    decreases |s|
  {
    if Complete(s) {
      RestIncomplete(s[SizeOf(s)..]);
    }
  }
}
