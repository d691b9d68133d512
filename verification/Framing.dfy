/**
 The message format on a link: a frame starts with its own size, eight bytes little-endian, followed by a
 16-byte host and a 40-byte message id; the rest is the body.
 */
module Framing {
  type Byte = b: int | 0 <= b < 256

  const SIZE_FIELD := 8
  const HOST_SIZE := 16
  const MSGID_SIZE := 40
  const HEADER := 64

  /** The number a little-endian byte string stands for. */
  function Decode(s: seq<Byte>): nat {
    if s == [] then 0 else s[0] + 256 * Decode(s[1..])
  }

  function Encode(n: nat, width: nat): (s: seq<Byte>)
    ensures |s| == width
  {
    if width == 0 then [] else [(n % 256) as Byte] + Encode(n / 256, width - 1)
  }

  function Capacity(width: nat): nat {
    if width == 0 then 1 else 256 * Capacity(width - 1)
  }

  /** Byte order: one byte is itself, and later bytes count more. */
  lemma DecodeByte(b: Byte)
    ensures Decode([b]) == b as nat
  {
    assert [b][1..] == [];
  }

  lemma {:induction false} DecodeAppend(s: seq<Byte>, t: seq<Byte>)
    ensures Decode(s + t) == Decode(s) + Capacity(|s|) * Decode(t)
  {
    if s == [] {
      assert s + t == t;
    } else {
      DecodeAppend(s[1..], t);
      assert (s + t)[1..] == s[1..] + t;
      Distribute(256, Decode(s[1..]), Capacity(|s| - 1), Decode(t));
    }
  }

  lemma Distribute(k: nat, a: nat, c: nat, d: nat)
    ensures k * (a + c * d) == k * a + (k * c) * d
  {
  }

  lemma {:induction false} DecodeZeros(s: seq<Byte>)
    requires forall i :: 0 <= i < |s| ==> s[i] == 0
    ensures Decode(s) == 0
  {
    if s != [] {
      DecodeZeros(s[1..]);
    }
  }

  lemma {:induction false} CapacityBytes()
    ensures Capacity(1) == 0x100 && Capacity(2) == 0x1_0000 && Capacity(3) == 0x100_0000
    ensures Capacity(4) == 0x1_0000_0000 && Capacity(5) == 0x100_0000_0000 && Capacity(6) == 0x1_0000_0000_0000
    ensures Capacity(7) == 0x100_0000_0000_0000 && Capacity(8) == 0x1_0000_0000_0000_0000
  {
    assert Capacity(0) == 1;
    assert Capacity(1) == 256 * Capacity(0);
    assert Capacity(2) == 256 * Capacity(1);
    assert Capacity(3) == 256 * Capacity(2);
    assert Capacity(4) == 256 * Capacity(3);
    assert Capacity(5) == 256 * Capacity(4);
    assert Capacity(6) == 256 * Capacity(5);
    assert Capacity(7) == 256 * Capacity(6);
    assert Capacity(8) == 256 * Capacity(7);
  }

  /** The number in the first eight bytes of a stream, written out. */
  function LittleEndian(s: seq<Byte>): nat
    requires 8 <= |s|
  {
    s[0] as nat + 0x100 * s[1] as nat + 0x1_0000 * s[2] as nat + 0x100_0000 * s[3] as nat
    + 0x1_0000_0000 * s[4] as nat + 0x100_0000_0000 * s[5] as nat + 0x1_0000_0000_0000 * s[6] as nat
    + 0x100_0000_0000_0000 * s[7] as nat
  }

  /** It is the size field. */
  lemma {:induction false} SizeBytes(s: seq<Byte>)
    requires 8 <= |s|
    ensures SizeOf(s) == LittleEndian(s)
  {
    var f := s[..8];
    DecodeAppend(f[..7], [f[7]]);
    DecodeAppend(f[..6], [f[6]]);
    DecodeAppend(f[..5], [f[5]]);
    DecodeAppend(f[..4], [f[4]]);
    DecodeAppend(f[..3], [f[3]]);
    DecodeAppend(f[..2], [f[2]]);
    DecodeAppend(f[..1], [f[1]]);
    forall i | 0 <= i < 8 ensures Decode([f[i]]) == f[i] as nat && f[..i] + [f[i]] == f[..i + 1] {
      DecodeByte(f[i]);
    }
    hide Decode, Capacity;
    CapacityBytes();
    assert f[..8] == f;
  }

  lemma {:induction false} DecodeEncode(n: nat, width: nat)
    requires n < Capacity(width)
    ensures Decode(Encode(n, width)) == n
  {
    if width > 0 {
      DecodeEncode(n / 256, width - 1);
      assert Encode(n, width)[1..] == Encode(n / 256, width - 1);
    }
  }

  function SizeOf(s: seq<Byte>): nat
    requires SIZE_FIELD <= |s|
  {
    Decode(s[..SIZE_FIELD])
  }

  /** `s` is one whole frame. */
  predicate IsFrame(s: seq<Byte>) {
    HEADER <= |s| && SizeOf(s) == |s|
  }

  /** Wherever a frame starts in the stream, its size field covers at least the header. */
  ghost predicate WellFramed(s: seq<Byte>)
    decreases |s|
  {
    SIZE_FIELD <= |s| ==> HEADER <= SizeOf(s) && (SizeOf(s) <= |s| ==> WellFramed(s[SizeOf(s)..]))
  }

  /** The stream starts with a whole frame. */
  predicate Complete(s: seq<Byte>) {
    SIZE_FIELD <= |s| && HEADER <= SizeOf(s) <= |s|
  }

  /** The whole frames of a stream, in order. */
  function Frames(s: seq<Byte>): seq<seq<Byte>>
    decreases |s|
  {
    if Complete(s) then [s[..SizeOf(s)]] + Frames(s[SizeOf(s)..]) else []
  }

  /** What follows the last whole frame. */
  function Rest(s: seq<Byte>): seq<Byte>
    decreases |s|
  {
    if Complete(s) then Rest(s[SizeOf(s)..]) else s
  }

  function Flatten(fs: seq<seq<Byte>>): seq<Byte> {
    if fs == [] then [] else fs[0] + Flatten(fs[1..])
  }

  lemma Associates(x: seq<Byte>, y: seq<Byte>, z: seq<Byte>)
    ensures x + (y + z) == (x + y) + z
  {
  }

  lemma {:induction false} FlattenAppend(a: seq<seq<Byte>>, b: seq<seq<Byte>>)
    ensures Flatten(a + b) == Flatten(a) + Flatten(b)
  {
    if a == [] {
      assert a + b == b;
    } else {
      FlattenAppend(a[1..], b);
      assert (a + b)[0] == a[0] && (a + b)[1..] == a[1..] + b;
      Associates(a[0], Flatten(a[1..]), Flatten(b));
    }
  }

  /** The first frame of a stream that has one. */
  lemma FirstFrame(s: seq<Byte>)
    requires Complete(s)
    ensures SizeOf(s) <= |s| && 0 < SizeOf(s) && IsFrame(s[..SizeOf(s)])
    ensures Frames(s) == [s[..SizeOf(s)]] + Frames(s[SizeOf(s)..]) && Rest(s) == Rest(s[SizeOf(s)..])
  {
    var n := SizeOf(s);
    assert s[..n][..SIZE_FIELD] == s[..SIZE_FIELD];
  }

  /** A stream that starts with the bytes n, 0, 0, 0, 0, 0, 0, 0 has its first frame after `n` bytes. */
  lemma FirstFrameAt(s: seq<Byte>, n: nat)
    requires 8 <= |s| && s[0] as nat == n && forall i :: 1 <= i < 8 ==> s[i] == 0
    requires 64 <= n
    ensures n <= |s| ==> Frames(s) == [s[..n]] + Frames(s[n..]) && Rest(s) == Rest(s[n..])
    ensures |s| < n ==> Frames(s) == [] && Rest(s) == s
  {
    SizeBytes(s);
    assert LittleEndian(s) == n;
    hide SizeOf, LittleEndian, Frames, Rest;
    if n <= |s| {
      FirstFrame(s);
    } else {
      NoFrame(s);
    }
  }

  lemma NoFrame(s: seq<Byte>)
    requires !Complete(s)
    ensures Frames(s) == [] && Rest(s) == s
  {
  }

  lemma FlattenFirst(f: seq<Byte>, fs: seq<seq<Byte>>)
    ensures Flatten([f] + fs) == f + Flatten(fs)
  {
    assert ([f] + fs)[1..] == fs;
  }

  /** Frames and remainder together are the stream. */
  lemma {:induction false} FramesExhaust(s: seq<Byte>)
    ensures Flatten(Frames(s)) + Rest(s) == s
    ensures forall i :: 0 <= i < |Frames(s)| ==> IsFrame(Frames(s)[i])
    decreases |s|
  {
    if Complete(s) {
      var n := SizeOf(s);
      FirstFrame(s);
      hide Frames, Rest, IsFrame, SizeOf, Decode, Flatten;
      FramesExhaust(s[n..]);
      var f, fs := s[..n], Frames(s[n..]);
      FlattenFirst(f, fs);
      Associates(f, Flatten(fs), Rest(s[n..]));
      assert s == f + s[n..];
    }
  }

  /** Parsing can stop anywhere and resume with the remainder. */
  lemma {:induction false} FramesAppend(a: seq<Byte>, b: seq<Byte>)
    ensures Frames(a + b) == Frames(a) + Frames(Rest(a) + b)
    ensures Rest(a + b) == Rest(Rest(a) + b)
    ensures WellFramed(a + b) ==> WellFramed(Rest(a) + b)
    decreases |a|
  {
    if Complete(a) {
      var n := SizeOf(a);
      var s := a + b;
      assert s[..SIZE_FIELD] == a[..SIZE_FIELD];
      assert s[..n] == a[..n] && s[n..] == a[n..] + b;
      FramesAppend(a[n..], b);
    }
  }

  lemma {:induction false} WellFramedPrefix(a: seq<Byte>, b: seq<Byte>)
    requires WellFramed(a + b)
    ensures WellFramed(a)
    decreases |a|
  {
    if SIZE_FIELD <= |a| {
      var s := a + b;
      assert s[..SIZE_FIELD] == a[..SIZE_FIELD];
      if SizeOf(a) <= |a| {
        assert s[SizeOf(a)..] == a[SizeOf(a)..] + b;
        WellFramedPrefix(a[SizeOf(a)..], b);
      }
    }
  }

  /** Frames put end to end are parsed back. */
  lemma {:induction false} FramesOfFlatten(fs: seq<seq<Byte>>)
    requires forall i :: 0 <= i < |fs| ==> IsFrame(fs[i])
    ensures Frames(Flatten(fs)) == fs && Rest(Flatten(fs)) == [] && WellFramed(Flatten(fs))
  {
    if fs != [] {
      var s, n := Flatten(fs), |fs[0]|;
      assert s[..SIZE_FIELD] == fs[0][..SIZE_FIELD];
      assert s[..n] == fs[0] && s[n..] == Flatten(fs[1..]);
      FramesOfFlatten(fs[1..]);
    }
  }

  /** Whatever part of a stream of frames has arrived, its whole frames are the first frames sent. */
  lemma FramesOfPrefix(fs: seq<seq<Byte>>, received: seq<Byte>)
    requires forall i :: 0 <= i < |fs| ==> IsFrame(fs[i])
    requires received <= Flatten(fs)
    ensures Frames(received) <= fs && WellFramed(received)
    ensures received == Flatten(fs) ==> Frames(received) == fs
  {
    FramesOfFlatten(fs);
    var later := Flatten(fs)[|received|..];
    assert received + later == Flatten(fs);
    FramesAppend(received, later);
    WellFramedPrefix(received, later);
  }

  // ---------------------------------------------------------------- chunks

  datatype Parsed = Parsed(emitted: seq<seq<Byte>>, fragment: seq<Byte>)

  /** What one received chunk does to the frames emitted and the fragment kept. */
  function Feed(p: Parsed, chunk: seq<Byte>): Parsed {
    Parsed(p.emitted + Frames(p.fragment + chunk), Rest(p.fragment + chunk))
  }

  function FeedAll(p: Parsed, chunks: seq<seq<Byte>>): Parsed
    decreases |chunks|
  {
    if chunks == [] then p else FeedAll(Feed(p, chunks[0]), chunks[1..])
  }

  ghost function ParseOf(received: seq<Byte>): Parsed {
    Parsed(Frames(received), Rest(received))
  }

  lemma FeedContinues(received: seq<Byte>, chunk: seq<Byte>)
    ensures Feed(ParseOf(received), chunk) == ParseOf(received + chunk)
  {
    FramesAppend(received, chunk);
  }

  /** However the bytes are cut into chunks, the outcome is that of the whole stream. */
  lemma {:induction false} ChunkingIndependence(received: seq<Byte>, chunks: seq<seq<Byte>>)
    ensures FeedAll(ParseOf(received), chunks) == ParseOf(received + Flatten(chunks))
    decreases |chunks|
  {
    hide ParseOf, Feed;
    if chunks == [] {
      assert received + Flatten(chunks) == received;
    } else {
      FeedContinues(received, chunks[0]);
      ChunkingIndependence(received + chunks[0], chunks[1..]);
      assert received + Flatten(chunks) == (received + chunks[0]) + Flatten(chunks[1..]);
    }
  }

  // ---------------------------------------------------------------- messages

  /** A C string: the bytes before the first zero. */
  function CString(s: seq<Byte>): seq<Byte> {
    if s == [] || s[0] == 0 then [] else [s[0]] + CString(s[1..])
  }

  /** It ends at the first zero byte, or where the bytes end. */
  lemma {:induction false} CStringIs(s: seq<Byte>)
    ensures CString(s) <= s && NoZero(CString(s))
    ensures |CString(s)| == |s| || s[|CString(s)|] == 0
  {
    if s != [] && s[0] != 0 {
      CStringIs(s[1..]);
    }
  }

  function Zeros(n: nat): (s: seq<Byte>)
    ensures |s| == n
  {
    if n == 0 then [] else [0] + Zeros(n - 1)
  }

  predicate NoZero(s: seq<Byte>) {
    forall i :: 0 <= i < |s| ==> s[i] != 0
  }

  lemma {:induction false} CStringPadded(s: seq<Byte>, t: seq<Byte>)
    requires NoZero(s) && t != [] && t[0] == 0
    ensures CString(s + t) == s
  {
    if s == [] {
      assert s + t == t;
    } else {
      assert (s + t)[1..] == s[1..] + t;
      CStringPadded(s[1..], t);
    }
  }

  function MsgId(frame: seq<Byte>): seq<Byte>
    requires HEADER <= |frame|
  {
    CString(frame[SIZE_FIELD + HOST_SIZE..])
  }

  /** The body `effuse` copies out. */
  function Body(frame: seq<Byte>): seq<Byte>
    requires HEADER <= |frame|
  {
    frame[HEADER..]
  }

  /** The frame `infuse` lays out, when the message fits: host and id as padded C strings, then the body. */
  function Message(host: seq<Byte>, msgid: seq<Byte>, body: seq<Byte>): seq<Byte>
    requires |host| < HOST_SIZE && |msgid| < MSGID_SIZE
  {
    Encode(HEADER + |body|, SIZE_FIELD)
    + (host + Zeros(HOST_SIZE - |host|))
    + (msgid + Zeros(MSGID_SIZE - |msgid|))
    + body
  }

  /** The host a frame is for. */
  function HostOf(frame: seq<Byte>): seq<Byte>
    requires HEADER <= |frame|
  {
    CString(frame[SIZE_FIELD..SIZE_FIELD + HOST_SIZE])
  }

  lemma HostField(host: seq<Byte>, msgid: seq<Byte>, body: seq<Byte>)
    requires |host| < HOST_SIZE && |msgid| < MSGID_SIZE
    ensures var m := Message(host, msgid, body);
            HEADER <= |m| && (NoZero(host) ==> HostOf(m) == host)
  {
    var m, pad := Message(host, msgid, body), Zeros(HOST_SIZE - |host|);
    assert m[SIZE_FIELD..SIZE_FIELD + HOST_SIZE] == host + pad;
    if NoZero(host) {
      CStringPadded(host, pad);
    }
  }

  /** The layout in bytes: size at 0, host at 8, id at 24, body at 64. */
  lemma LayoutBytes(host: seq<Byte>, msgid: seq<Byte>, body: seq<Byte>)
    requires |host| < 16 && |msgid| < 40 && 64 + |body| < 0x1_0000_0000_0000_0000
    ensures var m := Message(host, msgid, body);
      && |m| == 64 + |body| && m[64..] == body
      && m[8..8 + |host|] == host && (forall i :: 8 + |host| <= i < 24 ==> m[i] == 0)
      && m[24..24 + |msgid|] == msgid && (forall i :: 24 + |msgid| <= i < 64 ==> m[i] == 0)
      && LittleEndian(m) == |m|
  {
    var m := Message(host, msgid, body);
    SizeWritten(host, msgid, body);
    AllZeros(HOST_SIZE - |host|);
    AllZeros(MSGID_SIZE - |msgid|);
    hide Encode, Decode, Zeros, Capacity, LittleEndian, SizeOf;
    Padded(m[8..24], host, Zeros(HOST_SIZE - |host|));
    Padded(m[24..64], msgid, Zeros(MSGID_SIZE - |msgid|));
    hide Message;
    assert forall i :: 8 <= i < 24 ==> m[i] == m[8..24][i - 8];
    assert forall i :: 24 <= i < 64 ==> m[i] == m[24..64][i - 24];
    assert m[8..8 + |host|] == m[8..24][..|host|] && m[24..24 + |msgid|] == m[24..64][..|msgid|];
  }

  /** The size field of a message holds its size. */
  lemma SizeWritten(host: seq<Byte>, msgid: seq<Byte>, body: seq<Byte>)
    requires |host| < 16 && |msgid| < 40 && 64 + |body| < 0x1_0000_0000_0000_0000
    ensures var m := Message(host, msgid, body);
            |m| == 64 + |body| && LittleEndian(m) == |m|
  {
    var m := Message(host, msgid, body);
    CapacityBytes();
    DecodeEncode(HEADER + |body|, SIZE_FIELD);
    assert m[..SIZE_FIELD] == Encode(HEADER + |body|, SIZE_FIELD);
    hide Encode, Zeros, Capacity, Decode, LittleEndian;
    SizeBytes(m);
  }

  /** A field padded with zeros. */
  lemma Padded(field: seq<Byte>, s: seq<Byte>, zeros: seq<Byte>)
    requires field == s + zeros && forall i :: 0 <= i < |zeros| ==> zeros[i] == 0
    ensures field[..|s|] == s && forall i :: |s| <= i < |field| ==> field[i] == 0
  {
  }

  lemma {:induction false} AllZeros(n: nat)
    ensures forall i :: 0 <= i < n ==> Zeros(n)[i] == 0
  {
    if n > 0 {
      AllZeros(n - 1);
    }
  }

  /** What is infused is a frame with that host, that id and that body. */
  lemma MessageRoundTrip(host: seq<Byte>, msgid: seq<Byte>, body: seq<Byte>)
    requires |host| < HOST_SIZE && |msgid| < MSGID_SIZE && NoZero(msgid)
    requires HEADER + |body| < Capacity(SIZE_FIELD)
    ensures IsFrame(Message(host, msgid, body))
    ensures MsgId(Message(host, msgid, body)) == msgid && Body(Message(host, msgid, body)) == body
    ensures NoZero(host) ==> HostOf(Message(host, msgid, body)) == host
  {
    var m := Message(host, msgid, body);
    HostField(host, msgid, body);
    DecodeEncode(HEADER + |body|, SIZE_FIELD);
    assert m[..SIZE_FIELD] == Encode(HEADER + |body|, SIZE_FIELD);
    var pad := Zeros(MSGID_SIZE - |msgid|) + body;
    assert m[SIZE_FIELD + HOST_SIZE..] == msgid + pad;
    CStringPadded(msgid, pad);
  }
}
