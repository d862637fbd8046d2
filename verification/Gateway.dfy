/**
 The relay of ikcc_service/src/src/xlinkgateway/src between a device and the cloud:
 frames with a five-byte header are cut out of a receive ring (XGProtocol.c) that the
 main loop tops up with whatever `recv` returns (XGCore.c). The claims here are about
 byte strings; GatewayLoop ties the C code to them.
 */
module Gateway {
  import opened Bytes
  import opened ByteQueue

  type Frame = seq<byte>

  const TYPE_CONNECT: nat := 2
  const TYPE_PIPE: nat := 7
  const TYPE_PIPE_2: nat := 8
  const TYPE_PING: nat := 13

  // ---- frames ----

  /** The body length in the header, a signed C `int`. */
  function BodyLength(s: seq<byte>): int
    requires |s| >= 5
  {
    var n := BigEndian(s[1], s[2], s[3], s[4]);
    if n >= 0x8000_0000 then n - 0x1_0000_0000 else n
  }

  function Type(f: Frame): (t: nat)
    requires f != []
  {
    f[0] / 16
  }

  function Resp(f: Frame): nat
    requires f != []
  {
    f[0] / 8 % 2
  }

  function Version(f: Frame): nat
    requires f != []
  {
    f[0] % 8
  }

  /** A frame as the gateway expects it: its header gives its length, and it fits the ring. */
  predicate WellFormed(f: Frame) {
    5 <= |f| <= SIZE && BodyLength(f) == |f| - 5
  }

  predicate AllWellFormed(fs: seq<Frame>) {
    forall k :: 0 <= k < |fs| ==> WellFormed(fs[k])
  }

  // ---- one receive direction ----

  /** What is stored in the ring, and the frames taken out of it so far. */
  datatype Link = Link(queue: seq<byte>, got: seq<Frame>)

  /** Is the oldest frame stored completely? */
  predicate Complete(s: seq<byte>) {
    |s| >= 5 && 0 <= BodyLength(s) && BodyLength(s) + 5 <= |s|
  }

  function FirstFrame(s: seq<byte>): (f: Frame)
    requires Complete(s)
    ensures f != []
  {
    s[..BodyLength(s) + 5]
  }

  /** One call of `XGProtocolClient` or `XGProtocolServer`: at most one frame is taken out. */
  function Extract(l: Link): Link {
    if Complete(l.queue) then Link(l.queue[BodyLength(l.queue) + 5..], l.got + [FirstFrame(l.queue)]) else l
  }

  lemma ExtractIs(l: Link, f: Frame, rest: seq<byte>)
    requires Complete(l.queue) && f == FirstFrame(l.queue) && rest == l.queue[|f|..]
    ensures Extract(l) == Link(rest, l.got + [f])
  {
  }

  /** One turn of the main loop: frames first, then one `recv`, which returns `chunk`
      (empty when the socket has nothing). */
  function Turn(l: Link, chunk: seq<byte>): Link {
    Extract(l).(queue := Extract(l).queue + chunk)
  }

  function Run(l: Link, chunks: seq<seq<byte>>): Link
    decreases chunks
  {
    if chunks == [] then l else Run(Turn(l, chunks[0]), chunks[1..])
  }

  /** Every `recv` returns at most the room it was offered, BQ_BUFFER_SIZE less what is stored. */
  predicate Possible(l: Link, chunks: seq<seq<byte>>)
    decreases chunks
  {
    chunks != [] ==>
      |Extract(l).queue| + |chunks[0]| <= SIZE && Possible(Turn(l, chunks[0]), chunks[1..])
  }

  /** The state of a link in the middle of the stream of `fs`: what was taken out are its first
      frames, and what is stored is exactly the received part behind them. */
  ghost predicate Tracks(l: Link, fs: seq<Frame>, received: seq<byte>) {
    && l.got <= fs && Flatten(l.got) + l.queue == received && received <= Flatten(fs) && |l.queue| <= SIZE
  }

  /** What is stored starts where the frames not yet taken out start. */
  lemma StoredIsRest(l: Link, fs: seq<Frame>, received: seq<byte>)
    requires Tracks(l, fs, received)
    ensures l.queue <= Flatten(fs[|l.got|..])
  {
    var rest := Flatten(fs[|l.got|..]);
    assert fs == l.got + fs[|l.got|..];
    FlattenConcat(l.got, fs[|l.got|..]);
    PrefixCancels(Flatten(l.got), l.queue, rest);
  }

  lemma PrefixCancels(a: seq<byte>, b: seq<byte>, c: seq<byte>)
    requires a + b <= a + c
    ensures b <= c
  {
    assert forall k :: 0 <= k < |b| ==> b[k] == (a + b)[|a| + k] == (a + c)[|a| + k] == c[k];
  }

  /** A stored prefix of well-formed frames is cut at the frame boundary. */
  lemma FirstIsFirst(s: seq<byte>, fs: seq<Frame>)
    requires AllWellFormed(fs) && s <= Flatten(fs)
    ensures Complete(s) <==> fs != [] && |s| >= |fs[0]|
    ensures Complete(s) ==> FirstFrame(s) == fs[0] && BodyLength(s) + 5 == |fs[0]|
  {
  }

  lemma TakenApart(got: seq<Frame>, f: Frame, q: seq<byte>)
    ensures Flatten(got + [f]) + q == Flatten(got) + (f + q)
  {
    FlattenAppend(got, f);
    AppendAssociates(Flatten(got), f, q);
  }

  lemma ExtractTracks(l: Link, fs: seq<Frame>, received: seq<byte>)
    requires AllWellFormed(fs) && Tracks(l, fs, received)
    ensures Tracks(Extract(l), fs, received)
  {
    StoredIsRest(l, fs, received);
    var rest := fs[|l.got|..];
    FirstIsFirst(l.queue, rest);
    if Complete(l.queue) {
      var q := l.queue[|rest[0]|..];
      assert l.queue == rest[0] + q;
      TakenApart(l.got, rest[0], q);
      assert l.got + [rest[0]] == fs[..|l.got| + 1];
    }
  }

  /** A full ring always holds a complete frame, so after extraction there is room to receive. */
  lemma RoomToReceive(l: Link, fs: seq<Frame>, received: seq<byte>)
    requires AllWellFormed(fs) && Tracks(l, fs, received)
    ensures Tracks(Extract(l), fs, received)
    ensures |Extract(l).queue| < SIZE
  {
    ExtractTracks(l, fs, received);
    StoredIsRest(l, fs, received);
    FirstIsFirst(l.queue, fs[|l.got|..]);
  }

  lemma TurnTracks(l: Link, fs: seq<Frame>, received: seq<byte>, chunk: seq<byte>)
    requires AllWellFormed(fs) && Tracks(l, fs, received)
    requires received + chunk <= Flatten(fs) && |Extract(l).queue| + |chunk| <= SIZE
    ensures Tracks(Turn(l, chunk), fs, received + chunk)
  {
    RoomToReceive(l, fs, received);
    var e := Extract(l);
    AppendAssociates(Flatten(e.got), e.queue, chunk);
  }

  /** For every cutting of the stream into chunks and every pace of the loop: the frames taken out
      are the first frames sent, byte for byte, and the ring holds exactly the unread bytes. */
  lemma {:induction false} RunTracks(l: Link, fs: seq<Frame>, received: seq<byte>, chunks: seq<seq<byte>>)
    requires AllWellFormed(fs) && Tracks(l, fs, received)
    requires Possible(l, chunks) && received + Flatten(chunks) <= Flatten(fs)
    ensures Tracks(Run(l, chunks), fs, received + Flatten(chunks))
    decreases chunks
  {
    if chunks == [] {
      assert received + [] == received;
    } else {
      PrefixStep(received, chunks[0], Flatten(chunks[1..]), Flatten(fs));
      TurnTracks(l, fs, received, chunks[0]);
      RunTracks(Turn(l, chunks[0]), fs, received + chunks[0], chunks[1..]);
    }
  }

  lemma PrefixStep(a: seq<byte>, b: seq<byte>, c: seq<byte>, all: seq<byte>)
    requires a + (b + c) <= all
    ensures a + b <= all && a + b + c == a + (b + c)
  {
  }

  const EMPTY: Link := Link([], [])

  lemma EmptyTracks(fs: seq<Frame>)
    ensures Tracks(EMPTY, fs, [])
  {
  }

  /** In no reachable state is `recv` offered a buffer of length zero, whose return value 0
      the loop would take for a closed connection. */
  lemma {:induction false} RecvNeverEmpty(fs: seq<Frame>, chunks: seq<seq<byte>>)
    requires AllWellFormed(fs) && Possible(EMPTY, chunks) && Flatten(chunks) <= Flatten(fs)
    ensures SIZE - |Extract(Run(EMPTY, chunks)).queue| > 0
  {
    EmptyTracks(fs);
    assert [] + Flatten(chunks) == Flatten(chunks);
    RunTracks(EMPTY, fs, [], chunks);
    RoomToReceive(Run(EMPTY, chunks), fs, Flatten(chunks));
  }

  /** Two links that have received the same bytes and have no complete frame left have taken out
      the same frames: what is delivered does not depend on the chunks. */
  lemma SettledLinksAgree(l: Link, m: Link, fs: seq<Frame>, received: seq<byte>)
    requires AllWellFormed(fs) && Tracks(l, fs, received) && Tracks(m, fs, received)
    requires !Complete(l.queue) && !Complete(m.queue)
    ensures l == m
  {
    if |l.got| < |m.got| {
      MoreToTake(l, m, fs, received);
    } else if |m.got| < |l.got| {
      MoreToTake(m, l, fs, received);
    } else {
      assert l.got == fs[..|l.got|] == m.got;
      assert l.queue == received[|Flatten(l.got)|..] == m.queue;
    }
  }

  lemma Cancel(a: seq<byte>, b: seq<byte>, c: seq<byte>)
    requires a + b == a + c
    ensures b == c
  {
    assert b == (a + b)[|a|..] == (a + c)[|a|..] == c;
  }

  lemma MoreToTake(l: Link, m: Link, fs: seq<Frame>, received: seq<byte>)
    requires AllWellFormed(fs) && Tracks(l, fs, received) && Tracks(m, fs, received) && |l.got| < |m.got|
    ensures Complete(l.queue)
  {
    var more := m.got[|l.got|..];
    assert m.got == l.got + more && more[0] == fs[|l.got|];
    FlattenConcat(l.got, more);
    AppendAssociates(Flatten(l.got), Flatten(more), m.queue);
    Cancel(Flatten(l.got), l.queue, Flatten(more) + m.queue);
    assert |l.queue| >= |more[0]|;
    StoredIsRest(l, fs, received);
    FirstIsFirst(l.queue, fs[|l.got|..]);
  }

  lemma WholeStreamStored(l: Link, fs: seq<Frame>)
    requires l.got <= fs && Flatten(l.got) + l.queue == Flatten(fs)
    ensures l.queue == Flatten(fs[|l.got|..])
  {
    var rest := fs[|l.got|..];
    FlattenConcat(l.got, rest);
    assert fs == l.got + rest;
    assert Flatten(l.got) + l.queue == Flatten(l.got) + Flatten(rest);
    Cancel(Flatten(l.got), l.queue, Flatten(rest));
  }

  /** A turn in which nothing is received still takes out the next frame, if it is stored. */
  lemma IdleTurn(l: Link, fs: seq<Frame>)
    requires AllWellFormed(fs) && Tracks(l, fs, Flatten(fs))
    ensures Turn(l, []) == Extract(l) && Tracks(Extract(l), fs, Flatten(fs))
    ensures |Extract(l).got| == if |l.got| < |fs| then |l.got| + 1 else |l.got|
  {
    var rest := fs[|l.got|..];
    ExtractTracks(l, fs, Flatten(fs));
    WholeStreamStored(l, fs);
    FirstIsFirst(l.queue, rest);
    assert Extract(l).queue + [] == Extract(l).queue;
  }

  /** After the last byte, one turn per frame still stored takes everything out. */
  lemma {:induction false} IdleTurnsDrain(l: Link, fs: seq<Frame>, idle: seq<seq<byte>>)
    requires AllWellFormed(fs) && Tracks(l, fs, Flatten(fs))
    requires (forall k :: 0 <= k < |idle| ==> idle[k] == []) && |idle| >= |fs| - |l.got|
    ensures Run(l, idle) == Link([], fs)
    decreases idle
  {
    if idle == [] {
      WholeStreamStored(l, fs);
    } else {
      IdleTurn(l, fs);
      IdleTurnsDrain(Extract(l), fs, idle[1..]);
    }
  }

  // ---- what is relayed ----

  function DeviceId(f: Frame): nat
    requires |f| >= 10
  {
    BigEndian(f[6], f[7], f[8], f[9])
  }

  /** Frames of the device that go on to the cloud: all but logins and data for the callbacks. */
  predicate ToCloud(f: Frame)
    requires f != []
  {
    Type(f) != TYPE_CONNECT && !((Type(f) == TYPE_PIPE || Type(f) == TYPE_PIPE_2) && Resp(f) == 0)
  }

  /** A response header: type and version of the request, with the response bit. */
  function RespByte(kind: nat, version: nat): byte
    requires kind < 16 && version < 8
  {
    kind * 16 + 8 + version
  }

  /** What the gateway itself answers the device; `ret` is the result of the login callback. */
  function Answer(f: Frame, ret: byte): seq<Frame>
    requires f != []
  {
    if Type(f) == TYPE_CONNECT then
      if |f| >= 10 && DeviceId(f) != 0 then [[RespByte(TYPE_CONNECT, Version(f)), 0, 0, 0, 2, ret, 0]] else []
    else if Type(f) == TYPE_PING then [[RespByte(TYPE_PING, Version(f)), 0, 0, 0, 0]]
    else []
  }

  /** Frames of the cloud that go on to the device; pipe data go to a callback if there is one. */
  predicate ToDevice(f: Frame, hasConfig: bool, hasCallback: bool)
    requires f != []
  {
    if Type(f) != TYPE_CONNECT && Type(f) == TYPE_PIPE && Resp(f) == 0 then |f| >= 12 && hasConfig && !hasCallback else true
  }

  /** The frames of a list that go on, in order. */
  function CloudOnly(fs: seq<Frame>): seq<Frame>
    requires forall k :: 0 <= k < |fs| ==> fs[k] != []
  {
    if fs == [] then []
    else
      var n := |fs| - 1;
      CloudOnly(fs[..n]) + if ToCloud(fs[n]) then [fs[n]] else []
  }

  /** What the gateway answers to the frames of a list; `rets` has a result for each. */
  function Answers(fs: seq<Frame>, rets: seq<byte>): seq<Frame>
    requires |fs| == |rets| && forall k :: 0 <= k < |fs| ==> fs[k] != []
  {
    if fs == [] then []
    else
      var n := |fs| - 1;
      Answers(fs[..n], rets[..n]) + Answer(fs[n], rets[n])
  }

  function DeviceOnly(fs: seq<Frame>, hasConfig: bool, hasCallback: bool): seq<Frame>
    requires forall k :: 0 <= k < |fs| ==> fs[k] != []
  {
    if fs == [] then []
    else
      var n := |fs| - 1;
      DeviceOnly(fs[..n], hasConfig, hasCallback) + if ToDevice(fs[n], hasConfig, hasCallback) then [fs[n]] else []
  }

  /** `z` is made of the elements of `x` and `y`, each in its order. */
  ghost predicate Interleaves(z: seq<Frame>, x: seq<Frame>, y: seq<Frame>)
    decreases z
  {
    if z == [] then x == [] && y == []
    else
      var last := z[|z| - 1];
      || (x != [] && x[|x| - 1] == last && Interleaves(z[..|z| - 1], x[..|x| - 1], y))
      || (y != [] && y[|y| - 1] == last && Interleaves(z[..|z| - 1], x, y[..|y| - 1]))
  }

  lemma InterleavesAppend(z: seq<Frame>, x: seq<Frame>, y: seq<Frame>, more: seq<Frame>)
    requires Interleaves(z, x, y) && |more| <= 1
    ensures Interleaves(z + more, x + more, y) && Interleaves(z + more, x, y + more)
  {
    if more == [] {
      assert z + more == z && x + more == x && y + more == y;
    } else {
      assert (z + more)[..|z|] == z && (x + more)[..|x|] == x && (y + more)[..|y|] == y;
    }
  }
}
