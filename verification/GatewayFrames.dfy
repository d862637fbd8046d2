/**
 The frames of the gateway in bytes: a type byte, the length of the body as four bytes with the
 highest one first, and the body. What Gateway says about frames is said here about messages.
 */
module GatewayFrames {
  import opened Bytes
  import opened Gateway

  /** The type byte, and the body. */
  datatype Message = Message(kind: byte, body: seq<byte>)

  /** The receive ring has 2048 bytes. */
  predicate Sendable(m: Message) {
    |m.body| + 5 <= 2048
  }

  predicate AllSendable(ms: seq<Message>) {
    forall k :: 0 <= k < |ms| ==> Sendable(ms[k])
  }

  function Wire(m: Message): Frame
    requires Sendable(m)
  {
    var n := |m.body|;
    [m.kind, n / 0x100_0000, n / 0x1_0000 % 0x100, n / 0x100 % 0x100, n % 0x100] + m.body
  }

  function Wires(ms: seq<Message>): seq<Frame>
    requires AllSendable(ms)
  {
    seq(|ms|, k requires 0 <= k < |ms| => Wire(ms[k]))
  }

  /** What `n` bytes in four bytes, the highest one first, stand for. */
  lemma LengthBytes(n: nat)
    requires n < 0x8000
    ensures n / 0x100_0000 == n / 0x1_0000 % 0x100 == 0 && n / 0x100 % 0x100 * 0x100 + n % 0x100 == n
  {
  }

  lemma HeaderLength(m: Message, s: seq<byte>)
    requires Sendable(m) && |s| >= 5 && s[..5] == Wire(m)[..5]
    ensures BodyLength(s) == |m.body|
  {
    LengthBytes(|m.body|);
    assert forall k :: 0 <= k < 5 ==> s[k] == s[..5][k] == Wire(m)[k];
  }

  /** The well-formed frames are exactly those that messages make. */
  lemma WireIsWellFormed(m: Message)
    requires Sendable(m)
    ensures WellFormed(Wire(m))
  {
    HeaderLength(m, Wire(m));
  }

  lemma WellFormedIsWire(f: Frame)
    requires WellFormed(f)
    ensures var m := Message(f[0], f[5..]); Sendable(m) && f == Wire(m)
  {
    HeaderBytes(f[1], f[2], f[3], f[4], |f| - 5);
  }

  lemma HeaderBytes(a: byte, b: byte, c: byte, d: byte, n: nat)
    requires n < 0x8000
    requires var l := BigEndian(a, b, c, d); (if l >= 0x8000_0000 then l - 0x1_0000_0000 else l) == n
    ensures a == 0 && b == 0 && c == n / 0x100 && d == n % 0x100
  {
  }

  lemma WiresAreWellFormed(ms: seq<Message>)
    requires AllSendable(ms)
    ensures AllWellFormed(Wires(ms))
  {
    forall k | 0 <= k < |ms| ensures WellFormed(Wires(ms)[k]) {
      WireIsWellFormed(ms[k]);
    }
  }

  /** Of a stream of messages, cut off anywhere, the first message is taken out once it is there in
      whole, and never before. */
  lemma FirstMessage(s: seq<byte>, ms: seq<Message>)
    requires AllSendable(ms) && s <= Flatten(Wires(ms))
    ensures Complete(s) <==> ms != [] && |s| >= 5 + |ms[0].body|
    ensures Complete(s) ==> FirstFrame(s) == Wire(ms[0])
  {
    WiresAreWellFormed(ms);
    FirstIsFirst(s, Wires(ms));
  }

  /** What is taken out in a run over a stream of messages are its first messages. */
  lemma GotMessages(l: Link, ms: seq<Message>, received: seq<byte>)
    requires AllSendable(ms) && Tracks(l, Wires(ms), received)
    ensures |l.got| <= |ms| && AllSendable(ms[..|l.got|]) && l.got == Wires(ms[..|l.got|])
  {
    assert Wires(ms[..|l.got|]) == Wires(ms)[..|l.got|];
  }

  // ---- what is relayed ----

  /** Everything but logins (type 2) and data (types 7 and 8) that are no response. */
  predicate ForCloud(m: Message) {
    !(0x20 <= m.kind < 0x30) && !(0x70 <= m.kind < 0x78) && !(0x80 <= m.kind < 0x88)
  }

  /** Data (type 7) that are no response go on only if they have a header of seven bytes and there is
      a configuration without a callback. */
  predicate ForDevice(m: Message, hasConfig: bool, hasCallback: bool) {
    0x70 <= m.kind < 0x78 ==> |m.body| >= 7 && hasConfig && !hasCallback
  }

  /** A login (type 2) with a device number is answered with the result of the callback, a ping
      (type 13) with an empty body; the answer has the response bit and the version asked for. */
  function Reply(m: Message, ret: byte): seq<Message> {
    if 0x20 <= m.kind < 0x30 && |m.body| >= 5 && m.body[1..5] != [0, 0, 0, 0] then [Message(0x28 + m.kind % 8, [ret, 0])]
    else if 0xD0 <= m.kind < 0xE0 then [Message(0xD8 + m.kind % 8, [])]
    else []
  }

  /** The device number in a login, the highest byte first. */
  lemma NumberOfLogin(m: Message)
    requires Sendable(m) && |m.body| >= 5
    ensures DeviceId(Wire(m)) == m.body[1] as int * 0x100_0000 + m.body[2] as int * 0x1_0000 + m.body[3] as int * 0x100 + m.body[4]
    ensures DeviceId(Wire(m)) == 0 <==> m.body[1..5] == [0, 0, 0, 0]
  {
    var f := Wire(m);
    assert f[6] == m.body[1] && f[7] == m.body[2] && f[8] == m.body[3] && f[9] == m.body[4];
    assert m.body[1..5] == [m.body[1], m.body[2], m.body[3], m.body[4]];
  }

  /** What the gateway does with a message, by its first byte. */
  lemma RelaysByType(m: Message, hasConfig: bool, hasCallback: bool)
    requires Sendable(m)
    ensures ToCloud(Wire(m)) <==> ForCloud(m)
    ensures ToDevice(Wire(m), hasConfig, hasCallback) <==> ForDevice(m, hasConfig, hasCallback)
  {
  }

  lemma AnswersByType(m: Message, ret: byte)
    requires Sendable(m)
    ensures AllSendable(Reply(m, ret)) && Answer(Wire(m), ret) == Wires(Reply(m, ret))
  {
    if |m.body| >= 5 {
      NumberOfLogin(m);
    }
    var f := Wire(m);
    assert |f| == |m.body| + 5 && f[0] == m.kind && Type(f) == m.kind / 16 && Version(f) == m.kind % 8;
    if Reply(m, ret) != [] {
      var r := Reply(m, ret)[0];
      AnswerIsWire(r);
      assert Reply(m, ret) == [r];
      assert [r.kind, 0, 0, 0, |r.body|] + r.body
        == if r.body == [] then [r.kind, 0, 0, 0, 0] else [r.kind, 0, 0, 0, 2, ret, 0];
    } else {
      assert Answer(f, ret) == [] == Wires([]);
    }
  }

  lemma AnswerIsWire(r: Message)
    requires |r.body| <= 2
    ensures Wires([r]) == [[r.kind, 0, 0, 0, |r.body|] + r.body]
  {
    assert Wires([r]) == [Wire(r)];
  }

  /** Every frame the gateway sends of its own is well-formed. */
  lemma AnswersAreWellFormed(f: Frame, ret: byte)
    requires WellFormed(f)
    ensures AllWellFormed(Answer(f, ret))
  {
    WellFormedIsWire(f);
    var m := Message(f[0], f[5..]);
    AnswersByType(m, ret);
    WiresAreWellFormed(Reply(m, ret));
  }

  function OnlyForCloud(ms: seq<Message>): seq<Message> {
    if ms == [] then []
    else
      var n := |ms| - 1;
      OnlyForCloud(ms[..n]) + if ForCloud(ms[n]) then [ms[n]] else []
  }

  function Replies(ms: seq<Message>, rets: seq<byte>): seq<Message>
    requires |ms| == |rets|
  {
    if ms == [] then []
    else
      var n := |ms| - 1;
      Replies(ms[..n], rets[..n]) + Reply(ms[n], rets[n])
  }

  function OnlyForDevice(ms: seq<Message>, hasConfig: bool, hasCallback: bool): seq<Message> {
    if ms == [] then []
    else
      var n := |ms| - 1;
      OnlyForDevice(ms[..n], hasConfig, hasCallback) + if ForDevice(ms[n], hasConfig, hasCallback) then [ms[n]] else []
  }

  lemma WiresJoinIf(ms: seq<Message>, m: Message, more: bool)
    requires AllSendable(ms) && Sendable(m)
    ensures var all := ms + if more then [m] else [];
      AllSendable(all) && Wires(all) == Wires(ms) + if more then [Wire(m)] else []
  {
  }

  lemma WiresJoin(ms: seq<Message>, ns: seq<Message>)
    requires AllSendable(ms) && AllSendable(ns)
    ensures AllSendable(ms + ns) && Wires(ms + ns) == Wires(ms) + Wires(ns)
  {
  }

  /** The gateway answers a stream of messages one by one. */
  lemma {:induction false} DeviceIsAnswered(ms: seq<Message>, rets: seq<byte>)
    requires AllSendable(ms) && |ms| == |rets|
    ensures AllSendable(Replies(ms, rets)) && Answers(Wires(ms), rets) == Wires(Replies(ms, rets))
  {
    if ms != [] {
      var n := |ms| - 1;
      DeviceIsAnswered(ms[..n], rets[..n]);
      assert Wires(ms)[..n] == Wires(ms[..n]);
      AnswersByType(ms[n], rets[n]);
      WiresJoin(Replies(ms[..n], rets[..n]), Reply(ms[n], rets[n]));
    }
  }

  /** Of a stream of messages those meant for the cloud go on, in order. */
  lemma {:induction false} CloudGets(ms: seq<Message>)
    requires AllSendable(ms)
    ensures AllSendable(OnlyForCloud(ms)) && CloudOnly(Wires(ms)) == Wires(OnlyForCloud(ms))
  {
    if ms != [] {
      var n := |ms| - 1;
      CloudGets(ms[..n]);
      assert Wires(ms)[..n] == Wires(ms[..n]);
      RelaysByType(ms[n], false, false);
      WiresJoinIf(OnlyForCloud(ms[..n]), ms[n], ForCloud(ms[n]));
    }
  }

  lemma {:induction false} DeviceGets(ms: seq<Message>, hasConfig: bool, hasCallback: bool)
    requires AllSendable(ms)
    ensures AllSendable(OnlyForDevice(ms, hasConfig, hasCallback))
    ensures DeviceOnly(Wires(ms), hasConfig, hasCallback) == Wires(OnlyForDevice(ms, hasConfig, hasCallback))
  {
    if ms != [] {
      var n := |ms| - 1;
      DeviceGets(ms[..n], hasConfig, hasCallback);
      assert Wires(ms)[..n] == Wires(ms[..n]);
      RelaysByType(ms[n], hasConfig, hasCallback);
      WiresJoinIf(OnlyForDevice(ms[..n], hasConfig, hasCallback), ms[n], ForDevice(ms[n], hasConfig, hasCallback));
    }
  }
}
