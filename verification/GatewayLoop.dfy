/**
 The C side of the gateway: `XGProtocolClient` and `XGProtocolServer` on one connection,
 and the turns of `XGCoreThread` that call them.
 */
module GatewayLoop {
  import opened Bytes
  import opened ByteQueue
  import opened Gateway
  import opened GatewayFrames
  import opened Numbers

  /** What the gateway has queued for the cloud are the frames of the device that go on, in order;
      what it has queued for the device are its own answers to the device and the frames of the cloud
      that go on, each in order; `results` says what the login callback returned, or would have. */
  ghost predicate Relayed(fromDevice: seq<Frame>, fromCloud: seq<Frame>, results: seq<byte>,
                          toCloud: seq<Frame>, toDevice: seq<Frame>, hasConfig: bool, hasCallback: bool) {
    && (forall k :: 0 <= k < |fromDevice| ==> fromDevice[k] != [])
    && (forall k :: 0 <= k < |fromCloud| ==> fromCloud[k] != [])
    && |results| == |fromDevice| && toCloud == CloudOnly(fromDevice)
    && Interleaves(toDevice, Answers(fromDevice, results), DeviceOnly(fromCloud, hasConfig, hasCallback))
  }

  lemma RelayedFromDevice(fromDevice: seq<Frame>, fromCloud: seq<Frame>, results: seq<byte>,
                          toCloud: seq<Frame>, toDevice: seq<Frame>, hasConfig: bool, hasCallback: bool,
                          f: Frame, loginResult: byte)
    requires Relayed(fromDevice, fromCloud, results, toCloud, toDevice, hasConfig, hasCallback) && f != []
    ensures Relayed(fromDevice + [f], fromCloud, results + [loginResult],
                    toCloud + (if ToCloud(f) then [f] else []), toDevice + Answer(f, loginResult), hasConfig, hasCallback)
  {
    InterleavesAppend(toDevice, Answers(fromDevice, results), DeviceOnly(fromCloud, hasConfig, hasCallback),
                      Answer(f, loginResult));
    assert (results + [loginResult])[..|results|] == results;
    assert (fromDevice + [f])[..|fromDevice|] == fromDevice;
  }

  lemma RelayedFromCloud(fromDevice: seq<Frame>, fromCloud: seq<Frame>, results: seq<byte>,
                         toCloud: seq<Frame>, toDevice: seq<Frame>, hasConfig: bool, hasCallback: bool, f: Frame)
    requires Relayed(fromDevice, fromCloud, results, toCloud, toDevice, hasConfig, hasCallback) && f != []
    ensures Relayed(fromDevice, fromCloud + [f], results, toCloud,
                    toDevice + (if ToDevice(f, hasConfig, hasCallback) then [f] else []), hasConfig, hasCallback)
  {
    InterleavesAppend(toDevice, Answers(fromDevice, results), DeviceOnly(fromCloud, hasConfig, hasCallback),
                      if ToDevice(f, hasConfig, hasCallback) then [f] else []);
    assert (fromCloud + [f])[..|fromCloud|] == fromCloud;
  }

  class Connection {
    const clientBuffer: Queue
    const serverBuffer: Queue
    const loginData: array<byte>
    const hasConfig: bool
    const hasCallback: bool
    var loginDatalength: nat
    var clientSendQueue: seq<Frame>
    var serverSendQueue: seq<Frame>
    var deviceId: nat
    var isActive: bool
    var clientLogined: bool
    var serverLogined: bool
    ghost var fromDevice: seq<Frame>
    ghost var fromCloud: seq<Frame>
    ghost var results: seq<byte>

    /** Two separate rings, and a buffer for the login. */
    ghost predicate Rings()
      reads clientBuffer, serverBuffer, clientBuffer.Buffer, serverBuffer.Buffer
    {
      && clientBuffer != serverBuffer && clientBuffer.Buffer != serverBuffer.Buffer
      && loginData != clientBuffer.Buffer && loginData != serverBuffer.Buffer
      && clientBuffer.Valid() && serverBuffer.Valid() && loginData.Length == 64
    }

    ghost predicate Valid()
      reads this, clientBuffer, serverBuffer, clientBuffer.Buffer, serverBuffer.Buffer
    {
      && Rings()
      && Relayed(fromDevice, fromCloud, results, serverSendQueue, clientSendQueue, hasConfig, hasCallback)
    }

    ghost function Client(): Link
      requires clientBuffer.Valid()
      reads this, clientBuffer, clientBuffer.Buffer
    {
      Link(clientBuffer.Contents(), fromDevice)
    }

    ghost function Server(): Link
      requires serverBuffer.Valid()
      reads this, serverBuffer, serverBuffer.Buffer
    {
      Link(serverBuffer.Contents(), fromCloud)
    }

    constructor (config: bool, callback: bool)
      ensures Valid() && fresh(clientBuffer) && fresh(serverBuffer) && fresh(loginData)
      ensures fresh(clientBuffer.Buffer) && fresh(serverBuffer.Buffer)
      ensures Client() == EMPTY && Server() == EMPTY && isActive
    {
      clientBuffer := new Queue();
      serverBuffer := new Queue();
      loginData := new byte[64](_ => 0);
      hasConfig, hasCallback := config, callback;
      loginDatalength, deviceId := 0, 0;
      clientSendQueue, serverSendQueue := [], [];
      isActive, clientLogined, serverLogined := true, false, false;
      fromDevice, fromCloud, results := [], [], [];
    }
  
    /** `XGRemoveConnectByDeviceID`, as far as it concerns this connection. */
    method RemoveByDeviceId(id: nat)
      modifies this`isActive, this`clientLogined
      ensures deviceId == id ==> !isActive && !clientLogined
      ensures deviceId != id ==> isActive == old(isActive) && clientLogined == old(clientLogined)
    {
      if deviceId == id {
        isActive, clientLogined := false, false;
      }
    }

    /** `XGProDeviceConnectRequest`: true when the frame carries a device id. */
    method DeviceConnectRequest(f: Frame) returns (accepted: bool)
      requires f != []
      modifies this`isActive, this`clientLogined, this`deviceId
      ensures accepted == (|f| >= 10 && DeviceId(f) != 0)
      ensures deviceId == if accepted then DeviceId(f) else old(deviceId)
      ensures isActive == (old(isActive) && |f| >= 10 && (accepted ==> old(deviceId) != DeviceId(f)))
      ensures clientLogined == (old(clientLogined) && (accepted ==> old(deviceId) != DeviceId(f)))
    {
      if |f| < 10 {
        isActive := false;
        return false;
      }
      var id := DeviceId(f);
      if id == 0 {
        return false;
      }
      RemoveByDeviceId(id);
      deviceId := id;
      return true;
    }

    /** `XGProtocolClient`: takes out the oldest frame of the device once it is complete, answers
        logins and pings, and relays what is not for the gateway itself. `loginResult` is what the
        login callback would return. */
    method ProtocolClient(loginResult: byte)
      requires Valid() && HeadIsFrame(clientBuffer.Contents()) && HeadFits(clientBuffer.Contents())
      modifies this, clientBuffer`StartIndex, clientBuffer`EndIndex, loginData
      ensures Valid() && unchanged(`fromCloud, `serverLogined) && serverBuffer.Contents() == old(serverBuffer.Contents())
      ensures Client() == Extract(old(Client()))
      ensures results == old(results) + if Complete(old(clientBuffer.Contents())) then [loginResult] else []
    {
      var que := TakeFrame(clientBuffer);
      if |que| == 0 {
        assert results == results + [];
        return;
      }
      ExtractIs(old(Client()), que, clientBuffer.Contents());
      HandleClient(que, loginResult);
    }

    /** The frame just taken out of the ring of the device is answered, relayed or dropped. */
    method HandleClient(que: Frame, loginResult: byte)
      requires Valid() && que != [] && LoginFits(que)
      modifies this, loginData
      ensures Valid() && unchanged(`fromCloud, `serverLogined)
      ensures fromDevice == old(fromDevice) + [que] && results == old(results) + [loginResult]
      ensures clientBuffer.Contents() == old(clientBuffer.Contents()) && serverBuffer.Contents() == old(serverBuffer.Contents())
    {
      RelayedFromDevice(fromDevice, fromCloud, results, serverSendQueue, clientSendQueue, hasConfig, hasCallback, que, loginResult);
      var relay := DispatchClient(que, loginResult);
      if relay {
        serverSendQueue := serverSendQueue + [que];
      } else {
        assert serverSendQueue + [] == serverSendQueue;
      }
      fromDevice := fromDevice + [que];
      results := results + [loginResult];
    }

    /** What `XGProtocolClient` does with a frame it has taken out; true to relay it. */
    method DispatchClient(que: Frame, loginResult: byte) returns (relay: bool)
      requires que != [] && loginData.Length == 64 && LoginFits(que)
      modifies this`loginDatalength, this`clientSendQueue, this`deviceId, this`isActive, this`clientLogined, loginData
      ensures relay == ToCloud(que)
      ensures clientSendQueue == old(clientSendQueue) + Answer(que, loginResult)
      ensures Type(que) == TYPE_CONNECT ==> loginDatalength == |que| && loginData[..|que|] == que
      ensures Type(que) == TYPE_CONNECT && |que| < 10 ==> !isActive
      ensures Type(que) == TYPE_CONNECT && |que| >= 10 && DeviceId(que) != 0 ==>
        deviceId == DeviceId(que) && isActive == (old(isActive) && old(deviceId) != deviceId) &&
        clientLogined == (loginResult == 0 || (old(clientLogined) && old(deviceId) != deviceId))
      ensures Type(que) != TYPE_CONNECT ==>
        deviceId == old(deviceId) && isActive == old(isActive) && clientLogined == old(clientLogined)
    {
      relay := true;
      if Type(que) == TYPE_CONNECT {
        forall k | 0 <= k < |que| {
          loginData[k] := que[k];
        }
        loginDatalength := |que|;
        var accepted := DeviceConnectRequest(que);
        if accepted {
          if loginResult == 0 {
            clientLogined := true;
          }
          clientSendQueue := clientSendQueue + [[RespByte(TYPE_CONNECT, Version(que)), 0, 0, 0, 2, loginResult, 0]];
        }
        relay := false;
      } else if (Type(que) == TYPE_PIPE || Type(que) == TYPE_PIPE_2) && Resp(que) == 0 {
        relay := false;
      } else if Type(que) == TYPE_PING {
        clientSendQueue := clientSendQueue + [[RespByte(TYPE_PING, Version(que)), 0, 0, 0, 0]];
      }
    }

    /** `XGProtocolServer`: the same for frames of the cloud. */
    method ProtocolServer()
      requires Valid() && HeadIsFrame(serverBuffer.Contents())
      modifies this`clientSendQueue, this`fromCloud, this`serverLogined, serverBuffer`StartIndex, serverBuffer`EndIndex
      ensures Valid() && clientBuffer.Contents() == old(clientBuffer.Contents())
      ensures Server() == Extract(old(Server()))
    {
      var que := TakeFrame(serverBuffer);
      if |que| == 0 {
        return;
      }
      ExtractIs(old(Server()), que, serverBuffer.Contents());
      HandleServer(que);
    }

    method HandleServer(que: Frame)
      requires Valid() && que != []
      modifies this`clientSendQueue, this`fromCloud, this`serverLogined
      ensures Valid() && fromCloud == old(fromCloud) + [que]
      ensures serverLogined == (old(serverLogined) || Type(que) == TYPE_CONNECT)
    {
      RelayedFromCloud(fromDevice, fromCloud, results, serverSendQueue, clientSendQueue, hasConfig, hasCallback, que);
      var relay := true;
      if Type(que) == TYPE_CONNECT {
        serverLogined := true;
      } else if Type(que) == TYPE_PIPE && Resp(que) == 0 {
        relay := |que| >= 12 && hasConfig && !hasCallback;
      }
      fromCloud := fromCloud + [que];
      if relay {
        clientSendQueue := clientSendQueue + [que];
      } else {
        assert clientSendQueue + [] == clientSendQueue;
      }
    }

    /** `XGProtocol`: with fewer than five bytes stored there is nothing to do; the second test counts
        the bytes of both rings, which makes no difference. */
    method Protocol(loginResult: byte)
      requires Valid() && HeadIsFrame(clientBuffer.Contents()) && HeadFits(clientBuffer.Contents())
      requires HeadIsFrame(serverBuffer.Contents())
      modifies this, clientBuffer`StartIndex, clientBuffer`EndIndex, serverBuffer`StartIndex, serverBuffer`EndIndex, loginData
      ensures Valid() && Client() == Extract(old(Client())) && Server() == Extract(old(Server()))
    {
      var size := clientBuffer.Size();
      if size > 4 {
        ProtocolClient(loginResult);
      }
      var more := serverBuffer.Size();
      size := size + more;
      if size > 4 {
        ProtocolServer();
      }
    }

    /** `XGRecvConnectClient` after a readable `select`: `recv` is offered the free room of the
        ring and returns up to `ready` bytes of the stream from `pos` on. */
    method RecvClient(stream: seq<byte>, pos: nat, ready: nat) returns (size: nat)
      requires Valid() && pos <= |stream| && |clientBuffer.Contents()| < SIZE
      modifies clientBuffer`EndIndex, clientBuffer.Buffer
      ensures Valid() && pos + size <= |stream| && |old(clientBuffer.Contents())| + size <= SIZE
      ensures Client() == old(Client()).(queue := old(clientBuffer.Contents()) + stream[pos..pos + size])
      ensures serverBuffer.Contents() == old(serverBuffer.Contents())
    {
      var used := clientBuffer.Size();
      var offered := SIZE - used;
      assert offered > 0;
      size := Min(ready, Min(offered, |stream| - pos));
      var n := clientBuffer.Push(stream[pos..pos + size]);
      assert stream[pos..pos + size][..n] == stream[pos..pos + size];
    }

    /** `XGRecvConnectServer` likewise. */
    method RecvServer(stream: seq<byte>, pos: nat, ready: nat) returns (size: nat)
      requires Valid() && pos <= |stream| && |serverBuffer.Contents()| < SIZE
      modifies serverBuffer`EndIndex, serverBuffer.Buffer
      ensures Valid() && pos + size <= |stream| && |old(serverBuffer.Contents())| + size <= SIZE
      ensures Server() == old(Server()).(queue := old(serverBuffer.Contents()) + stream[pos..pos + size])
      ensures clientBuffer.Contents() == old(clientBuffer.Contents())
    {
      var used := serverBuffer.Size();
      var offered := SIZE - used;
      assert offered > 0;
      size := Min(ready, Min(offered, |stream| - pos));
      var n := serverBuffer.Push(stream[pos..pos + size]);
      assert stream[pos..pos + size][..n] == stream[pos..pos + size];
    }
  }

  /** How much each socket has ready in one turn, and what a login would return. */
  datatype Event = Event(fromDevice: nat, fromCloud: nat, loginResult: byte)

  /** The first half of `XGProtocolClient` and `XGProtocolServer`: the oldest frame, if it is complete. */
  method TakeFrame(buffer: Queue) returns (que: Frame)
    requires buffer.Valid() && HeadIsFrame(buffer.Contents())
    modifies buffer`StartIndex, buffer`EndIndex
    ensures buffer.Valid() && (que == [] <==> !Complete(old(buffer.Contents())))
    ensures que == [] ==> buffer.Contents() == old(buffer.Contents())
    ensures que != [] ==> que == FirstFrame(old(buffer.Contents())) && buffer.Contents() == old(buffer.Contents())[|que|..]
  {
    que := [];
    var used := buffer.Size();
    if used < 5 {
      return;
    }
    var header := buffer.Peer(5);
    var bodylength := BodyLength(header);
    if bodylength + 5 > used {
      return;
    }
    que := buffer.Peer(bodylength + 5);
    buffer.Pop(bodylength + 5);
  }

  /** What the C code relies on at the head of a ring: a length that is not negative. */
  predicate HeadIsFrame(s: seq<byte>) {
    |s| >= 5 ==> BodyLength(s) >= 0
  }

  /** What it relies on at the head of the ring of the device: a login that fits `loginData`. */
  predicate HeadFits(s: seq<byte>) {
    Complete(s) ==> LoginFits(FirstFrame(s))
  }

  predicate LoginFits(f: Frame)
    requires f != []
  {
    Type(f) == TYPE_CONNECT ==> |f| <= 64
  }

  predicate LoginsFit(fs: seq<Frame>) {
    forall k :: 0 <= k < |fs| ==> fs[k] != [] && LoginFits(fs[k])
  }

  lemma HeadIsFirst(l: Link, fs: seq<Frame>, received: seq<byte>)
    requires AllWellFormed(fs) && Tracks(l, fs, received)
    ensures HeadIsFrame(l.queue) && (LoginsFit(fs) ==> HeadFits(l.queue))
  {
    StoredIsRest(l, fs, received);
    var rest := fs[|l.got|..];
    FirstIsFirst(l.queue, rest);
    if |l.queue| >= 5 {
      assert rest != [];
      assert forall k :: 0 <= k < 5 ==> l.queue[k] == Flatten(rest)[k] == rest[0][k];
    }
  }

  /** One turn of `XGCoreThread`: frames are taken out first (`XGProtocolStart`), then both sockets
      are read. */
  method CoreTurn(conn: Connection, e: Event, device: seq<byte>, devicePos: nat, cloud: seq<byte>, cloudPos: nat)
    returns (fromDevice: nat, fromCloud: nat)
    requires conn.Valid() && devicePos <= |device| && cloudPos <= |cloud|
    requires HeadIsFrame(conn.clientBuffer.Contents()) && HeadFits(conn.clientBuffer.Contents())
    requires |Extract(conn.Client()).queue| < SIZE
    requires HeadIsFrame(conn.serverBuffer.Contents()) && |Extract(conn.Server()).queue| < SIZE
    modifies conn, conn.clientBuffer, conn.serverBuffer, conn.clientBuffer.Buffer, conn.serverBuffer.Buffer, conn.loginData
    ensures conn.Valid() && devicePos + fromDevice <= |device| && cloudPos + fromCloud <= |cloud|
    ensures |Extract(old(conn.Client())).queue| + fromDevice <= SIZE && |Extract(old(conn.Server())).queue| + fromCloud <= SIZE
    ensures conn.Client() == Turn(old(conn.Client()), device[devicePos..devicePos + fromDevice])
    ensures conn.Server() == Turn(old(conn.Server()), cloud[cloudPos..cloudPos + fromCloud])
  {
    conn.Protocol(e.loginResult);
    fromDevice := conn.RecvClient(device, devicePos, e.fromDevice);
    fromCloud := conn.RecvServer(cloud, cloudPos, e.fromCloud);
  }

  /** A turn keeps both links in step with their streams. */
  method TrackedTurn(conn: Connection, e: Event, ghost device: seq<Frame>, deviceStream: seq<byte>, devicePos: nat,
                     ghost cloud: seq<Frame>, cloudStream: seq<byte>, cloudPos: nat)
    returns (devicePos': nat, cloudPos': nat)
    requires conn.Valid() && AllWellFormed(device) && LoginsFit(device) && AllWellFormed(cloud)
    requires deviceStream == Flatten(device) && cloudStream == Flatten(cloud)
    requires devicePos <= |deviceStream| && Tracks(conn.Client(), device, deviceStream[..devicePos])
    requires cloudPos <= |cloudStream| && Tracks(conn.Server(), cloud, cloudStream[..cloudPos])
    modifies conn, conn.clientBuffer, conn.serverBuffer, conn.clientBuffer.Buffer, conn.serverBuffer.Buffer, conn.loginData
    ensures conn.Valid()
    ensures devicePos <= devicePos' <= |deviceStream| && Tracks(conn.Client(), device, deviceStream[..devicePos'])
    ensures cloudPos <= cloudPos' <= |cloudStream| && Tracks(conn.Server(), cloud, cloudStream[..cloudPos'])
  {
    ReadyForTurn(conn.Client(), device, deviceStream[..devicePos]);
    ReadyForTurn(conn.Server(), cloud, cloudStream[..cloudPos]);
    ghost var client, server := conn.Client(), conn.Server();
    var d, c := CoreTurn(conn, e, deviceStream, devicePos, cloudStream, cloudPos);
    TurnReads(client, device, devicePos, d);
    TurnReads(server, cloud, cloudPos, c);
    devicePos', cloudPos' := devicePos + d, cloudPos + c;
  }

  /** `XGCoreThread` on one connection that a device and the cloud send messages to, for any order of
      events: `n` messages of the device and `m` of the cloud have been taken out, whole and in order;
      those not meant for the gateway itself are queued for the other side; the rings hold exactly the
      bytes that came behind them, and `recv` was always offered room. A connection that is no longer
      active is removed. */
  method CoreThread(conn: Connection, device: seq<Message>, cloud: seq<Message>, events: seq<Event>)
    returns (devicePos: nat, cloudPos: nat, ghost n: nat, ghost m: nat)
    requires conn.Valid() && conn.Client() == EMPTY && conn.Server() == EMPTY
    requires AllSendable(device) && LoginsShort(device) && AllSendable(cloud)
    modifies conn, conn.clientBuffer, conn.serverBuffer, conn.clientBuffer.Buffer, conn.serverBuffer.Buffer, conn.loginData
    ensures conn.Valid() && devicePos <= |Flatten(Wires(device))| && cloudPos <= |Flatten(Wires(cloud))|
    ensures Tracks(conn.Client(), Wires(device), Flatten(Wires(device))[..devicePos])
    ensures Tracks(conn.Server(), Wires(cloud), Flatten(Wires(cloud))[..cloudPos])
    ensures n <= |device| && AllSendable(device[..n]) && conn.Client().got == Wires(device[..n])
    ensures m <= |cloud| && AllSendable(cloud[..m]) && conn.Server().got == Wires(cloud[..m])
    ensures |conn.results| == n
    ensures GoesOn(device[..n], cloud[..m], conn.results, conn.serverSendQueue, conn.clientSendQueue, conn.hasConfig, conn.hasCallback)
  {
    WiresAreWellFormed(device);
    WiresAreWellFormed(cloud);
    LoginsFitWires(device);
    devicePos, cloudPos := CoreTurns(conn, Wires(device), Wires(cloud), events);
    n, m := |conn.Client().got|, |conn.Server().got|;
    GotMessages(conn.Client(), device, Flatten(Wires(device))[..devicePos]);
    GotMessages(conn.Server(), cloud, Flatten(Wires(cloud))[..cloudPos]);
    MessagesGoOn(device[..n], cloud[..m], conn.results, conn.serverSendQueue, conn.clientSendQueue,
                 conn.hasConfig, conn.hasCallback);
  }

  /** A login is kept in 64 bytes. */
  predicate LoginsShort(ms: seq<Message>) {
    forall k :: 0 <= k < |ms| ==> (0x20 <= ms[k].kind < 0x30 ==> |ms[k].body| + 5 <= 64)
  }

  lemma LoginsFitWires(ms: seq<Message>)
    requires AllSendable(ms) && LoginsShort(ms)
    ensures LoginsFit(Wires(ms))
  {
    forall k | 0 <= k < |ms| ensures LoginFits(Wires(ms)[k]) {
      assert Wires(ms)[k] == Wire(ms[k]);
    }
  }

  /** What is queued for the cloud are the messages of the device meant for it, in order; what is queued
      for the device are the answers of the gateway and the messages of the cloud meant for it, each in order. */
  ghost predicate GoesOn(device: seq<Message>, cloud: seq<Message>, results: seq<byte>,
                         toCloud: seq<Frame>, toDevice: seq<Frame>, hasConfig: bool, hasCallback: bool)
    requires |results| == |device|
  {
    var forCloud, forDevice, replies := OnlyForCloud(device), OnlyForDevice(cloud, hasConfig, hasCallback), Replies(device, results);
    && AllSendable(forCloud) && toCloud == Wires(forCloud)
    && AllSendable(forDevice) && AllSendable(replies) && Interleaves(toDevice, Wires(replies), Wires(forDevice))
  }

  lemma MessagesGoOn(device: seq<Message>, cloud: seq<Message>, results: seq<byte>,
                     toCloud: seq<Frame>, toDevice: seq<Frame>, hasConfig: bool, hasCallback: bool)
    requires AllSendable(device) && AllSendable(cloud)
    requires Relayed(Wires(device), Wires(cloud), results, toCloud, toDevice, hasConfig, hasCallback)
    ensures |results| == |device| && GoesOn(device, cloud, results, toCloud, toDevice, hasConfig, hasCallback)
  {
    DeviceIsAnswered(device, results);
    CloudGets(device);
    DeviceGets(cloud, hasConfig, hasCallback);
  }

  /** The turns of the loop, on any well-formed frames. */
  method CoreTurns(conn: Connection, device: seq<Frame>, cloud: seq<Frame>, events: seq<Event>)
    returns (devicePos: nat, cloudPos: nat)
    requires conn.Valid() && conn.Client() == EMPTY && conn.Server() == EMPTY
    requires AllWellFormed(device) && LoginsFit(device) && AllWellFormed(cloud)
    modifies conn, conn.clientBuffer, conn.serverBuffer, conn.clientBuffer.Buffer, conn.serverBuffer.Buffer, conn.loginData
    ensures conn.Valid() && devicePos <= |Flatten(device)| && cloudPos <= |Flatten(cloud)|
    ensures Tracks(conn.Client(), device, Flatten(device)[..devicePos])
    ensures Tracks(conn.Server(), cloud, Flatten(cloud)[..cloudPos])
  {
    devicePos, cloudPos := 0, 0;
    var deviceStream, cloudStream := Flatten(device), Flatten(cloud);
    var i := 0;
    while i < |events| && conn.isActive
      invariant 0 <= i <= |events| && conn.Valid()
      invariant devicePos <= |deviceStream| && cloudPos <= |cloudStream|
      invariant Tracks(conn.Client(), device, deviceStream[..devicePos])
      invariant Tracks(conn.Server(), cloud, cloudStream[..cloudPos])
    {
      devicePos, cloudPos := TrackedTurn(conn, events[i], device, deviceStream, devicePos, cloud, cloudStream, cloudPos);
      i := i + 1;
    }
  }

  lemma ReadyForTurn(l: Link, fs: seq<Frame>, received: seq<byte>)
    requires AllWellFormed(fs) && Tracks(l, fs, received)
    ensures HeadIsFrame(l.queue) && (LoginsFit(fs) ==> HeadFits(l.queue)) && |Extract(l).queue| < SIZE
  {
    HeadIsFirst(l, fs, received);
    RoomToReceive(l, fs, received);
  }

  lemma TurnReads(l: Link, fs: seq<Frame>, pos: nat, size: nat)
    requires AllWellFormed(fs) && pos + size <= |Flatten(fs)| && Tracks(l, fs, Flatten(fs)[..pos])
    requires |Extract(l).queue| + size <= SIZE
    ensures Tracks(Turn(l, Flatten(fs)[pos..pos + size]), fs, Flatten(fs)[..pos + size])
  {
    var s := Flatten(fs);
    assert s[..pos] + s[pos..pos + size] == s[..pos + size];
    TurnTracks(l, fs, s[..pos], s[pos..pos + size]);
  }
}
