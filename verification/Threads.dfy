/**
 The threads at the two ends as steps of a session: what a turn of the server's command thread, a turn
 of the client's dispatcher with the sample client's callbacks, and login do in place is what these
 actions do to the session. Each method calls the code of the thread and gives the actions from nothing
 but its contract.
 */
module Threads {
  import opened Wrappers
  import opened NetProtocol
  import opened Framing
  import opened AntProtocol
  import opened FileClient
  import opened Session
  import P = Pipe
  import D = Dispatch
  import X = Exchange
  import Registry = ClientRegistry
  import ClientDispatch
  import TcpServer
  import TcpClient
  import Completion
  import Transport

  ghost predicate CanRun(s: Session, acts: seq<Action>, content: X.Content)
    decreases |acts|
  {
    acts == [] || (CanDo(s, acts[0], content) && CanRun(Do(s, acts[0]), acts[1..], content))
  }

  ghost function Run(s: Session, acts: seq<Action>, content: X.Content): Session
    requires CanRun(s, acts, content)
    decreases |acts|
  {
    if acts == [] then s else Run(Do(s, acts[0]), acts[1..], content)
  }

  lemma {:induction false} RunFirst(s: Session, a: Action, rest: seq<Action>, content: X.Content)
    requires CanDo(s, a, content) && CanRun(Do(s, a), rest, content)
    ensures CanRun(s, [a] + rest, content) && Run(s, [a] + rest, content) == Run(Do(s, a), rest, content)
  {
    hide CanDo, Do;
    assert ([a] + rest)[1..] == rest;
  }

  /* The objects as they are made */

  method ClientStarts(sk: Transport.Socket, ghost login: Frame)
    returns (app: TestClient, dispatcher: ClientDispatch.Dispatcher)
    ensures fresh(app) && fresh(dispatcher) && dispatcher.Valid()
    ensures IsClient(dispatcher, app, Start(login).(c2s := P.Fresh([])))
    ensures Start(login).c2s == P.Append(P.Fresh([]), login)
  {
    var client := new TcpClient.QNetClient(sk);
    app := new TestClient(client);
    dispatcher := new ClientDispatch.Dispatcher(client.recvWindow);
  }

  method ServerStarts(sk: Transport.Socket, ghost login: Frame)
    returns (server: TcpServer.QNetTcpServer, thread: D.CommandThread)
    requires sk.incoming == [] && sk.outgoing == []
    ensures fresh(server) && fresh(thread) && thread.Ready()
    ensures IsCommandThread(thread, Start(login)) && IsServerSocket(server, Start(login), [])
  {
    server := new TcpServer.QNetTcpServer(sk);
    thread := new D.CommandThread(server.recvWindow, server.sendWindow);
  }

  /* The server's command thread */

  function Emits(n: nat): seq<Action> {
    if n == 0 then [] else [Emit] + Emits(n - 1)
  }

  // The answers enter the send window one by one.
  lemma {:induction false} EmitsRun(s: Session, content: X.Content)
    ensures CanRun(s, Emits(|s.outbox|), content)
    ensures var t := Run(s, Emits(|s.outbox|), content);
            && t.s2c.sendWin == s.s2c.sendWin + s.outbox && t.outbox == []
            && t.c2s == s.c2s && t.file == s.file && t.services == s.services
    decreases |s.outbox|
  {
    if s.outbox == [] {
      assert s.s2c.sendWin + [] == s.s2c.sendWin;
    } else {
      var t := Do(s, Emit);
      EmitsRun(t, content);
      RunFirst(s, Emit, Emits(|t.outbox|), content);
      assert s.s2c.sendWin + s.outbox == t.s2c.sendWin + t.outbox;
    }
  }

  // The thread's objects hold what the session says of them.
  ghost predicate IsCommandThread(thread: D.CommandThread, s: Session)
    reads thread.recvWindow, thread.ant, thread.ant.sendSliding
  {
    && thread.recvWindow.frames == s.c2s.recvWin && thread.ant.sendSliding.frames == s.s2c.sendWin
    && thread.ant.file == s.file && s.outbox == []
  }

  method ServerAnswers(thread: D.CommandThread, buffer: array<byte>, env: D.Env, ghost s: Session,
                       ghost content: X.Content)
    returns (ghost acts: seq<Action>)
    requires thread.Ready() && D.Sane(env) && thread.recvWindow != thread.ant.sendSliding
    requires IsCommandThread(thread, s) && s.loggedIn && GoodFile(s.file)
    requires s.c2s.recvWin != [] ==>
               var f := s.c2s.recvWin[0];
               && |f| <= buffer.Length && D.Sized(f) && (X.IsSend(f) ==> s.file != Closed)
               && (X.IsStart(f) ==> env.found == Some(content))
    modifies buffer, thread.recvWindow, thread.ant`file, thread.ant`path, thread.ant`streamId, thread.ant.sendSliding
    ensures CanRun(s, acts, content) && IsCommandThread(thread, Run(s, acts, content))
    ensures s.c2s.recvWin != [] ==>
              var t := Run(s, acts, content);
              |t.services| == |s.services| + 1 && t.c2s.dispatched == s.c2s.dispatched + [s.c2s.recvWin[0]]
  {
    hide D.Answers, D.Sized, TypeOf, SubOf, D.Handler;
    if s.c2s.recvWin != [] {
      Defined(thread, s);
    }
    ghost var resp := thread.RunCmdProcessOnce(buffer, env);
    acts := [];
    if s.c2s.recvWin != [] {
      ghost var serve := Serve(env, thread.ant.file, resp);
      ghost var t := Do(s, serve);
      EmitsRun(t, content);
      RunFirst(s, serve, Emits(|resp|), content);
      acts := [serve] + Emits(|resp|);
    }
  }

  lemma {:induction false} Defined(thread: D.CommandThread, s: Session)
    requires IsCommandThread(thread, s) && GoodFile(s.file) && s.c2s.recvWin != []
    requires D.Sized(s.c2s.recvWin[0]) && (X.IsSend(s.c2s.recvWin[0]) ==> s.file != Closed)
    ensures var f := s.c2s.recvWin[0]; HEAD_SIZE <= |f| && thread.Defined(TypeOf(f), SubOf(f), |f| - HEAD_SIZE)
  {
    hide TypeOf, SubOf;
  }

  /* The client's dispatcher */

  // The functions that the sample client sets for the two acknowledgements of a transfer.
  const FILESTART_ACK := Registry.Function(0)
  const FILESEND_ACK := Registry.Function(1)

  // They are set for these two pairs and no other.
  ghost predicate SampleCallbacks(calls: seq<Registry.Call>) {
    forall t: u16, u: u32 ::
      && (Registry.LastSet(calls, t, u) == Some(FILESTART_ACK) <==> t == TYPE_FILE && u == FILE_START)
      && (Registry.LastSet(calls, t, u) == Some(FILESEND_ACK) <==> t == TYPE_FILE && u == FILE_SEND)
  }

  ghost predicate IsClient(dispatcher: ClientDispatch.Dispatcher, app: TestClient, s: Session)
    reads dispatcher.recvWindow, app, app.client.sendWindow
  {
    && app.Valid() && app.State() == s.d
    && dispatcher.recvWindow.frames == s.s2c.recvWin && app.client.sendWindow.frames == s.c2s.sendWin
  }

  // What the callback of a frame does to the globals is Taken, and it asks for the next chunk as Replies
  // says.
  method CallBack(app: TestClient, called: Registry.Callback, data: seq<byte>, ghost f: Frame)
    returns (ghost sent: seq<Frame>)
    requires WellFormed(f) && data == f[HEAD_SIZE..]
    requires (called == FILESTART_ACK <==> X.IsStart(f)) && (called == FILESEND_ACK <==> X.IsSend(f))
    requires app.Valid() && X.Defined(app.State(), f) && (X.IsSend(f) ==> app.fileSerial + 1 < INT_LIMIT)
    modifies app, app.client.sendWindow
    ensures app.Valid() && app.State() == X.Taken(old(app.State()), f) && X.Replies(old(app.State()), f, sent)
    ensures app.client.sendWindow.frames == old(app.client.sendWindow.frames) + sent
  {
    hide X.Taken, X.Replies, X.Defined, X.IsStart, X.IsSend, AfterChunk, SendRequest, Field32, WellFormed;
    ghost var d := app.State();
    sent := [];
    if called == FILESEND_ACK {
      SendBody(d, f);
      sent := app.FilesendAck(data);
      RepliesSent(d, f, sent);
    } else if called == FILESTART_ACK {
      StartBody(d, f);
      app.FilestartAck(data);
    } else {
      NotCalled(d, f);
    }
  }

  lemma {:induction false} SendBody(d: Download, f: Frame)
    requires X.Defined(d, f) && X.IsSend(f) && WellFormed(f)
    ensures d.isOpen && 8 <= |f[HEAD_SIZE..]| < INT_LIMIT && X.Taken(d, f) == AfterChunk(d, f[HEAD_SIZE..][8..])
  {
    hide TypeOf, SubOf, AfterChunk;
    DropDrop(f, HEAD_SIZE, 8);
  }

  lemma {:induction false} RepliesSent(d: Download, f: Frame, sent: seq<Frame>)
    requires X.Defined(d, f) && X.IsSend(f)
    requires var data := f[HEAD_SIZE..];
             if |data| - 8 < CHUNK then sent == []
             else |sent| == 1 && SendRequest(sent[0], AfterChunk(d, data[8..]).serial)
    ensures X.Replies(d, f, sent)
  {
    hide TypeOf, SubOf, SendRequest;
  }

  lemma {:induction false} StartBody(d: Download, f: Frame)
    requires X.Defined(d, f) && X.IsStart(f)
    ensures 4 <= |f[HEAD_SIZE..]| && X.Taken(d, f) == d.(fileLen := Field32(f[HEAD_SIZE..], 0))
    ensures X.Replies(d, f, [])
  {
    hide Htonl, Number, TypeOf, SubOf;
    var b := f[HEAD_SIZE..];
    assert b[0] == f[40] && b[1] == f[41] && b[2] == f[42] && b[3] == f[43];
  }

  method ClientTakes(dispatcher: ClientDispatch.Dispatcher, app: TestClient, buffer: array<byte>, ghost s: Session,
                     ghost content: X.Content)
    returns (ghost acts: seq<Action>)
    requires dispatcher.Valid() && SampleCallbacks(dispatcher.calls) && IsClient(dispatcher, app, s)
    requires dispatcher.recvWindow != app.client.sendWindow && HEAD_SIZE <= buffer.Length
    requires s.s2c.recvWin != [] ==>
               var f := s.s2c.recvWin[0];
               && |f| <= buffer.Length && ClientDispatch.Sent(f) && X.Defined(s.d, f)
               && (X.IsSend(f) ==> s.d.serial + 1 < INT_LIMIT)
    modifies dispatcher.recvWindow, app, app.client.sendWindow, buffer
    ensures CanRun(s, acts, content) && IsClient(dispatcher, app, Run(s, acts, content))
    ensures s.s2c.recvWin != [] ==>
              Run(s, acts, content).s2c.dispatched == s.s2c.dispatched + [s.s2c.recvWin[0]]
  {
    hide X.Taken, X.Replies, X.Defined, X.IsStart, X.IsSend, LengthOf, SampleCallbacks, CanRun, Run,
      ClientDispatch.Sent, Registry.LastSet, Registry.Legal, Registry.After, WellFormed;
    ghost var calls := dispatcher.calls;
    var called := dispatcher.RunTreasmitOnce(buffer);
    acts := [];
    if s.s2c.recvWin == [] {
      RunNone(s, content);
    } else {
      CalledFor(calls, s.s2c.recvWin[0], called);
    }
    ghost var sent := [];
    if called != Registry.Null {
      ghost var f := s.s2c.recvWin[0];
      HeadInBuffer(buffer[..], f);
      sent := CallBack(app, called, buffer[HEAD_SIZE..LengthOf(buffer[..])], f);
    } else if s.s2c.recvWin != [] {
      NotCalled(s.d, s.s2c.recvWin[0]);
    }
    if s.s2c.recvWin != [] {
      acts := [Dispatch(sent)];
      DispatchRun(s, sent, content);
    }
  }

  lemma RunNone(s: Session, content: X.Content)
    ensures CanRun(s, [], content) && Run(s, [], content) == s
  {
  }

  lemma {:induction false} DispatchRun(s: Session, sent: seq<Frame>, content: X.Content)
    requires s.s2c.recvWin != [] && X.Replies(s.d, s.s2c.recvWin[0], sent)
    ensures CanRun(s, [Dispatch(sent)], content)
    ensures var t := Run(s, [Dispatch(sent)], content);
            && t.d == X.Taken(s.d, s.s2c.recvWin[0]) && t.c2s.sendWin == s.c2s.sendWin + sent
            && t.s2c.recvWin == s.s2c.recvWin[1..] && t.s2c.dispatched == s.s2c.dispatched + [s.s2c.recvWin[0]]
  {
    hide X.Taken, X.Replies, X.IsStart;
    RunFirst(s, Dispatch(sent), [], content);
    assert [Dispatch(sent)] + [] == [Dispatch(sent)];
  }

  lemma {:induction false} CalledFor(calls: seq<Registry.Call>, f: Frame, called: Registry.Callback)
    requires SampleCallbacks(calls) && WellFormed(f)
    requires Registry.LastSet(calls, TypeOf(f), SubOf(f)) == Some(called)
    ensures (called == FILESTART_ACK <==> X.IsStart(f)) && (called == FILESEND_ACK <==> X.IsSend(f))
  {
    hide Registry.LastSet, TypeOf, SubOf;
  }

  // A packet that is not of the transfer leaves the client's variables alone.
  lemma {:induction false} NotCalled(d: Download, f: Frame)
    requires !X.IsStart(f) && !X.IsSend(f)
    ensures X.Taken(d, f) == d && X.Replies(d, f, [])
  {
  }

  // The packet stands at the beginning of the dispatcher's buffer.
  lemma {:induction false} HeadInBuffer(b: seq<byte>, f: Frame)
    requires WellFormed(f) && |f| <= |b| && b[..|f|] == f
    ensures LengthOf(b) == |f| && b[HEAD_SIZE..|f|] == f[HEAD_SIZE..]
  {
    hide LengthOf;
    assert b[..HEAD_SIZE] == f[..HEAD_SIZE];
    SameHead(b, f);
  }

  // The calls of the sample client's main (test_client.c:225-231), after the constructor's.
  const SAMPLE_CALLS: seq<Registry.Call> := [
    Registry.SetCallback(TYPE_CTRL, CTRL_LOGIN, Registry.Function(2)),
    Registry.SetCallback(TYPE_CTRL, CTRL_LOGOUT, Registry.Function(3)),
    Registry.SetCallback(TYPE_FILE, FILE_LIST, Registry.Function(4)),
    Registry.SetCallback(TYPE_FILE, FILE_SEND, FILESEND_ACK),
    Registry.SetCallback(TYPE_FILE, FILE_PATH, Registry.Function(5)),
    Registry.SetCallback(TYPE_FILE, FILE_START, FILESTART_ACK),
    Registry.SetCallback(TYPE_VID, VID_STREAM, Registry.Function(6))]

  lemma {:induction false} LastSetMore(calls: seq<Registry.Call>, more: seq<Registry.Call>, t: u16, u: u32)
    ensures Registry.LastSet(calls + more, t, u) ==
            var last := Registry.LastSet(more, t, u);
            if last == None then Registry.LastSet(calls, t, u) else last
  {
    if more == [] {
      assert calls + more == calls;
    } else {
      var n := |more| - 1;
      assert (calls + more)[..|calls + more| - 1] == calls + more[..n];
      LastSetMore(calls, more[..n], t, u);
    }
  }

  // The constructor sets no callback that is a function.
  lemma {:induction false} NoFunction(calls: seq<Registry.Call>, t: u16, u: u32)
    requires forall i :: 0 <= i < |calls| && calls[i].SetCallback? ==> calls[i].callback == Registry.Null
    ensures Registry.LastSet(calls, t, u) in {None, Some(Registry.Null)}
  {
    if calls != [] {
      NoFunction(calls[..|calls| - 1], t, u);
    }
  }

  function SamplePosition(t: u16, u: u32): (k: nat)
    ensures k <= |SAMPLE_CALLS|
    ensures forall j :: 0 <= j < |SAMPLE_CALLS| ==> (ClientDispatch.SetsPair(SAMPLE_CALLS[j], t, u) <==> j == k)
  {
    if t == TYPE_CTRL && u == CTRL_LOGIN then 0
    else if t == TYPE_CTRL && u == CTRL_LOGOUT then 1
    else if t == TYPE_FILE && u == FILE_LIST then 2
    else if t == TYPE_FILE && u == FILE_SEND then 3
    else if t == TYPE_FILE && u == FILE_PATH then 4
    else if t == TYPE_FILE && u == FILE_START then 5
    else if t == TYPE_VID && u == VID_STREAM then 6
    else 7
  }

  lemma {:induction false} LastSetIs(calls: seq<Registry.Call>, k: nat, t: u16, u: u32)
    requires k < |calls| && ClientDispatch.SetsPair(calls[k], t, u)
    requires forall j :: k < j < |calls| ==> !ClientDispatch.SetsPair(calls[j], t, u)
    ensures Registry.LastSet(calls, t, u) == Some(calls[k].callback)
  {
    var n := |calls| - 1;
    if k < n {
      assert !ClientDispatch.SetsPair(calls[n], t, u);
      LastSetIs(calls[..n], k, t, u);
    }
  }

  lemma {:induction false} SampleSets()
    ensures SampleCallbacks(ClientDispatch.CONSTRUCTOR_CALLS + SAMPLE_CALLS)
  {
    forall t: u16, u: u32
      ensures var last := Registry.LastSet(ClientDispatch.CONSTRUCTOR_CALLS + SAMPLE_CALLS, t, u);
              && (last == Some(FILESTART_ACK) <==> t == TYPE_FILE && u == FILE_START)
              && (last == Some(FILESEND_ACK) <==> t == TYPE_FILE && u == FILE_SEND)
    {
      LastSetMore(ClientDispatch.CONSTRUCTOR_CALLS, SAMPLE_CALLS, t, u);
      NoFunction(ClientDispatch.CONSTRUCTOR_CALLS, t, u);
      var k := SamplePosition(t, u);
      if k < |SAMPLE_CALLS| {
        LastSetIs(SAMPLE_CALLS, k, t, u);
      } else {
        ClientDispatch.LastSetExists(SAMPLE_CALLS, t, u);
      }
    }
  }

  /* What else the two ends append */

  // The menu's request for the file, and its request for the first chunk.
  method ClientAsks(app: TestClient, name: seq<byte>, rest: seq<byte>, ghost s: Session, ghost content: X.Content)
    returns (ghost f: Frame)
    requires 0 < |name| < 1024 && 0 !in name && |name| + 1 + |rest| == 1028
    requires app.client.sendWindow.frames == s.c2s.sendWin && !s.asked
    modifies app.client.sendWindow
    ensures CanDo(s, Ask(f), content) && app.client.sendWindow.frames == Do(s, Ask(f)).c2s.sendWin
  {
    hide StartRequest;
    f := app.AskForFile(name, rest);
  }

  method ClientBegins(app: TestClient, ghost s: Session, ghost content: X.Content) returns (ghost f: Frame)
    requires app.client.sendWindow.frames == s.c2s.sendWin && app.fileLen == s.d.fileLen
    requires s.asked && s.sends == 0
    modifies app, app.client.sendWindow
    ensures CanDo(s, Begin(f), content)
    ensures var t := Do(s, Begin(f));
            app.client.sendWindow.frames == t.c2s.sendWin && app.Valid() && app.State() == t.d
  {
    hide SendRequest, IsChunkRequest;
    f := app.BeginTransfer();
  }

  // Any other command, in any state: a packet of one of the other pairs with a case. A stream is asked
  // for with a payload.
  method ClientSays(client: TcpClient.QNetClient, t: u16, u: u32, data: seq<byte>, ghost s: Session,
                    ghost content: X.Content)
    returns (ghost f: Frame)
    requires (t == 1 && u in {1, 2, 3}) || (t == 2 && u in {1, 3}) || (t == 3 && u in {1, 2})
    requires t == 3 && u == 1 ==> data != []
    requires 40 + |data| < INT_LIMIT && client.sendWindow.frames == s.c2s.sendWin
    modifies client.sendWindow
    ensures CanDo(s, Say(f), content) && client.sendWindow.frames == Do(s, Say(f)).c2s.sendWin
  {
    hide HeadPkg, IsPacket, D.Sized, IsFile;
    f := client.Command(t, u, data);
    OtherCommand(f, t, u);
  }

  lemma {:induction false} OtherCommand(f: Frame, t: u16, u: u32)
    requires IsPacket(f, t, u, |f|) && !InTransfer(t, u) && (t == 3 && u == 1 ==> |f| > 40)
    ensures D.Sized(f) && !IsFile(f)
  {
    hide HeadPkg, TypeOf, SubOf;
    PacketDecodes(f, t, u, |f|);
  }

  // The heartbeat that the send thread enqueues is such a command.
  lemma {:induction false} HeartbeatIsSaid(s: Session, stamp: seq<byte>, content: X.Content)
    requires |stamp| == 8
    ensures CanDo(s, Say(TcpClient.HeartbeatPacket(stamp)), content)
  {
    hide HeadPkg, IsPacket, D.Sized, IsFile;
    var f := TcpClient.HeartbeatPacket(stamp);
    assert |f| == 48 by { PacketSize(f, TYPE_CTRL, CTRL_HEART, 48); }
    OtherCommand(f, TYPE_CTRL, CTRL_HEART);
  }

  lemma PacketSize(f: Frame, t: u16, u: u32, n: int)
    requires IsPacket(f, t, u, n)
    ensures |f| == n
  {
  }

  // One turn of the server's stream thread.
  method ServerStreams(ant: QAntProtocol, buffer: array<byte>, frameType: u32, data: seq<byte>, ghost s: Session,
                       ghost content: X.Content)
    returns (ghost f: Frame)
    requires buffer.Length == STREAM_HEAD && STREAM_HEAD + |data| < INT_LIMIT
    requires s.loggedIn && ant.sendSliding.frames == s.s2c.sendWin
    modifies buffer, ant.sendSliding
    ensures CanDo(s, Stream(f, frameType, data), content)
    ensures ant.sendSliding.frames == Do(s, Stream(f, frameType, data)).s2c.sendWin
  {
    hide StreamPacket;
    f := ant.RunSendStreamOnce(buffer, frameType, data);
  }

  /* login */

  // What the sample client's connect() sends is a first packet that the server accepts.
  method ClientLogsIn(app: TestClient) returns (ghost f: Frame)
    modifies app.client.sendWindow
    ensures app.client.sendWindow.frames == old(app.client.sendWindow.frames) + [f]
    ensures |f| == 40 + 16 + 16 + 4 && FirstPacket(f) && TcpServer.LoginAccepts(f) && Completion.Credentials(f)
  {
    hide IsPacket, FirstPacket, TcpServer.LoginAccepts, Completion.Credentials;
    f := app.LogIn();
    SampleLogin(f);
  }

  // The session begins with any packet of that size, but for those of the transfer.
  lemma {:induction false} AnyFirstPacket(f: Frame, t: u16, u: u32)
    requires IsPacket(f, t, u, 40 + 16 + 16 + 4) && !(t == 2 && (u == 2 || u == 4))
    ensures FirstPacket(f)
  {
    hide HeadPkg;
    assert IsPacket(f, t, u, TcpServer.LOGIN_SIZE) && !InTransfer(t, u);
  }

  lemma {:induction false} SampleLogin(f: Frame)
    requires |f| == 76 && IsPacket(f, 1, 1, 76)
    requires f[40..46] == [97, 100, 109, 105, 110, 0] && f[56..63] == [49, 50, 51, 52, 53, 54, 0]
    ensures |f| == TcpServer.LOGIN_SIZE && FirstPacket(f) && TcpServer.LoginAccepts(f) && Completion.Credentials(f)
  {
    hide HeadPkg, TypeOf, SubOf;
    PacketDecodes(f, 1, 1, 76);
    assert IsPacket(f, 1, 1, TcpServer.LOGIN_SIZE) && !InTransfer(1, 1);
    assert f[40..56][..6] == f[40..46] && f[56..72][..7] == f[56..63];
  }

  // The socket holds what the session says of the wires; `received` is what the client has read.
  ghost predicate IsServerSocket(server: TcpServer.QNetTcpServer, s: Session, received: seq<byte>)
    reads server.sk
  {
    server.sk.incoming == s.c2s.wire && server.sk.outgoing == received + s.s2c.wire
  }

  // login() with its 76 bytes: it succeeds or it refuses, and then as much of the acknowledgement as
  // WRITE could send is on the wire.
  method ServerLogsIn(server: TcpServer.QNetTcpServer, ghost s: Session, ghost received: seq<byte>,
                      ghost content: X.Content)
    returns (loginstate: int, ghost acts: seq<Action>)
    requires IsServerSocket(server, s, received)
    requires !s.loggedIn && !s.rejected && s.s2c.out == [] && !s.s2c.sendDead
    modifies server`quit, server.sk`incoming, server.sk`outgoing
    ensures loginstate == 1 || loginstate == -1
    ensures CanRun(s, acts, content)
    ensures |s.c2s.wire| < TcpServer.LOGIN_SIZE ==> loginstate == -1 && acts == []
    ensures acts != [] ==>
              var t := Run(s, acts, content);
              && IsServerSocket(server, t, received)
              && (loginstate == 1 <==> t.loggedIn) && (loginstate == -1 <==> t.rejected)
              && (t.s2c.out != [] <==> t.s2c.sendDead)
    ensures acts == [] ==> loginstate == -1 && server.sk.outgoing == received + s.s2c.wire
  {
    hide TcpServer.IsLoginAck, TcpServer.LoginAccepts;
    ghost var wire := s.c2s.wire;
    loginstate := server.Login();
    acts := [];
    ghost var n := |wire| - |server.sk.incoming|;
    if n == TcpServer.LOGIN_SIZE {
      ghost var taken, k := wire[..n], |server.sk.outgoing| - |received + s.s2c.wire|;
      AckSizes(taken);
      ghost var ack: Frame :| TcpServer.IsLoginAck(ack, taken)
                              && server.sk.outgoing == received + s.s2c.wire + ack[..k];
      acts := LoginRun(s, ack, k, content);
      Assoc(received, s.s2c.wire, ack[..k]);
    }
  }

  lemma AckSizes(pkt: seq<byte>)
    requires |pkt| == TcpServer.LOGIN_SIZE
    ensures forall ack: Frame :: TcpServer.IsLoginAck(ack, pkt) ==> |ack| == TcpServer.LOGIN_ACK_SIZE
  {
  }

  lemma {:induction false} LoginRun(s: Session, ack: Frame, k: nat, content: X.Content) returns (acts: seq<Action>)
    requires CanLogin(s, ack) && s.s2c.out == [] && !s.s2c.sendDead && k <= |ack|
    ensures CanRun(s, acts, content) && acts != []
    ensures var t := Run(s, acts, content);
            && t.c2s.wire == s.c2s.wire[TcpServer.LOGIN_SIZE..] && t.s2c.wire == s.s2c.wire + ack[..k]
            && t.loggedIn == TcpServer.LoginAccepts(s.c2s.wire[..TcpServer.LOGIN_SIZE]) && t.rejected == !t.loggedIn
            && (t.s2c.sendDead <==> k < |ack|) && t.s2c.out == ack[k..]
  {
    hide CanRun, Run;
    var first, t := LoginAction(s, ack, content);
    var rest := SendsSome(t, k, content);
    RunFirst(s, first, rest, content);
    acts := [first] + rest;
  }

  lemma {:induction false} LoginAction(s: Session, ack: Frame, content: X.Content) returns (a: Action, t: Session)
    requires CanLogin(s, ack) && s.s2c.out == []
    ensures CanDo(s, a, content) && t == Do(s, a)
    ensures t.loggedIn == TcpServer.LoginAccepts(s.c2s.wire[..TcpServer.LOGIN_SIZE]) && t.rejected == !t.loggedIn
    ensures t.c2s.wire == s.c2s.wire[TcpServer.LOGIN_SIZE..]
    ensures t.s2c.out == ack && t.s2c.wire == s.s2c.wire && t.s2c.sendDead == s.s2c.sendDead
  {
    hide TcpServer.IsLoginAck, TcpServer.LoginAccepts;
    assert s.s2c.out + ack == ack;
    if TcpServer.LoginAccepts(s.c2s.wire[..TcpServer.LOGIN_SIZE]) {
      a := Login(ack);
      t := s.(loggedIn := true, c2s := LoginRead(s.c2s), s2c := LoginWrite(s.s2c, ack));
    } else {
      a := Reject(ack);
      t := s.(rejected := true, c2s := LoginRead(s.c2s), s2c := LoginWrite(s.s2c, ack));
    }
  }

  // k bytes of what is to be sent, and a failure if that is not all.
  lemma {:induction false} SendsSome(s: Session, k: nat, content: X.Content) returns (acts: seq<Action>)
    requires !s.s2c.sendDead && k <= |s.s2c.out|
    ensures CanRun(s, acts, content)
    ensures Run(s, acts, content) ==
            s.(s2c := s.s2c.(out := s.s2c.out[k..], wire := s.s2c.wire + s.s2c.out[..k], sendDead := k < |s.s2c.out|))
  {
    acts := [];
    var t := s;
    if k < |s.s2c.out| {
      acts := [S2C(P.SendFail)];
      assert acts[1..] == [];
    }
    if k > 0 {
      t := Do(s, S2C(P.Send(k)));
      RunFirst(s, S2C(P.Send(k)), acts, content);
      acts := [S2C(P.Send(k))] + acts;
    } else {
      assert s.s2c.wire + s.s2c.out[..0] == s.s2c.wire;
    }
  }
}
