/**
 From a received frame to the packets it is answered with: the server's command table as its
 constructor builds it, the nested switches in front of it (QNetTcpServer.cpp:38-138, 374-497), and
 one turn of the command thread.
 */
module Dispatch {
  import opened Wrappers
  import opened NetProtocol
  import opened Framing
  import opened Transport
  import opened FileList
  import opened AntProtocol
  import opened CommandLists
  import opened ServerRegistry

  /* The server's table */

  const CONSTRUCTOR_CALLS: seq<Call> := [
    AppendType(TYPE_CTRL), AppendType(TYPE_FILE), AppendType(TYPE_VID), AppendType(TYPE_AID),
    AppendSub(TYPE_CTRL, CTRL_LOGOUT, LogoutAck), AppendSub(TYPE_CTRL, CTRL_HEART, HeartAck),
    AppendSub(TYPE_FILE, FILE_LIST, FileListAck), AppendSub(TYPE_FILE, FILE_SEND, FileSendAck),
    AppendSub(TYPE_FILE, FILE_PATH, FilePathAck), AppendSub(TYPE_FILE, FILE_NAME, FileNameAck),
    AppendSub(TYPE_FILE, FILE_START, FileStartAck),
    AppendSub(TYPE_VID, VID_CONNECT, VidConnectAck), AppendSub(TYPE_VID, VID_STREAM, VidStreamAck)]

  // The pairs that the case labels of the nested switches let through to a search of the table.
  predicate Switched(t: u16, s: u32) {
    || (t == TYPE_CTRL && (s == CTRL_LOGOUT || s == CTRL_HEART))
    || (t == TYPE_FILE && (s == FILE_LIST || s == FILE_SEND || s == FILE_PATH || s == FILE_NAME || s == FILE_START))
    || (t == TYPE_VID && (s == VID_CONNECT || s == VID_STREAM))
  }

  // Which handler answers a command.
  function Handler(t: u16, s: u32): Option<Callback> {
    if t == TYPE_CTRL then
      if s == CTRL_LOGOUT then Some(LogoutAck)
      else if s == CTRL_HEART then Some(HeartAck)
      else None
    else if t == TYPE_FILE then
      if s == FILE_LIST then Some(FileListAck)
      else if s == FILE_SEND then Some(FileSendAck)
      else if s == FILE_PATH then Some(FilePathAck)
      else if s == FILE_NAME then Some(FileNameAck)
      else if s == FILE_START then Some(FileStartAck)
      else None
    else if t == TYPE_VID then
      if s == VID_CONNECT then Some(VidConnectAck)
      else if s == VID_STREAM then Some(VidStreamAck)
      else None
    else None
  }

  // For every pair of a 16-bit type and a 32-bit subtype: the switches let it through exactly when
  // the table maps it, and then the table gives its handler.
  lemma {:induction false} SwitchAgreesWithTable(t: u16, s: u32)
    ensures Lookup(After(CONSTRUCTOR_CALLS), t, s) == Handler(t, s)
    ensures Switched(t, s) <==> Lookup(After(CONSTRUCTOR_CALLS), t, s) != None
    ensures Registered(After(CONSTRUCTOR_CALLS), t) <==> 1 <= t <= 4
    ensures Switched(t, s) <==> (t == 1 && s in {2, 3}) || (t == 2 && s in {1, 2, 3, 4, 5}) || (t == 3 && s in {1, 2})
  {
    var calls := CONSTRUCTOR_CALLS;
    ConstructorLegal();
    FirstAppended(calls, t, s);
    FirstSetIs(calls, t, s, Position(t, s));
    assert calls[0] == AppendType(TYPE_CTRL) && calls[1] == AppendType(TYPE_FILE) && calls[2] == AppendType(TYPE_VID);
    assert calls[3] == AppendType(TYPE_AID);
  }

  function Position(t: u16, s: u32): (k: nat)
    ensures k <= |CONSTRUCTOR_CALLS|
    ensures k < |CONSTRUCTOR_CALLS| ==> SamePair(CONSTRUCTOR_CALLS[k], t, s)
    ensures forall j :: 0 <= j < k ==> !SamePair(CONSTRUCTOR_CALLS[j], t, s)
  {
    if t == TYPE_CTRL && s == CTRL_LOGOUT then 4
    else if t == TYPE_CTRL && s == CTRL_HEART then 5
    else if t == TYPE_FILE && s == FILE_LIST then 6
    else if t == TYPE_FILE && s == FILE_SEND then 7
    else if t == TYPE_FILE && s == FILE_PATH then 8
    else if t == TYPE_FILE && s == FILE_NAME then 9
    else if t == TYPE_FILE && s == FILE_START then 10
    else if t == TYPE_VID && s == VID_CONNECT then 11
    else if t == TYPE_VID && s == VID_STREAM then 12
    else 13
  }

  lemma ConstructorLegal()
    ensures Legal(CONSTRUCTOR_CALLS)
  {
    var calls := CONSTRUCTOR_CALLS;
    forall i | 0 <= i < |calls| && calls[i].AppendSub?
      ensures AppendType(calls[i].cmdType) in calls[..i]
    {
      assert calls[..i][0] == calls[0] && calls[..i][1] == calls[1] && calls[..i][2] == calls[2];
    }
  }

  /* What a command is answered with */

  // What the handlers find in the file system.
  datatype Env = Env(readable: bool, found: Option<seq<byte>>, dir: Option<seq<DirEntry>>)

  ghost predicate Sane(env: Env) {
    env.dir.Some? ==> forall i :: 0 <= i < |env.dir.value| ==> ValidName(env.dir.value[i].name)
  }

  // The payload has the fields that the handler reads.
  predicate Fits(cb: Callback, len: int) {
    len >= match cb case FileStartAck => 1 case FileSendAck => 8 case VidConnectAck => 1 case _ => 0
  }

  // The handler `cb` on a payload: the packets it appends and what becomes of the file. Reading the
  // file after it was closed has no defined outcome.
  ghost predicate Reacts(cb: Callback, data: seq<byte>, env: Env, file: FileState, after: FileState, resp: seq<Frame>)
    requires Fits(cb, |data|) && GoodFile(file)
  {
    match cb
    case Null => false
    case LogoutAck => after == file && |resp| == 1 && StateReply(resp[0], TYPE_CTRL, CTRL_LOGOUT, 2, 1)
    case HeartAck => after == file && |resp| == 1 && HeartReply(resp[0])
    case FileListAck => after == file && ListReply(resp, env.dir)
    case FileSendAck => |resp| == 1 && SendReply(resp[0], data, file, after)
    case FilePathAck =>
      && after == file && |resp| == 1
      && StateReply(resp[0], TYPE_FILE, FILE_PATH, 4, if env.readable then 1 else 0)
    case FileNameAck => after == file && resp == []
    case FileStartAck => |resp| == 1 && StartReply(resp[0], Requested(data, env.found), file, after)
    case VidConnectAck => after == file && |resp| == 1 && StateReply(resp[0], TYPE_VID, VID_CONNECT, 4, 1)
    case VidStreamAck => after == file && resp == []
  }

  // The directory that later commands work in: only FILE_PATH changes it.
  function PathAfter(t: u16, s: u32, data: seq<byte>, path: seq<byte>): seq<byte> {
    if t == TYPE_FILE && s == FILE_PATH then CString(data) else path
  }

  // The stream that the stream thread sends: only VID_CONNECT changes it.
  function StreamAfter(t: u16, s: u32, data: seq<byte>, id: int): int
    requires Handler(t, s).Some? ==> Fits(Handler(t, s).value, |data|)
  {
    if t == TYPE_VID && s == VID_CONNECT then data[0] else id
  }

  // A command frame with the payload its handler reads; a frame no handler answers can be any.
  predicate Sized(f: Frame) {
    && WellFormed(f)
    && var h := Handler(TypeOf(f), SubOf(f));
       h.Some? ==> Fits(h.value, |f| - HEAD_SIZE)
  }

  // A command is answered as its handler answers it, or not at all.
  ghost predicate AnswersTo(t: u16, s: u32, data: seq<byte>, env: Env, file: FileState, after: FileState,
                            resp: seq<Frame>)
    requires GoodFile(file) && (Handler(t, s).Some? ==> Fits(Handler(t, s).value, |data|))
  {
    match Handler(t, s)
    case None => after == file && resp == []
    case Some(cb) => Reacts(cb, data, env, file, after, resp)
  }

  ghost predicate Answers(f: Frame, env: Env, file: FileState, after: FileState, resp: seq<Frame>)
    requires Sized(f) && GoodFile(file)
  {
    AnswersTo(TypeOf(f), SubOf(f), f[HEAD_SIZE..], env, file, after, resp)
  }

  // How many packets a handler answers with: one for most, none for a file name and a stream start,
  // and for a list one for every twenty names and one more, or none.
  function Count(cb: Callback, env: Env): nat {
    match cb
    case FileListAck => (match env.dir case None => 0 case Some(entries) => |Names(entries)| / SLOTS + 1)
    case FileNameAck => 0
    case VidStreamAck => 0
    case _ => 1
  }

  function Replies(t: u16, s: u32, env: Env): nat {
    match Handler(t, s) case None => 0 case Some(cb) => Count(cb, env)
  }

  // The answers to a command carry its own type and subtype and a Length equal to their size.
  ghost predicate AnswersMatch(t: u16, s: u32, env: Env, resp: seq<Frame>) {
    && |resp| == Replies(t, s, env)
    && forall i :: 0 <= i < |resp| ==> IsPacket(resp[i], t, s, |resp[i]|)
  }

  lemma {:induction false} AckDiscipline(f: Frame, env: Env, file: FileState, after: FileState, resp: seq<Frame>)
    requires Sized(f) && GoodFile(file) && Answers(f, env, file, after, resp)
    ensures AnswersMatch(TypeOf(f), SubOf(f), env, resp) && GoodFile(after)
  {
    var h := Handler(TypeOf(f), SubOf(f));
    if h.Some? {
      HandlerCommand(TypeOf(f), SubOf(f), h.value);
      ReactionMatches(h.value, f[HEAD_SIZE..], env, file, after, resp);
    }
  }

  // The command that a handler answers.
  function CommandOf(cb: Callback): (u16, u32) {
    match cb
    case Null => (0, 0)
    case LogoutAck => (TYPE_CTRL, CTRL_LOGOUT)
    case HeartAck => (TYPE_CTRL, CTRL_HEART)
    case FileListAck => (TYPE_FILE, FILE_LIST)
    case FileSendAck => (TYPE_FILE, FILE_SEND)
    case FilePathAck => (TYPE_FILE, FILE_PATH)
    case FileNameAck => (TYPE_FILE, FILE_NAME)
    case FileStartAck => (TYPE_FILE, FILE_START)
    case VidConnectAck => (TYPE_VID, VID_CONNECT)
    case VidStreamAck => (TYPE_VID, VID_STREAM)
  }

  lemma HandlerCommand(t: u16, s: u32, cb: Callback)
    ensures Handler(t, s) == Some(cb) <==> cb != Null && CommandOf(cb) == (t, s)
  {
  }

  lemma {:induction false} ReactionMatches(cb: Callback, data: seq<byte>, env: Env, file: FileState, after: FileState,
                                           resp: seq<Frame>)
    requires Fits(cb, |data|) && GoodFile(file) && Reacts(cb, data, env, file, after, resp)
    ensures |resp| == Count(cb, env) && GoodFile(after)
    ensures forall i :: 0 <= i < |resp| ==> IsPacket(resp[i], CommandOf(cb).0, CommandOf(cb).1, |resp[i]|)
  {
    if cb == FileListAck && env.dir.Some? {
      BatchesLoseNothing(Names(env.dir.value));
    }
  }

  /* The server's side of it in place */

  class CommandThread {
    const registry: Registry
    const ant: QAntProtocol
    const recvWindow: SlidingWindow

    constructor (recvWindow: SlidingWindow, sendWindow: SlidingWindow)
      ensures this.recvWindow == recvWindow && ant.sendSliding == sendWindow && ant.file == NoFile
      ensures fresh(registry) && fresh(ant) && Ready()
    {
      var table := BuildTable();
      this.recvWindow := recvWindow;
      ant := new QAntProtocol(sendWindow);
      registry := table;
    }

    ghost predicate Ready()
      reads registry, registry.sh.cmds.Keys, registry.sh.subs.Keys
    {
      registry.Valid() && registry.Table() == After(CONSTRUCTOR_CALLS)
    }

    // What callback pointers lead to.
    method Invoke(cb: Callback, data: seq<byte>, env: Env) returns (ghost resp: seq<Frame>)
      requires cb != Null && Fits(cb, |data|) && Sane(env)
      requires GoodFile(ant.file) && (cb == FileSendAck ==> ant.file != Closed)
      modifies ant`file, ant`path, ant`streamId, ant.sendSliding
      ensures ant.sendSliding.frames == old(ant.sendSliding.frames) + resp
      ensures Reacts(cb, data, env, old(ant.file), ant.file, resp)
      ensures ant.path == if cb == FilePathAck then CString(data) else old(ant.path)
      ensures ant.streamId == if cb == VidConnectAck then data[0] else old(ant.streamId)
    {
      ghost var f;
      resp := [];
      match cb {
        case LogoutAck => f := ant.CtrlLogoutAck(); resp := [f];
        case HeartAck => f := ant.CtrlHeartAck(); resp := [f];
        case FileListAck => resp := ant.FileListAck(env.dir);
        case FileSendAck => f := ant.FileSendAck(data); resp := [f];
        case FilePathAck => f := ant.FilePathAck(data, env.readable); resp := [f];
        case FileNameAck =>
        case FileStartAck => f := ant.FileStartAck(data, env.found); resp := [f];
        case VidConnectAck => f := ant.VidConnectAck(data); resp := [f];
        case VidStreamAck =>
      }
    }

    // The node that a case of the switches searches for is there, and holds the pair's handler.
    method Call(t: u16, s: u32, data: seq<byte>, env: Env) returns (ghost resp: seq<Frame>)
      requires Ready() && Switched(t, s) && Fits(Handler(t, s).value, |data|) && Sane(env)
      requires GoodFile(ant.file) && (Handler(t, s).value == FileSendAck ==> ant.file != Closed)
      modifies ant`file, ant`path, ant`streamId, ant.sendSliding
      ensures ant.sendSliding.frames == old(ant.sendSliding.frames) + resp
      ensures Reacts(Handler(t, s).value, data, env, old(ant.file), ant.file, resp)
      ensures ant.path == PathAfter(t, s, data, old(ant.path))
      ensures ant.streamId == StreamAfter(t, s, data, old(ant.streamId))
    {
      SwitchAgreesWithTable(t, s);
      var node := registry.SearchSubcmdNode(t, s);
      resp := Invoke(node.callback, data, env);
    }

    ghost predicate Defined(t: u16, s: u32, len: int)
      reads ant`file
    {
      && GoodFile(ant.file)
      && (Handler(t, s).Some? ==> Fits(Handler(t, s).value, len))
      && (Handler(t, s) == Some(FileSendAck) ==> ant.file != Closed)
    }

    method DoCmdProcess(t: u16, s: u32, data: seq<byte>, env: Env) returns (ghost resp: seq<Frame>)
      requires Ready() && Defined(t, s, |data|) && Sane(env)
      modifies ant`file, ant`path, ant`streamId, ant.sendSliding
      ensures ant.sendSliding.frames == old(ant.sendSliding.frames) + resp
      ensures AnswersTo(t, s, data, env, old(ant.file), ant.file, resp)
      ensures ant.path == PathAfter(t, s, data, old(ant.path))
      ensures ant.streamId == StreamAfter(t, s, data, old(ant.streamId))
    {
      if t == TYPE_CTRL {
        resp := DoCtrlProcess(s, data, env);
      } else if t == TYPE_FILE {
        resp := DoFileProcess(s, data, env);
      } else if t == TYPE_VID {
        resp := DoVidProcess(s, data, env);
      } else {
        resp := [];
      }
    }

    method DoCtrlProcess(s: u32, data: seq<byte>, env: Env) returns (ghost resp: seq<Frame>)
      requires Ready() && Defined(TYPE_CTRL, s, |data|) && Sane(env)
      modifies ant`file, ant`path, ant`streamId, ant.sendSliding
      ensures ant.sendSliding.frames == old(ant.sendSliding.frames) + resp
      ensures AnswersTo(TYPE_CTRL, s, data, env, old(ant.file), ant.file, resp)
      ensures ant.path == old(ant.path) && ant.streamId == old(ant.streamId)
    {
      resp := [];
      if s == CTRL_LOGOUT {
        resp := Call(TYPE_CTRL, CTRL_LOGOUT, data, env);
      } else if s == CTRL_HEART {
        resp := Call(TYPE_CTRL, CTRL_HEART, data, env);
      }
    }

    method DoFileProcess(s: u32, data: seq<byte>, env: Env) returns (ghost resp: seq<Frame>)
      requires Ready() && Defined(TYPE_FILE, s, |data|) && Sane(env)
      modifies ant`file, ant`path, ant`streamId, ant.sendSliding
      ensures ant.sendSliding.frames == old(ant.sendSliding.frames) + resp
      ensures AnswersTo(TYPE_FILE, s, data, env, old(ant.file), ant.file, resp)
      ensures ant.path == PathAfter(TYPE_FILE, s, data, old(ant.path)) && ant.streamId == old(ant.streamId)
    {
      resp := [];
      if s == FILE_LIST {
        resp := Call(TYPE_FILE, FILE_LIST, data, env);
      } else if s == FILE_SEND {
        resp := Call(TYPE_FILE, FILE_SEND, data, env);
      } else if s == FILE_PATH {
        resp := Call(TYPE_FILE, FILE_PATH, data, env);
      } else if s == FILE_NAME {
        resp := Call(TYPE_FILE, FILE_NAME, data, env);
      } else if s == FILE_START {
        resp := Call(TYPE_FILE, FILE_START, data, env);
      }
    }

    method DoVidProcess(s: u32, data: seq<byte>, env: Env) returns (ghost resp: seq<Frame>)
      requires Ready() && Defined(TYPE_VID, s, |data|) && Sane(env)
      modifies ant`file, ant`path, ant`streamId, ant.sendSliding
      ensures ant.sendSliding.frames == old(ant.sendSliding.frames) + resp
      ensures AnswersTo(TYPE_VID, s, data, env, old(ant.file), ant.file, resp)
      ensures ant.path == old(ant.path) && ant.streamId == StreamAfter(TYPE_VID, s, data, old(ant.streamId))
    {
      resp := [];
      if s == VID_CONNECT {
        resp := Call(TYPE_VID, VID_CONNECT, data, env);
      } else if s == VID_STREAM {
        resp := Call(TYPE_VID, VID_STREAM, data, env);
      }
    }

    // One turn of run_cmd_process: the frame at the front of the receive window, if there is one, is
    // taken out and answered in the send window.
    method RunCmdProcessOnce(buffer: array<byte>, env: Env) returns (ghost resp: seq<Frame>)
      requires Ready() && Sane(env) && GoodFile(ant.file) && recvWindow != ant.sendSliding
      requires recvWindow.frames != [] ==>
                 var f := recvWindow.frames[0];
                 |f| <= buffer.Length && Sized(f) && Defined(TypeOf(f), SubOf(f), |f| - HEAD_SIZE)
      modifies buffer, recvWindow, ant`file, ant`path, ant`streamId, ant.sendSliding
      ensures ant.sendSliding.frames == old(ant.sendSliding.frames) + resp
      ensures old(recvWindow.frames) == [] ==>
                && resp == [] && recvWindow.frames == [] && ant.file == old(ant.file)
                && ant.path == old(ant.path) && ant.streamId == old(ant.streamId)
      ensures old(recvWindow.frames) != [] ==>
                && recvWindow.frames == old(recvWindow.frames)[1..]
                && Answers(old(recvWindow.frames)[0], env, old(ant.file), ant.file, resp)
                && var f := old(recvWindow.frames)[0];
                   && ant.path == PathAfter(TypeOf(f), SubOf(f), f[HEAD_SIZE..], old(ant.path))
                   && ant.streamId == StreamAfter(TypeOf(f), SubOf(f), f[HEAD_SIZE..], old(ant.streamId))
    {
      ghost var window := recvWindow.frames;
      var len := recvWindow.ReadDataToBuffer(buffer);
      resp := [];
      if len > 0 {
        ghost var f := window[0];
        var pkg := buffer[..len];
        assert pkg == f;
        resp := DoCmdProcess(TypeOf(pkg), SubOf(pkg), pkg[HEAD_SIZE..], env);
      }
    }
  }

  // The table after the first k registrations in the constructor of QNetTcpServer.
  ghost predicate Built(r: Registry, k: nat)
    requires k <= |CONSTRUCTOR_CALLS|
    reads r, r.sh.cmds.Keys, r.sh.subs.Keys
  {
    r.Valid() && r.Table() == After(CONSTRUCTOR_CALLS[..k])
  }

  // The registrations, one after the other.
  method BuildTable() returns (r: Registry)
    ensures fresh(r) && r.Valid() && r.Table() == After(CONSTRUCTOR_CALLS)
    ensures fresh(r.sh.cmds.Keys) && fresh(r.sh.subs.Keys)
  {
    r := new Registry();
    assert CONSTRUCTOR_CALLS[..0] == [];
    for k := 0 to |CONSTRUCTOR_CALLS|
      invariant Built(r, k)
      invariant fresh(r) && fresh(r.sh.cmds.Keys) && fresh(r.sh.subs.Keys)
    {
      Append(r, k, CONSTRUCTOR_CALLS[k]);
    }
    assert CONSTRUCTOR_CALLS[..|CONSTRUCTOR_CALLS|] == CONSTRUCTOR_CALLS;
  }

  method Append(r: Registry, ghost k: nat, c: Call)
    requires k < |CONSTRUCTOR_CALLS| && c == CONSTRUCTOR_CALLS[k] && Built(r, k)
    modifies r, r.sh.cmds.Keys, r.sh.subs.Keys
    ensures Built(r, k + 1)
    ensures fresh(r.sh.cmds.Keys - old(r.sh.cmds.Keys)) && fresh(r.sh.subs.Keys - old(r.sh.subs.Keys))
  {
    ConstructorLegal();
    AfterNext(CONSTRUCTOR_CALLS, k);
    match c {
      case AppendType(t) =>
        r.AppendCmdNode(t);
      case AppendSub(t, s, cb) =>
        var node := new SubNode<Callback>(s, s, cb);
        r.AppendSubCmdNode(t, node);
    }
  }
}
