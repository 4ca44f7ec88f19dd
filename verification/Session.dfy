/**
 One client/server session as a step system: two pipes, the server's login, command and stream
 threads, and the client's dispatcher and menu. All threads interleave freely; any other traffic
 (heartbeats, other commands, video) runs beside one file transfer.
 */
module Session {
  import opened Wrappers
  import opened NetProtocol
  import opened Framing
  import opened AntProtocol
  import opened FileClient
  import P = Pipe
  import D = Dispatch
  import X = Exchange
  import TcpServer
  import TcpClient
  import Producers
  import ClientDispatch
  import Meter

  // One command as the server's command thread dealt with it: what it found in the file system, its
  // FILE pointer before and after, and its answers.
  datatype Service = Service(env: D.Env, before: FileState, after: FileState, resp: seq<Frame>)

  datatype Session = Session(
    loggedIn: bool,
    rejected: bool,                // the server has refused the login and ended the session
    c2s: P.Pipe,
    s2c: P.Pipe,
    stray: seq<Frame>,             // what a failed READ has left in the client's receive window, last
    struck: bool,                  // history: its callback has changed something at the client
    asked: bool, acked: bool, sends: nat, d: Download,  // the client, as in Exchange
    file: FileState,               // the server's FILE pointer
    outbox: seq<Frame>,            // the answers of the current command not yet in the send window
    services: seq<Service>,        // history: the commands dealt with
    emitted: seq<Frame>,           // history: the frames the command thread appended
    streamed: seq<Frame>,          // history: the frames the stream thread appended
    order: seq<Producers.Producer>)  // history: which of the two appended when

  datatype Action =
    | C2S(step: P.Step)
    | S2C(step: P.Step)
    | ReadFail(stray: Frame)                                  // client: READ fails, its result is ignored
    | Login(ack: Frame)                                       // server: login() succeeds
    | Reject(ack: Frame)                                      // server: login() fails
    | Serve(env: D.Env, after: FileState, resp: seq<Frame>)   // server: the command thread takes a frame
    | Emit                                                    // server: and appends an answer
    | Stream(f: Frame, frameType: u32, data: seq<byte>)       // server: the stream thread appends
    | Say(f: Frame)                                           // client: a heartbeat or any other command
    | Ask(f: Frame)                                           // client: the request for the file
    | Begin(f: Frame)                                         // client: the first request for a chunk
    | Dispatch(reply: seq<Frame>)                             // client: the dispatcher takes a frame
    | DispatchStray(reply: seq<Frame>)                        // client: or what a failed READ left

  // What flows in the transfer; everything else only shares the pipes with it.
  predicate IsFile(f: Frame) {
    X.IsStart(f) || X.IsSend(f)
  }

  ghost predicate CanDo(s: Session, a: Action, content: X.Content) {
    match a
    case C2S(step) => P.CanStep(s.c2s, step) && (P.RoleOf(step) == P.Receiver ==> s.loggedIn)
    case S2C(step) => P.CanStep(s.s2c, step) && step != P.RecvFail
    case ReadFail(stray) => !s.s2c.recvDead && !Complete(s.s2c.rx) && TcpClient.IsStray(stray, s.s2c.rx)
    case Login(ack) => CanLogin(s, ack) && TcpServer.LoginAccepts(s.c2s.wire[..TcpServer.LOGIN_SIZE])
    case Reject(ack) => CanLogin(s, ack) && !TcpServer.LoginAccepts(s.c2s.wire[..TcpServer.LOGIN_SIZE])
    case Serve(env, after, resp) =>
      && s.loggedIn && s.c2s.recvWin != [] && s.outbox == []
      && var f := s.c2s.recvWin[0];
         && D.Sized(f) && GoodFile(s.file) && D.Sane(env)
         && (X.IsStart(f) ==> env.found == Some(content))
         && D.Answers(f, env, s.file, after, resp)
    case Emit => s.outbox != []
    case Stream(f, frameType, data) => s.loggedIn && StreamPacket(f, frameType, data)
    case Say(f) => D.Sized(f) && !IsFile(f)
    case Ask(f) => !s.asked && StartRequest(f)
    case Begin(f) => s.asked && s.sends == 0 && SendRequest(f, 0)
    case Dispatch(reply) => s.s2c.recvWin != [] && X.Replies(s.d, s.s2c.recvWin[0], reply)
    case DispatchStray(reply) =>
      s.s2c.recvWin == [] && s.stray != [] && X.Replies(s.d, s.stray[0], reply) && X.Defined(s.d, s.stray[0])
  }

  // login() has its 76 bytes; it answers them whatever they are.
  predicate CanLogin(s: Session, ack: Frame) {
    && !s.loggedIn && !s.rejected && |s.c2s.wire| >= TcpServer.LOGIN_SIZE
    && TcpServer.IsLoginAck(ack, s.c2s.wire[..TcpServer.LOGIN_SIZE])
  }

  // The fixed-size read of login takes the frame off the wire.
  function LoginRead(p: P.Pipe): P.Pipe
    requires |p.wire| >= TcpServer.LOGIN_SIZE
  {
    p.(wire := p.wire[TcpServer.LOGIN_SIZE..], dispatched := p.dispatched + [p.wire[..TcpServer.LOGIN_SIZE]])
  }

  // Its acknowledgement goes to the socket directly, before there is a send thread.
  function LoginWrite(p: P.Pipe, ack: Frame): P.Pipe {
    p.(appended := p.appended + [ack], out := p.out + ack)
  }

  function AppendAll(p: P.Pipe, fs: seq<Frame>): P.Pipe {
    p.(appended := p.appended + fs, sendWin := p.sendWin + fs)
  }

  // The client's dispatcher: the callback of the frame runs.
  function Took(s: Session, ack: Frame, reply: seq<Frame>): Session {
    s.(d := X.Taken(s.d, ack), acked := s.acked || X.IsStart(ack), sends := s.sends + |reply|,
       c2s := AppendAll(s.c2s, reply))
  }

  function Do(s: Session, a: Action): Session
    requires a.C2S? ==> P.CanStep(s.c2s, a.step)
    requires a.S2C? ==> P.CanStep(s.s2c, a.step)
    requires a.ReadFail? ==> !s.s2c.recvDead
    requires a.Login? || a.Reject? ==> |s.c2s.wire| >= TcpServer.LOGIN_SIZE
    requires a.Serve? ==> s.c2s.recvWin != []
    requires a.Emit? ==> s.outbox != []
    requires a.Dispatch? ==> s.s2c.recvWin != []
    requires a.DispatchStray? ==> s.stray != []
  {
    match a
    case C2S(step) => s.(c2s := P.DoStep(s.c2s, step))
    case S2C(step) => s.(s2c := P.DoStep(s.s2c, step))
    case ReadFail(stray) => s.(s2c := P.DoStep(s.s2c, P.RecvFail), stray := [stray])
    case Login(ack) => s.(loggedIn := true, c2s := LoginRead(s.c2s), s2c := LoginWrite(s.s2c, ack))
    case Reject(ack) => s.(rejected := true, c2s := LoginRead(s.c2s), s2c := LoginWrite(s.s2c, ack))
    case Serve(env, after, resp) =>
      s.(c2s := P.Dispatch(s.c2s), file := after, outbox := resp,
         services := s.services + [Service(env, s.file, after, resp)])
    case Emit =>
      s.(s2c := P.Append(s.s2c, s.outbox[0]), outbox := s.outbox[1..], emitted := s.emitted + [s.outbox[0]],
         order := s.order + [Producers.Command])
    case Stream(f, _, _) =>
      s.(s2c := P.Append(s.s2c, f), streamed := s.streamed + [f], order := s.order + [Producers.Video])
    case Say(f) => s.(c2s := P.Append(s.c2s, f))
    case Ask(f) => s.(c2s := P.Append(s.c2s, f), asked := true)
    case Begin(f) => s.(c2s := P.Append(s.c2s, f), d := Begun(s.d.fileLen), sends := 1)
    case Dispatch(reply) => Took(s, s.s2c.recvWin[0], reply).(s2c := P.Dispatch(s.s2c))
    case DispatchStray(reply) =>
      Took(s, s.stray[0], reply).(acked := s.acked, stray := [],
                                  struck := s.struck || X.Taken(s.d, s.stray[0]) != s.d)
  }

  ghost predicate IsStep(s: Session, a: Action, t: Session, content: X.Content) {
    CanDo(s, a, content) && t == Do(s, a)
  }

  function Start(login: Frame): Session {
    Session(false, false, P.Append(P.Fresh([]), login), P.Fresh([]), [], false, false, false, 0, X.START.d, NoFile,
            [], [], [], [], [])
  }

  /* The exchange inside the session */

  function Files(fs: seq<Frame>): seq<Frame> {
    if fs == [] then []
    else
      var last := fs[|fs| - 1];
      Files(fs[..|fs| - 1]) + if IsFile(last) then [last] else []
  }

  lemma {:induction false} FilesAppend(a: seq<Frame>, b: seq<Frame>)
    ensures Files(a + b) == Files(a) + Files(b)
  {
    hide IsFile;
    if b == [] {
      assert a + b == a;
    } else {
      var n := |b| - 1;
      FilesAppend(a, b[..n]);
      assert (a + b)[..|a + b| - 1] == a + b[..n];
    }
  }

  lemma {:induction false} FilesOne(f: Frame)
    ensures Files([f]) == if IsFile(f) then [f] else []
  {
    hide IsFile;
    assert Files([f][..0]) == [];
  }

  lemma {:induction false} FilesFront(fs: seq<Frame>)
    requires fs != []
    ensures Files(fs) == (if IsFile(fs[0]) then [fs[0]] else []) + Files(fs[1..])
  {
    hide IsFile;
    assert fs == [fs[0]] + fs[1..];
    FilesAppend([fs[0]], fs[1..]);
    FilesOne(fs[0]);
  }

  lemma {:induction false} FilesNone(fs: seq<Frame>)
    requires forall i :: 0 <= i < |fs| ==> !IsFile(fs[i])
    ensures Files(fs) == []
  {
    hide IsFile;
    if fs != [] {
      FilesNone(fs[..|fs| - 1]);
    }
  }

  ghost predicate Pipes(s: Session) {
    P.PipeInv(s.c2s) && P.PipeInv(s.s2c)
  }

  // The session seen as an exchange: the transfer's frames that are somewhere on their way.
  ghost function Abs(s: Session): X.Exchange
    requires Pipes(s)
  {
    X.Exchange(s.asked, s.acked, s.sends, s.d, s.file, Files(P.Queue(s.c2s)), Files(P.Queue(s.s2c) + s.outbox))
  }

  /* The invariant */

  // What the client sends first: a packet of the size that login() reads, and not of the transfer.
  ghost predicate FirstPacket(login: Frame) {
    && |login| == TcpServer.LOGIN_SIZE
    && exists t: u16, u: u32 :: IsPacket(login, t, u, TcpServer.LOGIN_SIZE) && !InTransfer(t, u)
  }

  predicate InTransfer(t: u16, u: u32) {
    t == TYPE_FILE && (u == FILE_START || u == FILE_SEND)
  }

  // Until login has succeeded the server sends nothing, or one acknowledgement that says no and
  // nothing behind it. After login the acknowledgement that says yes comes first.
  ghost predicate LoginOrder(s: Session, login: Frame) {
    && FirstPacket(login) && s.c2s.appended != [] && s.c2s.appended[0] == login
    && (s.loggedIn ==> !s.rejected && s.c2s.dispatched != [] && s.s2c.appended != [])
    && (s.loggedIn ==> TcpServer.IsLoginAck(s.s2c.appended[0], login) && TcpServer.LoginAccepts(login))
    && (s.rejected ==> s.c2s.dispatched == [login] && |s.s2c.appended| == 1)
    && (s.rejected ==> TcpServer.IsLoginAck(s.s2c.appended[0], login) && !TcpServer.LoginAccepts(login))
    && (!s.loggedIn && !s.rejected ==> s.c2s.dispatched == [] && s.s2c.appended == [])
    && (!s.loggedIn ==> s.c2s.recvWin == [] && s.c2s.rx == [] && s.outbox == [] && s.services == [])
  }

  ghost predicate AllSized(fs: seq<Frame>) {
    forall i :: 0 <= i < |fs| ==> D.Sized(fs[i])
  }

  ghost predicate AllSent(fs: seq<Frame>) {
    forall i :: 0 <= i < |fs| ==> ClientDispatch.Sent(fs[i])
  }

  function Responses(services: seq<Service>): seq<Frame> {
    if services == [] then [] else
      var n := |services| - 1;
      Responses(services[..n]) + services[n].resp
  }

  // The command f was dealt with as its handler does: content, pair, Length and number of its answers
  // are those for what the handler found in the file system.
  ghost predicate Served(f: Frame, v: Service) {
    && D.Sized(f) && D.Sane(v.env) && GoodFile(v.before)
    && D.Answers(f, v.env, v.before, v.after, v.resp)
    && D.AnswersMatch(TypeOf(f), SubOf(f), v.env, v.resp)
  }

  // The FILE pointer goes from command to command.
  ghost predicate Chained(services: seq<Service>, file: FileState) {
    && (if services == [] then file == NoFile
        else services[0].before == NoFile && services[|services| - 1].after == file)
    && forall i, j :: 0 <= i && j == i + 1 && j < |services| ==> services[j].before == services[i].after
  }

  // The commands taken, in order, were each dealt with by their handler, and what was emitted, with
  // what is held back of the current command, is their answers in that order.
  ghost predicate Discipline(s: Session) {
    && s.emitted + s.outbox == Responses(s.services)
    && |s.services| == (if s.loggedIn then |s.c2s.dispatched| - 1 else 0)
    && Chained(s.services, s.file)
    && forall i :: 0 <= i < |s.services| ==> Served(s.c2s.dispatched[i + 1], s.services[i])
  }

  // Behind the login acknowledgement the send history is an interleaving of what the command thread
  // and the stream thread appended, each in its own order.
  ghost predicate Interleaved(s: Session) {
    && |s.order| == (if s.loggedIn then |s.s2c.appended| - 1 else 0)
    && (s.loggedIn ==> |s.s2c.appended| > 0
                       && Producers.Of(Producers.Command, s.order, s.s2c.appended[1..]) == s.emitted
                       && Producers.Of(Producers.Video, s.order, s.s2c.appended[1..]) == s.streamed)
    && (!s.loggedIn ==> s.emitted == [] && s.streamed == [])
    && forall i :: 0 <= i < |s.streamed| ==> IsStream(s.streamed[i])
  }

  ghost predicate IsStream(f: Frame) {
    exists frameType, data :: StreamPacket(f, frameType, data)
  }

  // All but the transfer.
  ghost predicate Base(s: Session, login: Frame) {
    && LoginOrder(s, login)
    && AllSized(s.c2s.appended) && AllSent(s.s2c.appended + s.outbox)
    && Discipline(s) && Interleaved(s)
  }

  // The transfer is as it should be until what a failed READ left has changed something.
  ghost predicate Inv(s: Session, content: X.Content, login: Frame) {
    Pipes(s) && Base(s, login) && (!s.struck ==> X.Inv(Abs(s), content))
  }

  lemma {:induction false} LoginReadKeeps(p: P.Pipe, login: Frame)
    requires P.PipeInv(p) && |login| == TcpServer.LOGIN_SIZE && p.appended != [] && p.appended[0] == login
    requires p.dispatched == [] && p.recvWin == [] && p.rx == [] && |p.wire| >= TcpServer.LOGIN_SIZE
    ensures p.wire[..TcpServer.LOGIN_SIZE] == login
    ensures P.PipeInv(LoginRead(p)) && P.Queue(p) != [] && P.Queue(LoginRead(p)) == P.Queue(p)[1..]
  {
    var q := LoginRead(p);
    var mid := P.Between(p);
    var stream := p.wire + p.out;
    P.Split(p);
    NotEmpty(mid);
    assert p.rx + stream == stream == Flatten(mid);
    assert mid[0] == login;
    assert p.wire[..TcpServer.LOGIN_SIZE] == stream[..TcpServer.LOGIN_SIZE] == login;
    assert P.Between(q) == mid[1..];
    assert q.wire + q.out == stream[|login|..] == Flatten(mid[1..]);
    assert q.rx + (q.wire + q.out) == q.wire + q.out;
    assert q.dispatched == [login];
    P.Join(q);
  }

  lemma {:induction false} LoginWriteKeeps(p: P.Pipe, ack: Frame)
    requires P.PipeInv(p) && p.appended == [] && WellFormed(ack)
    ensures P.PipeInv(LoginWrite(p, ack)) && P.Queue(LoginWrite(p, ack)) == [ack] && P.Queue(p) == []
  {
    var q := LoginWrite(p, ack);
    assert P.Between(p) == [] && P.Between(q) == [ack];
    FlattenOne(ack);
    assert p.rx == [] && p.wire == [] && p.out == [];
    assert q.rx + (q.wire + q.out) == ack;
    P.Join(q);
  }

  /* Every step keeps it */

  lemma {:induction false} C2SKeeps(s: Session, step: P.Step, content: X.Content, login: Frame)
    requires Inv(s, content, login) && CanDo(s, C2S(step), content)
    ensures Inv(Do(s, C2S(step)), content, login)
  {
    hide X.Inv, Responses, Interleaved, P.PipeInv, P.Queue, D.Sized, ClientDispatch.Sent, Served, Chained, IsStream,
      TcpServer.IsLoginAck, TcpServer.LoginAccepts, FirstPacket;
    P.StepKeeps(s.c2s, step);
    var t := Do(s, C2S(step));
    assert t.c2s.appended == s.c2s.appended && t.c2s.dispatched == s.c2s.dispatched;
    assert Interleaved(t) by { OtherFields(s, t); }
    assert Abs(t) == Abs(s);
  }

  // What Interleaved speaks of.
  lemma {:induction false} OtherFields(s: Session, t: Session)
    requires Interleaved(s) && t.loggedIn == s.loggedIn && t.s2c.appended == s.s2c.appended
    requires t.emitted == s.emitted && t.streamed == s.streamed && t.order == s.order
    ensures Interleaved(t)
  {
    hide IsStream, Producers.Of;
  }

  // A step of the pipe to the client, a failed READ included.
  lemma {:induction false} S2CKeeps(s: Session, step: P.Step, t: Session, content: X.Content, login: Frame)
    requires Inv(s, content, login) && P.CanStep(s.s2c, step)
    requires t == s.(s2c := P.DoStep(s.s2c, step), stray := t.stray)
    ensures Inv(t, content, login)
  {
    hide X.Inv, Responses, Interleaved, P.PipeInv, P.Queue, D.Sized, ClientDispatch.Sent, Served, Chained, IsStream,
      TcpServer.IsLoginAck, TcpServer.LoginAccepts, FirstPacket;
    P.StepKeeps(s.s2c, step);
    assert t.s2c.appended == s.s2c.appended;
    OtherFields(s, t);
    assert Abs(t) == Abs(s);
  }

  lemma {:induction false} NetworkKeeps(s: Session, a: Action, content: X.Content, login: Frame)
    requires Inv(s, content, login) && CanDo(s, a, content) && (a.S2C? || a.ReadFail?)
    ensures Inv(Do(s, a), content, login)
  {
    hide Inv, P.DoStep, Need, Complete;
    S2CKeeps(s, if a.S2C? then a.step else P.RecvFail, Do(s, a), content, login);
  }

  lemma {:induction false} PairIsNotFile(f: Frame, t: u16, u: u32)
    requires IsPacket(f, t, u, |f|) && !(t == TYPE_FILE && (u == FILE_START || u == FILE_SEND))
    ensures WellFormed(f) && !IsFile(f)
  {
    PacketDecodes(f, t, u, |f|);
  }

  lemma {:induction false} SizedFirst(login: Frame)
    requires FirstPacket(login)
    ensures D.Sized(login) && WellFormed(login) && !IsFile(login) && |login| == TcpServer.LOGIN_SIZE
  {
    hide HeadPkg, TypeOf, SubOf;
    var t, u :| IsPacket(login, t, u, TcpServer.LOGIN_SIZE) && !InTransfer(t, u);
    PacketDecodes(login, t, u, |login|);
  }

  lemma {:induction false} LoginFrames(ack: Frame, login: Frame)
    requires FirstPacket(login) && TcpServer.IsLoginAck(ack, login)
    ensures WellFormed(ack) && WellFormed(login) && !IsFile(ack) && !IsFile(login) && ClientDispatch.Sent(ack)
  {
    hide HeadPkg, TcpServer.LoginAccepts, FirstPacket;
    SizedFirst(login);
    PairIsNotFile(ack, TYPE_CTRL, CTRL_LOGIN);
  }

  // login() takes the first packet whole and its acknowledgement is alone on the way back.
  lemma {:induction false} LoginPipes(s: Session, ack: Frame, content: X.Content, login: Frame)
    requires Inv(s, content, login) && CanLogin(s, ack)
    ensures |login| == TcpServer.LOGIN_SIZE && s.c2s.wire[..TcpServer.LOGIN_SIZE] == login
    ensures TcpServer.IsLoginAck(ack, login) && WellFormed(ack)
    ensures var (p, q) := (LoginRead(s.c2s), LoginWrite(s.s2c, ack));
            && P.PipeInv(p) && p.dispatched == [login] && |p.dispatched| <= |p.appended|
            && P.Queue(s.c2s) == [login] + P.Queue(p)
            && P.PipeInv(q) && q.dispatched == [] && q.appended == [ack]
            && P.Queue(s.s2c) == [] && P.Queue(q) == [ack] && s.s2c.dispatched == []
  {
    hide X.Inv, WellFormed, P.PipeInv, P.Queue, D.Sized, TcpServer.IsLoginAck, TcpServer.LoginAccepts, FirstPacket,
      IsFile, ClientDispatch.Sent, Served, Chained, IsStream;
    SizedFirst(login);
    PipeBounds(s.c2s);
    PipeBounds(s.s2c);
    LoginReadKeeps(s.c2s, login);
    assert s.c2s.wire[..TcpServer.LOGIN_SIZE] == login;
    LoginFrames(ack, login);
    LoginWriteKeeps(s.s2c, ack);
    QueueHead(s.c2s);
  }

  lemma {:induction false} QueueHead(p: P.Pipe)
    requires p.dispatched == [] && p.appended != []
    ensures P.Queue(p) == [p.appended[0]] + P.Queue(p)[1..]
  {
  }

  // Whether it is accepted or not.
  lemma {:induction false} LoginAbs(s: Session, ack: Frame, t: Session, content: X.Content, login: Frame)
    requires Inv(s, content, login) && CanLogin(s, ack)
    requires t == s.(loggedIn := t.loggedIn, rejected := t.rejected,
                     c2s := LoginRead(s.c2s), s2c := LoginWrite(s.s2c, ack))
    ensures Pipes(t) && Abs(t) == Abs(s)
  {
    hide X.Inv, WellFormed, P.PipeInv, P.Queue, D.Sized, TcpServer.IsLoginAck, TcpServer.LoginAccepts, FirstPacket,
      IsFile, ClientDispatch.Sent, Served, Chained, IsStream;
    PipeBounds(s.c2s);
    LoginPipes(s, ack, content, login);
    LoginFrames(ack, login);
    FilesAppend([login], P.Queue(t.c2s));
    FilesOne(login);
    FilesOne(ack);
    assert [ack] + [] == [ack] && P.Queue(s.s2c) + s.outbox == [];
  }

  lemma {:induction false} LoginBase(s: Session, ack: Frame, t: Session, login: Frame)
    requires Base(s, login) && !s.loggedIn && !s.rejected && ClientDispatch.Sent(ack)
    requires |login| == TcpServer.LOGIN_SIZE && TcpServer.IsLoginAck(ack, login) && |s.c2s.wire| >= TcpServer.LOGIN_SIZE
    requires LoginRead(s.c2s).dispatched == [login]
    requires t == s.(loggedIn := TcpServer.LoginAccepts(login), rejected := !TcpServer.LoginAccepts(login),
                     c2s := LoginRead(s.c2s), s2c := LoginWrite(s.s2c, ack))
    ensures Base(t, login) && t.s2c.appended == [ack]
  {
    hide WellFormed, D.Sized, TcpServer.IsLoginAck, TcpServer.LoginAccepts, FirstPacket,
      IsFile, ClientDispatch.Sent, Served, Chained, IsStream, Responses;
    assert t.s2c.appended + t.outbox == [ack];
    assert t.s2c.appended[1..] == [];
  }

  lemma {:induction false} LoginKeeps(s: Session, ack: Frame, content: X.Content, login: Frame)
    requires Inv(s, content, login) && CanDo(s, Login(ack), content)
    ensures Inv(Do(s, Login(ack)), content, login)
  {
    hide Base, X.Inv, P.PipeInv, P.Queue, TcpServer.IsLoginAck, TcpServer.LoginAccepts;
    AnsweredLogin(s, ack, Do(s, Login(ack)), content, login);
  }

  // A login that is refused is answered as well, and nothing follows.
  lemma {:induction false} RejectKeeps(s: Session, ack: Frame, content: X.Content, login: Frame)
    requires Inv(s, content, login) && CanDo(s, Reject(ack), content)
    ensures Inv(Do(s, Reject(ack)), content, login)
    ensures var t := Do(s, Reject(ack)); t.c2s.dispatched == [login] && t.s2c.appended == [ack]
  {
    hide Base, X.Inv, P.PipeInv, P.Queue, TcpServer.IsLoginAck, TcpServer.LoginAccepts;
    AnsweredLogin(s, ack, Do(s, Reject(ack)), content, login);
  }

  lemma {:induction false} AnsweredLogin(s: Session, ack: Frame, t: Session, content: X.Content, login: Frame)
    requires Inv(s, content, login) && CanLogin(s, ack)
    requires var accepted := TcpServer.LoginAccepts(s.c2s.wire[..TcpServer.LOGIN_SIZE]);
             t == s.(loggedIn := accepted, rejected := !accepted,
                     c2s := LoginRead(s.c2s), s2c := LoginWrite(s.s2c, ack))
    ensures Inv(t, content, login) && t.c2s.dispatched == [login] && t.s2c.appended == [ack]
  {
    LoginPipes(s, ack, content, login);
    BaseFirst(s, login);
    hide Base, X.Inv, WellFormed, P.PipeInv, P.Queue, IsFile, ClientDispatch.Sent, FirstPacket,
      TcpServer.IsLoginAck, TcpServer.LoginAccepts;
    LoginFrames(ack, login);
    LoginAbs(s, ack, t, content, login);
    LoginBase(s, ack, t, login);
  }

  lemma {:induction false} BaseFirst(s: Session, login: Frame)
    requires Base(s, login)
    ensures FirstPacket(login)
  {
  }

  lemma {:induction false} PipeBounds(p: P.Pipe)
    requires P.PipeInv(p)
    ensures |p.dispatched| <= |p.appended|
  {
  }

  lemma {:induction false} SentIsWellFormed(f: Frame)
    requires ClientDispatch.Sent(f)
    ensures WellFormed(f)
  {
    ClientDispatch.SentIsEmittable(f);
  }

  // The client appends a frame to its send window, and only its own variables change otherwise.
  lemma {:induction false} SaidPipes(s: Session, f: Frame, t: Session)
    requires Pipes(s) && WellFormed(f)
    requires t == s.(c2s := P.Append(s.c2s, f), asked := t.asked, acked := t.acked, sends := t.sends, d := t.d)
    ensures Pipes(t)
    ensures Abs(t).reqs == Abs(s).reqs + (if IsFile(f) then [f] else []) && Abs(t).acks == Abs(s).acks
  {
    hide WellFormed, P.PipeInv, P.Queue, D.Sized, TcpServer.IsLoginAck, TcpServer.LoginAccepts, FirstPacket, IsFile,
      ClientDispatch.Sent, Served, Chained, IsStream;
    P.AppendKeeps(s.c2s, f);
    PipeBounds(s.c2s);
    PipeBounds(t.c2s);
    PipeBounds(s.s2c);
    FilesAppend(P.Queue(s.c2s), [f]);
    FilesOne(f);
  }

  lemma {:induction false} SaidBase(s: Session, f: Frame, t: Session, login: Frame)
    requires Base(s, login) && D.Sized(f)
    requires t == s.(c2s := P.Append(s.c2s, f), asked := t.asked, acked := t.acked, sends := t.sends, d := t.d)
    ensures Base(t, login) && WellFormed(f)
  {
    assert WellFormed(f);
    hide WellFormed, P.PipeInv, P.Queue, D.Sized, TcpServer.IsLoginAck, TcpServer.LoginAccepts, FirstPacket, IsFile,
      ClientDispatch.Sent, Served, Chained, IsStream;
  }

  // A frame enters the server's send window.
  lemma {:induction false} SentPipes(s: Session, f: Frame, rest: seq<Frame>)
    requires Pipes(s) && ClientDispatch.Sent(f)
    ensures var t := s.(s2c := P.Append(s.s2c, f), outbox := rest);
            && Pipes(t) && Abs(t).reqs == Abs(s).reqs
            && Abs(t).acks == Files((P.Queue(s.s2c) + [f]) + rest)
            && Abs(s).acks == Files(P.Queue(s.s2c) + s.outbox)
  {
    SentIsWellFormed(f);
    hide P.PipeInv, P.Queue, D.Sized, TcpServer.IsLoginAck, TcpServer.LoginAccepts, FirstPacket, IsFile,
      ClientDispatch.Sent, Served, Chained, IsStream;
    P.AppendKeeps(s.s2c, f);
    PipeBounds(s.c2s);
    PipeBounds(s.s2c);
  }

  lemma {:induction false} EmitKeeps(s: Session, content: X.Content, login: Frame)
    requires Inv(s, content, login) && CanDo(s, Emit, content)
    ensures Inv(Do(s, Emit), content, login)
  {
    hide X.Inv, Base, P.PipeInv, P.Queue, D.Sized, TcpServer.IsLoginAck, TcpServer.LoginAccepts, FirstPacket, IsFile,
      ClientDispatch.Sent, Served, Chained, IsStream;
    var t := Do(s, Emit);
    var o, rest := s.outbox[0], s.outbox[1..];
    EmitBase(s, login);
    SentPipes(s, o, rest);
    PipeBounds(s.s2c);
    assert (P.Queue(s.s2c) + [o]) + rest == P.Queue(s.s2c) + s.outbox;
    assert Abs(t) == Abs(s);
  }

  lemma {:induction false} EmitBase(s: Session, login: Frame)
    requires Base(s, login) && s.outbox != []
    ensures ClientDispatch.Sent(s.outbox[0]) && Base(Do(s, Emit), login)
  {
    hide P.PipeInv, P.Queue, D.Sized, TcpServer.IsLoginAck, TcpServer.LoginAccepts, FirstPacket, IsFile,
      ClientDispatch.Sent, Served, Chained, IsStream, Responses, Producers.Of;
    var t := Do(s, Emit);
    assert s.outbox[0] == (s.s2c.appended + s.outbox)[|s.s2c.appended|];
    assert t.s2c.appended + t.outbox == s.s2c.appended + s.outbox;
    assert t.emitted + t.outbox == s.emitted + s.outbox;
    Behind(s.order, s.s2c.appended, Producers.Command, s.outbox[0]);
  }

  // One more frame behind the login acknowledgement.
  lemma {:induction false} Behind(order: seq<Producers.Producer>, appended: seq<Frame>, who: Producers.Producer,
                                  f: Frame)
    requires appended != [] && |order| == |appended| - 1
    ensures forall p :: Producers.Of(p, order + [who], (appended + [f])[1..])
                        == Producers.Of(p, order, appended[1..]) + if p == who then [f] else []
  {
    hide Producers.Of;
    assert (appended + [f])[1..] == appended[1..] + [f];
    forall p {
      Producers.OfAppend(p, order, appended[1..], who, f);
    }
  }

  lemma {:induction false} StreamNotFile(f: Frame, frameType: u32, data: seq<byte>)
    requires StreamPacket(f, frameType, data)
    ensures WellFormed(f) && !IsFile(f) && ClientDispatch.Sent(f) && IsStream(f)
  {
    PairIsNotFile(f, TYPE_VID, VID_STREAM);
  }

  lemma {:induction false} StreamKeeps(s: Session, f: Frame, frameType: u32, data: seq<byte>, content: X.Content,
                                       login: Frame)
    requires Inv(s, content, login) && CanDo(s, Stream(f, frameType, data), content)
    ensures Inv(Do(s, Stream(f, frameType, data)), content, login)
  {
    hide StreamPacket, Files, Base, X.Inv, P.PipeInv, P.Queue, D.Sized, TcpServer.IsLoginAck, TcpServer.LoginAccepts,
      FirstPacket, IsFile, ClientDispatch.Sent, Served, Chained, IsStream;
    StreamNotFile(f, frameType, data);
    var t := Do(s, Stream(f, frameType, data));
    SentPipes(s, f, s.outbox);
    PipeBounds(s.s2c);
    var q := P.Queue(s.s2c);
    FilesAppend(q, s.outbox);
    FilesAppend(q + [f], s.outbox);
    FilesAppend(q, [f]);
    FilesOne(f);
    assert Abs(t) == Abs(s);
    StreamBase(s, f, t, login);
  }

  lemma {:induction false} StreamBase(s: Session, f: Frame, t: Session, login: Frame)
    requires Base(s, login) && ClientDispatch.Sent(f) && IsStream(f) && s.loggedIn
    requires t == s.(s2c := P.Append(s.s2c, f), streamed := s.streamed + [f], order := s.order + [Producers.Video])
    ensures Base(t, login)
  {
    hide P.PipeInv, P.Queue, D.Sized, TcpServer.IsLoginAck, TcpServer.LoginAccepts, FirstPacket, IsFile,
      ClientDispatch.Sent, Served, Chained, IsStream, Responses, Producers.Of;
    var before, after := s.s2c.appended + s.outbox, s.s2c.appended + [f] + s.outbox;
    var n := |s.s2c.appended|;
    forall i | 0 <= i < |after|
      ensures ClientDispatch.Sent(after[i])
    {
      if i != n {
        assert after[i] == before[if i < n then i else i - 1];
      }
    }
    Behind(s.order, s.s2c.appended, Producers.Video, f);
  }

  lemma {:induction false} SayKeeps(s: Session, f: Frame, content: X.Content, login: Frame)
    requires Inv(s, content, login) && CanDo(s, Say(f), content)
    ensures Inv(Do(s, Say(f)), content, login)
  {
    hide X.Inv, Base, P.PipeInv, P.Queue, D.Sized, TcpServer.IsLoginAck, TcpServer.LoginAccepts, FirstPacket, IsFile,
      ClientDispatch.Sent, Served, Chained, IsStream;
    var t := Do(s, Say(f));
    SaidBase(s, f, t, login);
    SaidPipes(s, f, t);
    assert Abs(t) == Abs(s);
  }

  lemma {:induction false} StartSized(f: Frame)
    requires StartRequest(f)
    ensures D.Sized(f) && IsFile(f)
  {
    hide HeadPkg;
    X.StartSized(f);
  }

  lemma {:induction false} AskKeeps(s: Session, f: Frame, content: X.Content, login: Frame)
    requires Inv(s, content, login) && CanDo(s, Ask(f), content)
    ensures Inv(Do(s, Ask(f)), content, login)
  {
    hide X.Inv, Base, StartRequest, P.PipeInv, P.Queue, D.Sized, TcpServer.IsLoginAck, TcpServer.LoginAccepts,
      FirstPacket, IsFile, ClientDispatch.Sent, Served, Chained, IsStream;
    if !s.struck {
      X.AskKeeps(Abs(s), f, content);
    }
    StartSized(f);
    var t := Do(s, Ask(f));
    SaidBase(s, f, t, login);
    SaidPipes(s, f, t);
    assert Abs(t) == X.Next(Abs(s), X.Ask(f));
  }

  lemma {:induction false} SendSized(f: Frame, k: nat)
    requires SendRequest(f, k)
    ensures D.Sized(f) && IsFile(f)
  {
    hide HeadPkg, SendSerial, SendLen;
    PacketDecodes(f, TYPE_FILE, FILE_SEND, |f|);
  }

  lemma {:induction false} BeginKeeps(s: Session, f: Frame, content: X.Content, login: Frame)
    requires Inv(s, content, login) && CanDo(s, Begin(f), content)
    ensures Inv(Do(s, Begin(f)), content, login)
  {
    hide X.Inv, Base, SendRequest, P.PipeInv, P.Queue, D.Sized, TcpServer.IsLoginAck, TcpServer.LoginAccepts,
      FirstPacket, IsFile, ClientDispatch.Sent, Served, Chained, IsStream;
    if !s.struck {
      X.BeginKeeps(Abs(s), f, content);
    }
    SendSized(f, 0);
    var t := Do(s, Begin(f));
    SaidBase(s, f, t, login);
    SaidPipes(s, f, t);
    assert Abs(t) == X.Next(Abs(s), X.Begin(f));
  }

  // A command of the transfer is answered with one frame of the transfer, any other command with
  // none, and then the server's file is left alone.
  lemma {:induction false} ServedFiles(f: Frame, env: D.Env, file: FileState, after: FileState, resp: seq<Frame>)
    requires D.Sized(f) && GoodFile(file) && D.Answers(f, env, file, after, resp)
    ensures D.AnswersMatch(TypeOf(f), SubOf(f), env, resp)
    ensures IsFile(f) ==> |resp| == 1 && IsFile(resp[0])
    ensures !IsFile(f) ==> after == file && Files(resp) == []
  {
    hide HeadPkg, Field32, Field16, TypeOf, SubOf;
    D.AckDiscipline(f, env, file, after, resp);
    forall i | 0 <= i < |resp|
      ensures TypeOf(resp[i]) == TypeOf(f) && SubOf(resp[i]) == SubOf(f) && IsFile(resp[i]) == IsFile(f)
    {
      PacketDecodes(resp[i], TypeOf(f), SubOf(f), |resp[i]|);
    }
    if !IsFile(f) {
      FilesNone(resp);
    }
  }

  lemma {:induction false} AnswerIsSent(t: u16, u: u32, env: D.Env, resp: seq<Frame>)
    requires D.AnswersMatch(t, u, env, resp)
    ensures forall i :: 0 <= i < |resp| ==> ClientDispatch.Sent(resp[i])
  {
    hide D.AnswersMatch;
    forall i | 0 <= i < |resp|
      ensures ClientDispatch.Sent(resp[i])
    {
      assert resp[i] in resp;
    }
  }

  lemma {:induction false} ServeBase(s: Session, env: D.Env, after: FileState, resp: seq<Frame>, login: Frame)
    requires Base(s, login) && s.loggedIn && s.c2s.recvWin != [] && s.outbox == []
    requires Served(s.c2s.recvWin[0], Service(env, s.file, after, resp))
    ensures Base(Do(s, Serve(env, after, resp)), login)
  {
    var f, v := s.c2s.recvWin[0], Service(env, s.file, after, resp);
    var t := Do(s, Serve(env, after, resp));
    ServedIsSent(f, v);
    ServeDiscipline(s, v, t);
    hide Interleaved, Discipline, Responses, P.PipeInv, P.Queue, D.Sized, TcpServer.IsLoginAck, TcpServer.LoginAccepts,
      FirstPacket, IsFile, ClientDispatch.Sent, Served, Chained, IsStream;
    OtherFields(s, t);
    assert s.s2c.appended + [] == s.s2c.appended;
  }

  lemma {:induction false} ServeDiscipline(s: Session, v: Service, t: Session)
    requires Discipline(s) && s.loggedIn && s.c2s.recvWin != [] && s.outbox == []
    requires Served(s.c2s.recvWin[0], v) && v.before == s.file
    requires t == s.(c2s := P.Dispatch(s.c2s), file := v.after, outbox := v.resp, services := s.services + [v])
    ensures Discipline(t)
  {
    hide Served;
    assert t.services[..|t.services| - 1] == s.services;
    assert s.emitted + [] == s.emitted;
  }

  lemma {:induction false} ServedIsSent(f: Frame, v: Service)
    requires Served(f, v)
    ensures forall i :: 0 <= i < |v.resp| ==> ClientDispatch.Sent(v.resp[i])
  {
    AnswerIsSent(TypeOf(f), SubOf(f), v.env, v.resp);
  }

  lemma {:induction false} ServeAbs(s: Session, after: FileState, resp: seq<Frame>, t: Session)
    requires Pipes(s) && s.c2s.recvWin != [] && s.outbox == []
    requires t == s.(c2s := P.Dispatch(s.c2s), file := after, outbox := resp, services := t.services)
    ensures Pipes(t)
    ensures Abs(s).reqs == (if IsFile(s.c2s.recvWin[0]) then [s.c2s.recvWin[0]] else []) + Abs(t).reqs
    ensures Abs(t).acks == Abs(s).acks + Files(resp)
  {
    hide P.PipeInv, P.Queue, D.Sized, TcpServer.IsLoginAck, TcpServer.LoginAccepts, FirstPacket, IsFile,
      ClientDispatch.Sent, Served, Chained, IsStream;
    PipeBounds(s.c2s);
    PipeBounds(s.s2c);
    P.DispatchKeeps(s.c2s);
    PipeBounds(t.c2s);
    FilesFront(P.Queue(s.c2s));
    FilesAppend(P.Queue(s.s2c), resp);
    assert P.Queue(s.s2c) + [] == P.Queue(s.s2c);
  }

  lemma {:induction false} ServeMove(s: Session, env: D.Env, after: FileState, resp: seq<Frame>, t: Session,
                                     content: X.Content)
    requires Pipes(s) && s.c2s.recvWin != [] && s.outbox == [] && D.Sized(s.c2s.recvWin[0]) && GoodFile(s.file)
    requires X.IsStart(s.c2s.recvWin[0]) ==> env.found == Some(content)
    requires D.Answers(s.c2s.recvWin[0], env, s.file, after, resp)
    requires t == s.(c2s := P.Dispatch(s.c2s), file := after, outbox := resp, services := t.services)
    ensures Pipes(t) && (X.Inv(Abs(s), content) ==> X.Inv(Abs(t), content))
  {
    hide D.Answers, D.AnswersMatch, X.Inv, TypeOf, SubOf, X.IsStart, X.IsSend, P.PipeInv, P.Queue, D.Sized, IsFile,
      Files, GoodFile;
    var f := s.c2s.recvWin[0];
    ServedFiles(f, env, s.file, after, resp);
    ServeAbs(s, after, resp, t);
    if !IsFile(f) {
      assert Abs(t) == Abs(s);
    } else if X.Inv(Abs(s), content) {
      FilesOne(resp[0]);
      assert resp == [resp[0]];
      assert Abs(t) == X.Next(Abs(s), X.Serve(env, after, resp[0]));
      X.ServeKeeps(Abs(s), env, after, resp[0], content);
    }
  }

  lemma {:induction false} ServeKeeps(s: Session, env: D.Env, after: FileState, resp: seq<Frame>, content: X.Content,
                                      login: Frame)
    requires Inv(s, content, login) && CanDo(s, Serve(env, after, resp), content)
    ensures Inv(Do(s, Serve(env, after, resp)), content, login)
  {
    hide D.Answers, D.AnswersMatch, X.Inv, Base, TypeOf, SubOf, X.IsStart, X.IsSend, P.PipeInv, P.Queue, D.Sized,
      IsFile;
    var f, t := s.c2s.recvWin[0], Do(s, Serve(env, after, resp));
    ServedFiles(f, env, s.file, after, resp);
    assert Served(f, Service(env, s.file, after, resp));
    ServeBase(s, env, after, resp, login);
    ServeMove(s, env, after, resp, t, content);
  }

  lemma SizedIsWellFormed(f: Frame)
    requires D.Sized(f)
    ensures WellFormed(f)
  {
  }

  // The client's dispatcher: a frame of the transfer, or one that leaves its variables alone.
  lemma {:induction false} TakenOther(d: Download, ack: Frame, reply: seq<Frame>)
    requires X.Replies(d, ack, reply)
    ensures !IsFile(ack) ==> X.Taken(d, ack) == d && reply == [] && !X.IsStart(ack)
    ensures reply == [] || (|reply| == 1 && D.Sized(reply[0]) && IsFile(reply[0]))
  {
    hide HeadPkg, TypeOf, SubOf, AfterChunk, SendRequest;
    if reply != [] {
      SendSized(reply[0], d.serial + 1);
    }
  }

  lemma {:induction false} TookBase(s: Session, ack: Frame, reply: seq<Frame>, t: Session, login: Frame)
    requires Base(s, login)
    requires t == Took(s, ack, reply).(acked := t.acked, s2c := t.s2c, stray := t.stray, struck := t.struck)
    requires t.s2c.appended == s.s2c.appended
    requires reply == [] || (|reply| == 1 && D.Sized(reply[0]))
    ensures Base(t, login)
  {
    hide X.Taken, X.IsStart, Responses, Interleaved, P.PipeInv, P.Queue, D.Sized, TcpServer.IsLoginAck,
      TcpServer.LoginAccepts, FirstPacket, IsFile, ClientDispatch.Sent, Served, Chained, IsStream;
    OtherFields(s, t);
  }

  lemma {:induction false} ReplyPipe(p: P.Pipe, reply: seq<Frame>)
    requires P.PipeInv(p)
    requires reply == [] || (|reply| == 1 && D.Sized(reply[0]) && IsFile(reply[0]))
    ensures |p.dispatched| <= |p.appended| && P.PipeInv(AppendAll(p, reply))
    ensures Files(P.Queue(AppendAll(p, reply))) == Files(P.Queue(p)) + reply
  {
    hide P.PipeInv, P.Queue, D.Sized, TcpServer.IsLoginAck, TcpServer.LoginAccepts, FirstPacket, IsFile,
      ClientDispatch.Sent, Served, Chained, IsStream;
    PipeBounds(p);
    if reply == [] {
      assert AppendAll(p, reply) == p;
    } else {
      assert AppendAll(p, reply) == P.Append(p, reply[0]);
      SizedIsWellFormed(reply[0]);
      P.AppendKeeps(p, reply[0]);
      FilesAppend(P.Queue(p), [reply[0]]);
      FilesOne(reply[0]);
    }
  }

  lemma {:induction false} DispatchAbs(s: Session, ack: Frame, reply: seq<Frame>, t: Session)
    requires Pipes(s) && s.s2c.recvWin != [] && ack == s.s2c.recvWin[0]
    requires t == s.(s2c := P.Dispatch(s.s2c), c2s := AppendAll(s.c2s, reply),
                     d := t.d, acked := t.acked, sends := t.sends)
    requires reply == [] || (|reply| == 1 && D.Sized(reply[0]) && IsFile(reply[0]))
    ensures Pipes(t)
    ensures Abs(t).reqs == Abs(s).reqs + reply
    ensures Abs(s).acks == (if IsFile(ack) then [ack] else []) + Abs(t).acks
  {
    hide P.PipeInv, P.Queue, D.Sized, TcpServer.IsLoginAck, TcpServer.LoginAccepts, FirstPacket, IsFile,
      ClientDispatch.Sent, Served, Chained, IsStream;
    ReplyPipe(s.c2s, reply);
    PipeBounds(s.s2c);
    P.DispatchKeeps(s.s2c);
    PipeBounds(t.s2c);
    PipeBounds(t.c2s);
    FilesFront(P.Queue(s.s2c) + s.outbox);
    assert (P.Queue(s.s2c) + s.outbox)[1..] == P.Queue(t.s2c) + s.outbox;
  }

  lemma {:induction false} DispatchMove(s: Session, reply: seq<Frame>, t: Session, content: X.Content)
    requires Pipes(s) && s.s2c.recvWin != [] && X.Replies(s.d, s.s2c.recvWin[0], reply)
    requires t == Took(s, s.s2c.recvWin[0], reply).(s2c := P.Dispatch(s.s2c))
    ensures Pipes(t) && (X.Inv(Abs(s), content) ==> X.Inv(Abs(t), content))
  {
    hide X.Inv, X.Taken, X.IsStart, X.IsSend, X.Replies, Files, P.PipeInv, P.Queue, D.Sized, IsFile;
    var ack := s.s2c.recvWin[0];
    TakenOther(s.d, ack, reply);
    DispatchAbs(s, ack, reply, t);
    if !IsFile(ack) {
      assert Abs(t) == Abs(s);
    } else if X.Inv(Abs(s), content) {
      assert Abs(t) == X.Next(Abs(s), X.Take(reply));
      X.TakeKeeps(Abs(s), reply, content);
    }
  }

  lemma {:induction false} DispatchKeeps(s: Session, reply: seq<Frame>, t: Session, content: X.Content, login: Frame)
    requires Inv(s, content, login) && IsStep(s, Dispatch(reply), t, content)
    ensures Inv(t, content, login)
  {
    hide X.Inv, Base, X.Taken, X.IsStart, X.IsSend, X.Replies, Files, P.PipeInv, P.Queue, D.Sized, IsFile;
    var ack := s.s2c.recvWin[0];
    TakenOther(s.d, ack, reply);
    TookBase(s, ack, reply, t, login);
    DispatchMove(s, reply, t, content);
  }

  // A callback that leaves the globals alone has taken no chunk.
  lemma {:induction false} TakenNothing(d: Download, ack: Frame, reply: seq<Frame>)
    requires X.Replies(d, ack, reply) && X.Taken(d, ack) == d
    ensures reply == []
  {
    hide TypeOf, SubOf;
  }

  // What a failed READ left can be anything, so that only the rest of the invariant is kept, unless it
  // changes nothing.
  lemma {:induction false} DispatchStrayKeeps(s: Session, reply: seq<Frame>, t: Session, content: X.Content,
                                              login: Frame)
    requires Inv(s, content, login) && IsStep(s, DispatchStray(reply), t, content)
    ensures Inv(t, content, login)
  {
    hide X.Inv, Base, X.Taken, X.Defined, X.IsStart, X.IsSend, X.Replies, Files, P.PipeInv, P.Queue, D.Sized, IsFile;
    TakenOther(s.d, s.stray[0], reply);
    ReplyPipe(s.c2s, reply);
    TookBase(s, s.stray[0], reply, t, login);
    if X.Taken(s.d, s.stray[0]) == s.d {
      TakenNothing(s.d, s.stray[0], reply);
      PipeBounds(s.c2s);
      PipeBounds(s.s2c);
      assert AppendAll(s.c2s, []) == s.c2s;
      assert Abs(t) == Abs(s);
    }
  }

  lemma {:induction false} StepKeeps(s: Session, a: Action, t: Session, content: X.Content, login: Frame)
    requires Inv(s, content, login) && IsStep(s, a, t, content)
    ensures Inv(t, content, login)
  {
    hide Inv, CanDo, Do;
    match a {
      case C2S(step) => C2SKeeps(s, step, content, login);
      case S2C(_) => NetworkKeeps(s, a, content, login);
      case ReadFail(_) => NetworkKeeps(s, a, content, login);
      case Login(ack) => LoginKeeps(s, ack, content, login);
      case Reject(ack) => RejectKeeps(s, ack, content, login);
      case Serve(env, after, resp) => ServeKeeps(s, env, after, resp, content, login);
      case Emit => EmitKeeps(s, content, login);
      case Stream(f, frameType, data) => StreamKeeps(s, f, frameType, data, content, login);
      case Say(f) => SayKeeps(s, f, content, login);
      case Ask(f) => AskKeeps(s, f, content, login);
      case Begin(f) => BeginKeeps(s, f, content, login);
      case Dispatch(reply) => DispatchKeeps(s, reply, t, content, login);
      case DispatchStray(reply) => DispatchStrayKeeps(s, reply, t, content, login);
    }
  }

  lemma {:induction false} StartBase(login: Frame)
    requires FirstPacket(login)
    ensures Base(Start(login), login)
  {
    SizedFirst(login);
    hide D.Sized, IsFile, WellFormed, Served, IsStream, FirstPacket;
  }

  lemma {:induction false} StartInv(content: X.Content, login: Frame)
    requires FirstPacket(login)
    ensures Inv(Start(login), content, login)
  {
    SizedFirst(login);
    StartBase(login);
    hide Base, X.Inv, P.PipeInv, IsFile, WellFormed, FirstPacket;
    P.FreshInv([]);
    P.AppendKeeps(P.Fresh([]), login);
    FilesOne(login);
    assert [] + [login] == [login];
    X.StartGood(content);
  }

  /* Whole runs */

  ghost predicate StepAt(ss: seq<Session>, acts: seq<Action>, content: X.Content, i: nat)
    requires i < |acts| && |ss| == |acts| + 1
  {
    IsStep(ss[i], acts[i], ss[i + 1], content)
  }

  ghost predicate IsRun(ss: seq<Session>, acts: seq<Action>, content: X.Content, login: Frame) {
    && |ss| == |acts| + 1 && FirstPacket(login)
    && ss[0] == Start(login)
    && forall i :: 0 <= i < |acts| ==> StepAt(ss, acts, content, i)
  }

  lemma {:induction false} RunInv(ss: seq<Session>, acts: seq<Action>, content: X.Content, login: Frame, i: nat)
    requires IsRun(ss, acts, content, login) && i < |ss|
    ensures Inv(ss[i], content, login)
  {
    hide Inv, IsStep, Start, FirstPacket;
    if i == 0 {
      StartInv(content, login);
    } else {
      RunInv(ss, acts, content, login, i - 1);
      assert StepAt(ss, acts, content, i - 1);
      StepKeeps(ss[i - 1], acts[i - 1], ss[i], content, login);
    }
  }

  // Whatever else runs beside it, in every state of every run, until what a failed READ left changes
  // something at the client (Strays says when it can): what the client has written is a beginning of
  // the file, its serial number and its count agree, and the file that the server reads and the one
  // that the client writes are open, at the right place, when they are used.
  lemma {:induction false} DownloadSafe(ss: seq<Session>, acts: seq<Action>, content: X.Content, login: Frame, i: nat)
    requires IsRun(ss, acts, content, login) && i < |ss| && !ss[i].struck
    ensures var s := ss[i];
            && s.d.written <= content && s.d.count == |s.d.written|
            && (s.d.isOpen ==> s.d.serial * 1024 == s.d.count && s.sends == s.d.serial + 1)
            && s.sends <= |content| / 1024 + 1
            && (s.c2s.recvWin != [] && X.IsSend(s.c2s.recvWin[0]) ==> s.file == Open(content, s.d.count))
            && (s.s2c.recvWin != [] && X.IsSend(s.s2c.recvWin[0]) ==> s.d.isOpen)
  {
    hide Inv, X.IsSend;
    StopAndWait(ss, acts, content, login, i);
    StateSafe(ss[i], content, login);
  }

  // The exchange inside the session is safe: at most one chunk is under way in both directions, and
  // the server's position is the client's count plus the bytes of the chunk that is on its way back.
  lemma {:induction false} StopAndWait(ss: seq<Session>, acts: seq<Action>, content: X.Content, login: Frame, i: nat)
    requires IsRun(ss, acts, content, login) && i < |ss| && !ss[i].struck
    ensures Inv(ss[i], content, login) && X.Safe(Abs(ss[i]), content)
  {
    hide X.Safe, Base, X.Inv, P.PipeInv;
    RunInv(ss, acts, content, login, i);
    StateSafe(ss[i], content, login);
  }

  lemma {:induction false} StateSafe(s: Session, content: X.Content, login: Frame)
    requires Inv(s, content, login) && !s.struck
    ensures X.Safe(Abs(s), content)
    ensures s.c2s.recvWin != [] && X.IsSend(s.c2s.recvWin[0]) ==> s.file == Open(content, s.d.count)
    ensures s.s2c.recvWin != [] && X.IsSend(s.s2c.recvWin[0]) ==> s.d.isOpen
    ensures s.sends > 0 && !s.d.isOpen ==> X.Complete(Abs(s), content)
  {
    hide X.Inv, Base, P.PipeInv, X.IsStart, X.IsSend, X.Complete;
    PipeBounds(s.c2s);
    PipeBounds(s.s2c);
    X.InvSafe(Abs(s), content);
    if s.c2s.recvWin != [] {
      P.DispatchKeeps(s.c2s);
      FilesFront(P.Queue(s.c2s));
    }
    if s.s2c.recvWin != [] {
      P.DispatchKeeps(s.s2c);
      FilesFront(P.Queue(s.s2c) + s.outbox);
    }
  }

  // Once the client has closed its file, that file is the server's, both ends have closed on the
  // same chunk, and exactly |content| / 1024 + 1 chunks were requested.
  lemma {:induction false} DownloadComplete(ss: seq<Session>, acts: seq<Action>, content: X.Content, login: Frame,
                                            i: nat)
    requires IsRun(ss, acts, content, login) && i < |ss|
    requires ss[i].sends > 0 && !ss[i].d.isOpen && !ss[i].struck
    ensures ss[i].d.written == content && ss[i].file == Closed
    ensures X.ChunkMoves(ss[i].c2s.appended) == |content| / 1024 + 1
  {
    RunInv(ss, acts, content, login, i);
    StateSafe(ss[i], content, login);
    SendsCounted(ss, acts, content, login, i);
  }

  lemma {:induction false} MovesAppend(a: seq<Frame>, b: seq<Frame>)
    ensures X.ChunkMoves(a + b) == X.ChunkMoves(a) + X.ChunkMoves(b)
  {
    hide X.IsSend;
    if a == [] {
      assert a + b == b;
    } else {
      MovesAppend(a[1..], b);
      assert (a + b)[1..] == a[1..] + b;
    }
  }

  // The history variable `sends` counts the requests for chunks that entered the send window.
  lemma {:induction false} SendsCounted(ss: seq<Session>, acts: seq<Action>, content: X.Content, login: Frame, i: nat)
    requires IsRun(ss, acts, content, login) && i < |ss|
    ensures X.ChunkMoves(ss[i].c2s.appended) == ss[i].sends
  {
    hide IsStep, Start, Inv, X.IsSend;
    if i == 0 {
      StartCounted(login);
    } else {
      SendsCounted(ss, acts, content, login, i - 1);
      assert StepAt(ss, acts, content, i - 1);
      StepCounted(ss[i - 1], acts[i - 1], ss[i], content);
    }
  }

  lemma {:induction false} OneMove(f: Frame)
    ensures X.ChunkMoves([f]) == X.One(X.IsSend(f))
  {
    hide X.IsSend;
    assert X.ChunkMoves([f][1..]) == 0;
  }

  lemma {:induction false} StartCounted(login: Frame)
    requires FirstPacket(login)
    ensures X.ChunkMoves(Start(login).c2s.appended) == 0 == Start(login).sends
  {
    SizedFirst(login);
    hide FirstPacket;
    OneMove(login);
    assert Start(login).c2s.appended == [login];
  }

  // What an action puts into the client's send window.
  function Added(a: Action): seq<Frame> {
    match a case Say(f) => [f] case Ask(f) => [f] case Begin(f) => [f] case Dispatch(reply) => reply
    case DispatchStray(reply) => reply case _ => []
  }

  lemma {:induction false} StepAdds(s: Session, a: Action, t: Session, content: X.Content)
    requires IsStep(s, a, t, content)
    ensures t.c2s.appended == s.c2s.appended + Added(a)
  {
    hide CanDo, P.DoStep, X.Taken;
    match a {
      case C2S(step) => C2SAdds(s, step, t, content);
      case _ => assert s.c2s.appended + [] == s.c2s.appended;
    }
  }

  lemma {:induction false} C2SAdds(s: Session, step: P.Step, t: Session, content: X.Content)
    requires IsStep(s, C2S(step), t, content)
    ensures t.c2s.appended == s.c2s.appended
  {
  }

  lemma {:induction false} StepCounted(s: Session, a: Action, t: Session, content: X.Content)
    requires IsStep(s, a, t, content) && X.ChunkMoves(s.c2s.appended) == s.sends
    ensures X.ChunkMoves(t.c2s.appended) == t.sends
  {
    hide StartRequest, SendRequest, X.Taken, X.IsStart, X.IsSend, X.Replies, X.ChunkMoves, D.Answers, D.Sized,
      TcpServer.LoginAccepts, TcpServer.IsLoginAck, StreamPacket;
    StepAdds(s, a, t, content);
    MovesAppend(s.c2s.appended, Added(a));
    match a {
      case Say(f) => OneMove(f);
      case Ask(f) => AskIsStart(f); OneMove(f);
      case Begin(f) => SendIsSend(f, 0); OneMove(f);
      case Dispatch(reply) => ReplyCounted(s.d, s.s2c.recvWin[0], reply);
      case DispatchStray(reply) => ReplyCounted(s.d, s.stray[0], reply);
      case _ => NoMove();
    }
  }

  lemma NoMove()
    ensures X.ChunkMoves([]) == 0
  {
  }

  lemma {:induction false} ReplyCounted(d: Download, ack: Frame, reply: seq<Frame>)
    requires X.Replies(d, ack, reply)
    ensures X.ChunkMoves(reply) == |reply|
  {
    hide SendRequest;
    if reply != [] {
      SendIsSend(reply[0], d.serial + 1);
      OneMove(reply[0]);
      assert reply == [reply[0]];
    }
  }

  lemma AskIsStart(f: Frame)
    requires StartRequest(f)
    ensures !X.IsSend(f)
  {
    hide HeadPkg;
    X.StartSized(f);
  }

  lemma SendIsSend(f: Frame, k: nat)
    requires SendRequest(f, k)
    ensures X.IsSend(f)
  {
    hide HeadPkg;
    PacketDecodes(f, TYPE_FILE, FILE_SEND, |f|);
  }

  // What the command thread has appended, and what it still holds back of its current command, is
  // the answers of the handlers to the commands, in the order in which it took them and for what each
  // found in the file system (Discipline); behind the login acknowledgement the server has sent these
  // answers and the stream thread's packets, and nothing else (Interleaved).
  lemma {:induction false} AcksInOrder(ss: seq<Session>, acts: seq<Action>, content: X.Content, login: Frame, i: nat)
    requires IsRun(ss, acts, content, login) && i < |ss|
    ensures Discipline(ss[i]) && Interleaved(ss[i])
  {
    RunInv(ss, acts, content, login, i);
    hide Discipline, Interleaved, LoginOrder, AllSized, AllSent, X.Inv, P.PipeInv;
  }

  // The frame that the client's dispatcher is about to take out of the receive window has a node in the
  // client's table, whatever callbacks have been set there since construction; for what a failed READ
  // leaves behind it, see Strays.
  lemma {:induction false} DispatchTotalOnRuns(ss: seq<Session>, acts: seq<Action>, content: X.Content, login: Frame,
                                               i: nat,
                                               calls: seq<ClientDispatch.ClientRegistry.Call>)
    requires IsRun(ss, acts, content, login) && i < |ss| && ss[i].s2c.recvWin != []
    requires ClientDispatch.ClientRegistry.Legal(calls) && ClientDispatch.CONSTRUCTOR_CALLS <= calls
    ensures var f := ss[i].s2c.recvWin[0];
            && WellFormed(f)
            && ClientDispatch.CommandLists.Lookup(ClientDispatch.ClientRegistry.After(calls), TypeOf(f), SubOf(f))
               != None
  {
    RunInv(ss, acts, content, login, i);
    hide X.Inv, D.Sized, ClientDispatch.Sent, TypeOf, SubOf, Served, Chained, IsStream, X.IsStart, X.IsSend;
    var s, f := ss[i], ss[i].s2c.recvWin[0];
    P.Split(s.s2c);
    assert f == s.s2c.appended[|s.s2c.dispatched|] == (s.s2c.appended + s.outbox)[|s.s2c.dispatched|];
    ClientDispatch.SentIsEmittable(f);
    ClientDispatch.DispatchTotal(calls, TypeOf(f), SubOf(f));
  }

  // Until login has succeeded the server sends nothing, or the one acknowledgement that says no and
  // nothing behind it; when it has, its acknowledgement comes first in the send history (LoginOrder),
  // and so on the wire. The login frame is the first that the server takes, whole, so that its framed
  // reader starts on a boundary.
  lemma {:induction false} LoginFirst(ss: seq<Session>, acts: seq<Action>, content: X.Content, login: Frame, i: nat)
    requires IsRun(ss, acts, content, login) && i < |ss|
    ensures LoginOrder(ss[i], login) && P.PipeInv(ss[i].c2s)
    ensures ss[i].loggedIn ==> ss[i].c2s.dispatched[0] == login
    ensures var p := ss[i].s2c;
            Flatten(p.dispatched + p.recvWin) + p.rx + p.wire <= Flatten(p.appended)
  {
    RunInv(ss, acts, content, login, i);
    StateOrder(ss[i], content, login);
  }

  lemma {:induction false} StateOrder(s: Session, content: X.Content, login: Frame)
    requires Inv(s, content, login)
    ensures LoginOrder(s, login) && P.PipeInv(s.c2s)
    ensures s.loggedIn ==> s.c2s.dispatched[0] == login
    ensures Flatten(s.s2c.dispatched + s.s2c.recvWin) + s.s2c.rx + s.s2c.wire <= Flatten(s.s2c.appended)
  {
    hide X.Inv, D.Sized, ClientDispatch.Sent, TcpServer.IsLoginAck, TcpServer.LoginAccepts, Served, Chained, IsStream,
      P.PipeInv,
      FirstPacket;
    P.WireOrder(s.s2c);
    if s.loggedIn {
      Dispatched(s.c2s);
    }
  }

  lemma {:induction false} Dispatched(p: P.Pipe)
    requires P.PipeInv(p) && p.dispatched != []
    ensures p.appended != [] && p.appended[0] == p.dispatched[0]
  {
    P.Split(p);
  }

  // The meter overstates nothing unless 110 percent overflows, and with tenths of at least a chunk it
  // is not behind.
  predicate MeterGood(d: Download, len: u32) {
    var t := 10 * (len / 100);
    && (!(11 * t >= 4294967296 && 1024 * (len / 1024) > 10 * t && len > 11 * t - 4294967296) && d.viewinfo > 1 ==>
          d.count > t * (d.viewinfo - 1))
    && (t >= 1024 ==> d.count <= t * d.viewinfo)
  }

  lemma {:induction false} MeterOnRuns(ss: seq<Session>, acts: seq<Action>, content: X.Content, login: Frame, i: nat)
    requires IsRun(ss, acts, content, login) && i < |ss| && ss[i].sends > 0 && !ss[i].struck
    ensures MeterGood(ss[i].d, |content|)
  {
    hide Inv, MeterGood;
    RunInv(ss, acts, content, login, i);
    StateMeter(ss[i], content, login);
  }

  lemma {:induction false} StateMeter(s: Session, content: X.Content, login: Frame)
    requires Inv(s, content, login) && s.sends > 0 && !s.struck
    ensures MeterGood(s.d, |content|)
  {
    hide Base, P.PipeInv, X.UnderWay, X.ServerGood, Meter.View, Files;
    var k := X.Got(Abs(s));
    assert k <= |content| / 1024 + 1;
    assert Meter.Counted(|content|, k) == X.From(content, k);
    Meter.Bounds(|content|, k);
  }
}
