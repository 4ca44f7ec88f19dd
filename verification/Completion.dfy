/**
 Liveness of the file download. Under weak fairness of the six threads that carry it, and as long as
 no send or recv fails, a transfer that was begun ends, however much other traffic shares the
 connection; and no thread ever meets a frame that it cannot handle.
 */
module Completion {
  import opened Wrappers
  import opened NetProtocol
  import opened Framing
  import opened AntProtocol
  import opened FileClient
  import opened Session
  import opened Answerability
  import P = Pipe
  import D = Dispatch
  import TcpServer
  import X = Exchange
  import Meter

  /* Threads */

  datatype Thread =
    | ServerLogin | ClientSender | ServerReceiver | ServerCommand | ServerSender | ClientReceiver | ClientDispatcher
    | Other

  function ThreadOf(a: Action): Thread {
    match a
    case C2S(step) => if P.RoleOf(step) == P.Sender then ClientSender else ServerReceiver
    case S2C(step) => if P.RoleOf(step) == P.Sender then ServerSender else ClientReceiver
    case Login(_) => ServerLogin
    case Reject(_) => ServerLogin
    case Serve(_, _, _) => ServerCommand
    case Emit => ServerCommand
    case Dispatch(_) => ClientDispatcher
    case DispatchStray(_) => ClientDispatcher
    case ReadFail(_) => ClientReceiver
    case _ => Other
  }

  predicate Failing(a: Action) {
    a.ReadFail? || ((a.C2S? || a.S2C?) && P.Failure(a.step))
  }

  // A LOGOUT command: its acknowledgement makes the application close the client (test_client.c:24-31).
  predicate LogsOut(a: Action) {
    a.Say? && HEAD_SIZE <= |a.f| && TypeOf(a.f) == TYPE_CTRL && SubOf(a.f) == CTRL_LOGOUT
  }

  ghost predicate Able(s: Session, th: Thread, content: X.Content) {
    exists a :: ThreadOf(a) == th && !Failing(a) && CanDo(s, a, content)
  }

  // No send or recv has failed, and login has not been refused.
  predicate Alive(s: Session) {
    && !s.c2s.sendDead && !s.c2s.recvDead && !s.s2c.sendDead && !s.s2c.recvDead
    && s.stray == [] && !s.struck && !s.rejected
  }

  predicate Running(s: Session) {
    s.sends > 0 && s.d.isOpen
  }

  /* How far the transfer is from its end */

  function LastFile(fs: seq<Frame>): int
    ensures -1 <= LastFile(fs) < |fs|
  {
    if fs == [] then -1
    else if IsFile(fs[|fs| - 1]) then |fs| - 1
    else LastFile(fs[..|fs| - 1])
  }

  lemma {:induction false} LastFileAppend(fs: seq<Frame>, f: Frame)
    ensures LastFile(fs + [f]) == if IsFile(f) then |fs| else LastFile(fs)
  {
    hide IsFile;
    assert (fs + [f])[..|fs|] == fs;
  }

  // A frame of the transfer that is still on its way is behind the frames dispatched.
  lemma {:induction false} LastFileQueued(fs: seq<Frame>, n: nat)
    requires n <= |fs| && Files(fs[n..]) != []
    ensures n <= LastFile(fs)
  {
    hide IsFile;
    if n < |fs| {
      var m := |fs| - 1;
      if !IsFile(fs[m]) {
        assert fs[n..][..|fs[n..]| - 1] == fs[..m][n..];
        LastFileQueued(fs[..m], n);
      }
    }
  }

  function WorkTo(p: P.Pipe): nat {
    var t := LastFile(p.appended);
    if 0 <= t && P.Delivered(p) <= P.Taken(p) then P.Work(p, t) else 0
  }

  datatype Rank = Rank(left: nat, stage: nat, work: nat, box: nat)

  predicate Lower(a: Rank, b: Rank) {
    || a.left < b.left
    || (a.left == b.left && (a.stage < b.stage
        || (a.stage == b.stage && (a.work < b.work || (a.work == b.work && a.box < b.box)))))
  }

  // How much of the login frame has yet to reach the wire.
  function LoginWork(p: P.Pipe): nat {
    P.Left(1, P.Taken(p)) + P.Left(TcpServer.LOGIN_SIZE, |p.wire|)
  }

  // A chunk is under way: held up before login, as a request, as an answer not yet in the send
  // window, or as an answer in the pipe to the client.
  predicate AsRequest(s: Session, content: X.Content) {
    s.file == NoFile || (s.sends > 0 && s.file == Open(content, CHUNK * (s.sends - 1)))
  }

  function Stage(s: Session, content: X.Content): (n: nat)
    ensures n <= 3
  {
    if !s.loggedIn then 3 else if AsRequest(s, content) then 2 else if Files(s.outbox) != [] then 1 else 0
  }

  function RankOf(s: Session, content: X.Content): Rank {
    var n := |content| / CHUNK + 1;
    var stage := Stage(s, content);
    Rank(if s.sends <= n then n - s.sends else 0, stage,
         if stage == 3 then LoginWork(s.c2s) else if stage == 2 then WorkTo(s.c2s)
         else if stage == 0 then WorkTo(s.s2c) else 0,
         if stage == 0 then 0 else |s.outbox|)
  }

  // The thread whose next step brings the end nearer.
  function Helpful(s: Session, content: X.Content): (th: Thread)
    ensures th != Other
  {
    match Stage(s, content)
    case 3 => if |s.c2s.wire| >= TcpServer.LOGIN_SIZE then ServerLogin else ClientSender
    case 2 =>
      (match P.Due(s.c2s)
       case Sender => ClientSender
       case Receiver => ServerReceiver
       case Dispatcher => ServerCommand)
    case 1 => ServerCommand
    case _ =>
      (match P.Due(s.s2c)
       case Sender => ServerSender
       case Receiver => ClientReceiver
       case Dispatcher => ClientDispatcher)
  }

  // What one step does: it ends the transfer, or brings the end nearer, or leaves everything as it
  // was for the helpful thread.
  ghost predicate Progress(s: Session, a: Action, t: Session, content: X.Content) {
    || !Running(t)
    || Lower(RankOf(t, content), RankOf(s, content))
    || (RankOf(t, content) == RankOf(s, content) && Helpful(t, content) == Helpful(s, content)
        && ThreadOf(a) != Helpful(s, content))
  }

  lemma {:induction false} StepTo(p: P.Pipe, step: P.Step)
    requires P.PipeInv(p) && P.CanStep(p, step) && !P.Failure(step) && !p.sendDead && !p.recvDead
    requires |p.dispatched| <= LastFile(p.appended)
    ensures var q := P.DoStep(p, step);
            && WorkTo(q) <= WorkTo(p)
            && (P.RoleOf(step) == P.Due(p) ==> WorkTo(q) < WorkTo(p))
            && (P.RoleOf(step) != P.Due(p) ==> P.Due(q) == P.Due(p))
  {
    hide P.Work, P.Due;
    P.StepWork(p, step, LastFile(p.appended));
    assert P.DoStep(p, step).appended == p.appended;
  }

  lemma {:induction false} AppendTo(p: P.Pipe, f: Frame)
    requires P.PipeInv(p) && WellFormed(f) && !IsFile(f)
    ensures WorkTo(P.Append(p, f)) == WorkTo(p) && P.Due(P.Append(p, f)) == P.Due(p)
  {
    hide P.Work, IsFile, WellFormed;
    LastFileAppend(p.appended, f);
    var t := LastFile(p.appended);
    if t >= 0 {
      P.AppendWork(p, f, t);
    }
  }

  lemma {:induction false} DispatchTo(p: P.Pipe)
    requires P.PipeInv(p) && p.recvWin != [] && |p.dispatched| <= LastFile(p.appended)
    ensures WorkTo(P.Dispatch(p)) < WorkTo(p)
  {
    hide P.Work;
    P.DispatchWork(p, LastFile(p.appended));
  }

  // Where the chunk is while the transfer runs.
  lemma {:induction false} Whereabouts(s: Session, content: X.Content, login: Frame)
    requires Inv(s, content, login) && Running(s) && Alive(s)
    ensures s.asked && s.sends <= |content| / CHUNK + 1 && P.PipeInv(s.c2s) && P.PipeInv(s.s2c)
    ensures |s.c2s.dispatched| <= |s.c2s.appended|
    ensures Stage(s, content) == 2 ==> |s.c2s.dispatched| <= LastFile(s.c2s.appended)
    ensures Stage(s, content) < 2 ==> Files(P.Queue(s.c2s)) == []
    ensures Stage(s, content) == 0 ==> |s.s2c.dispatched| <= LastFile(s.s2c.appended)
  {
    hide Base, P.PipeInv, IsFile, Files, X.StartAck, X.SendAck, StartRequest, SendRequest, Meter.View, X.Chunk;
    var x := Abs(s);
    PipeBounds(s.c2s);
    PipeBounds(s.s2c);
    FilesAppend(P.Queue(s.s2c), s.outbox);
    assert AsRequest(s, content) <==> X.ChunkAsked(x, content);
    assert !X.ChunkAsked(x, content) ==> s.file != NoFile && |x.acks| > 0;
    if X.ChunkAsked(x, content) {
      assert x.reqs != [];
      LastFileQueued(s.c2s.appended, |s.c2s.dispatched|);
    } else if Files(s.outbox) == [] {
      LastFileQueued(s.s2c.appended, |s.s2c.dispatched|);
    }
  }

  // Before login nothing has been received, so what was taken out of the window is on the wire or
  // about to be sent, the login frame first.
  lemma {:induction false} BeforeLogin(s: Session, content: X.Content, login: Frame)
    requires Inv(s, content, login) && !s.loggedIn && !s.rejected
    ensures P.Taken(s.c2s) >= 0 && s.outbox == []
    ensures P.Taken(s.c2s) == 0 ==> s.c2s.out == [] && s.c2s.wire == [] && s.c2s.sendWin != []
    ensures P.Taken(s.c2s) > 0 ==> |s.c2s.wire| + |s.c2s.out| >= TcpServer.LOGIN_SIZE
    ensures |s.c2s.wire| >= TcpServer.LOGIN_SIZE ==> s.c2s.wire[..TcpServer.LOGIN_SIZE] == login
  {
    hide X.Inv, AllSized, AllSent, Discipline, Interleaved, HeadPkg, P.Queue, WellFormed, D.Sized, IsFile;
    var p, mid := s.c2s, P.Between(s.c2s);
    assert p.rx + (p.wire + p.out) == p.wire + p.out;
    if mid != [] {
      assert mid[0] == login && |Flatten(mid)| >= |login|;
    }
    if |p.wire| >= TcpServer.LOGIN_SIZE {
      LoginReadKeeps(p, login);
    }
  }

  lemma {:induction false} LoginStep(s: Session, step: P.Step, content: X.Content, login: Frame)
    requires Inv(s, content, login) && Alive(s) && !s.loggedIn && CanDo(s, C2S(step), content) && !P.Failure(step)
    ensures var q := P.DoStep(s.c2s, step);
            if |s.c2s.wire| < TcpServer.LOGIN_SIZE then LoginWork(q) < LoginWork(s.c2s)
            else LoginWork(q) == LoginWork(s.c2s) && |q.wire| >= TcpServer.LOGIN_SIZE
  {
    hide Inv, Need, Complete, D.Answers, StartRequest, SendRequest;
    BeforeLogin(s, content, login);
  }

  // What the client sends is a login with what the server compares with.
  predicate Credentials(login: Frame) {
    && IsPacket(login, TYPE_CTRL, CTRL_LOGIN, TcpServer.LOGIN_SIZE)
    && TcpServer.CStringEquals(login[40..56], TcpServer.ADMIN)
    && TcpServer.CStringEquals(login[56..72], TcpServer.PASSWD)
  }

  lemma CredentialsAccepted(login: Frame)
    requires Credentials(login)
    ensures |login| == TcpServer.LOGIN_SIZE && TcpServer.LoginAccepts(login)
  {
    hide HeadPkg, TcpServer.CStringEquals;
    PacketDecodes(login, TYPE_CTRL, CTRL_LOGIN, |login|);
  }

  /* Every step */

  // Such a login is not refused, and there is nothing left of a failed READ.
  lemma {:induction false} StepExcludes(s: Session, a: Action, t: Session, content: X.Content, login: Frame)
    requires Inv(s, content, login) && Credentials(login) && Alive(s) && IsStep(s, a, t, content)
    ensures !a.Reject? && !a.DispatchStray?
  {
    hide Inv, Credentials, TcpServer.LoginAccepts, TcpServer.IsLoginAck, D.Answers, D.Sized, StartRequest, SendRequest;
    if a.Reject? {
      LoginPipes(s, a.ack, content, login);
      CredentialsAccepted(login);
    }
  }

  lemma {:induction false} StepAlive(s: Session, a: Action, t: Session, content: X.Content, login: Frame)
    requires Inv(s, content, login) && Credentials(login) && Alive(s) && IsStep(s, a, t, content) && !Failing(a)
    ensures Alive(t) && s.sends <= t.sends
  {
    hide Inv, Credentials, CanDo, P.DoStep, X.Taken, P.Failure;
    StepExcludes(s, a, t, content, login);
    match a {
      case C2S(_) => PipeAlive(s, a, t, content);
      case S2C(_) => PipeAlive(s, a, t, content);
      case Begin(_) => FirstChunk(s, a, t, content);
      case ReadFail(_) => assert false;
      case _ =>
    }
  }

  lemma {:induction false} FirstChunk(s: Session, a: Action, t: Session, content: X.Content)
    requires IsStep(s, a, t, content) && a.Begin?
    ensures s.sends == 0 && t.sends == 1
  {
  }

  lemma {:induction false} PipeAlive(s: Session, a: Action, t: Session, content: X.Content)
    requires Alive(s) && IsStep(s, a, t, content) && !Failing(a) && (a.C2S? || a.S2C?)
    ensures Alive(t) && s.sends == t.sends
  {
    hide Need, Complete;
  }

  lemma {:induction false} PipeProgress(s: Session, a: Action, t: Session, content: X.Content, login: Frame)
    requires Inv(s, content, login) && Running(s) && Alive(s) && IsStep(s, a, t, content) && !Failing(a)
    requires a.C2S? || a.S2C?
    ensures Progress(s, a, t, content)
  {
    hide Base, X.Inv, P.PipeInv, P.Queue, P.Due, WorkTo, Files, LastFile;
    Whereabouts(s, content, login);
    var stage := Stage(s, content);
    assert Stage(t, content) == stage;
    if a.C2S? && stage == 3 {
      LoginStep(s, a.step, content, login);
    } else if a.C2S? && stage == 2 {
      StepTo(s.c2s, a.step);
    } else if a.S2C? && stage == 0 {
      StepTo(s.s2c, a.step);
    }
  }

  // The client's threads append commands that are not of the transfer, and login takes place.
  lemma {:induction false} SayProgress(s: Session, a: Action, t: Session, content: X.Content, login: Frame)
    requires Inv(s, content, login) && Running(s) && Alive(s) && IsStep(s, a, t, content)
    requires a.Say? || a.Ask? || a.Begin? || a.Login?
    ensures Progress(s, a, t, content)
  {
    hide Base, X.Inv, P.PipeInv, P.Queue, P.Due, WorkTo, Files, LastFile, IsFile, StartRequest, SendRequest, D.Sized;
    Whereabouts(s, content, login);
    if a.Say? {
      SizedIsWellFormed(a.f);
      AppendTo(s.c2s, a.f);
      assert Stage(t, content) == Stage(s, content);
    }
  }

  lemma {:induction false} StreamProgress(s: Session, a: Action, t: Session, content: X.Content, login: Frame)
    requires Inv(s, content, login) && Running(s) && Alive(s) && IsStep(s, a, t, content) && a.Stream?
    ensures Progress(s, a, t, content)
  {
    hide Base, X.Inv, P.PipeInv, P.Queue, P.Due, WorkTo, Files, LastFile, IsFile, StreamPacket;
    Whereabouts(s, content, login);
    StreamNotFile(a.f, a.frameType, a.data);
    AppendTo(s.s2c, a.f);
    assert Stage(t, content) == Stage(s, content);
  }

  lemma {:induction false} EmitProgress(s: Session, a: Action, t: Session, content: X.Content, login: Frame)
    requires Inv(s, content, login) && Running(s) && Alive(s) && IsStep(s, a, t, content) && a.Emit?
    ensures Progress(s, a, t, content)
  {
    hide X.Inv, P.PipeInv, P.Queue, P.Due, WorkTo, Files, LastFile, IsFile, Base, ClientDispatch.Sent;
    Whereabouts(s, content, login);
    EmitBase(s, login);
    var o := s.outbox[0];
    SentIsWellFormed(o);
    FilesFront(s.outbox);
    if Stage(s, content) == 0 {
      AppendTo(s.s2c, o);
    }
  }

  lemma {:induction false} ServeProgress(s: Session, a: Action, t: Session, content: X.Content, login: Frame)
    requires Inv(s, content, login) && Running(s) && Alive(s) && IsStep(s, a, t, content) && a.Serve?
    ensures Progress(s, a, t, content)
  {
    hide X.Inv, P.PipeInv, P.Queue, P.Due, WorkTo, Files, LastFile, IsFile, Base, D.Answers, D.AnswersMatch, D.Sized,
      TypeOf, SubOf;
    Whereabouts(s, content, login);
    var f := s.c2s.recvWin[0];
    ServedFiles(f, a.env, s.file, a.after, a.resp);
    if Stage(s, content) == 2 {
      DispatchTo(s.c2s);
    } else {
      P.DispatchKeeps(s.c2s);
      FilesFront(P.Queue(s.c2s));
      assert !IsFile(f);
    }
  }

  // A chunk that is taken is followed by the next request, or it was the last.
  lemma {:induction false} AfterTaking(d: Download, ack: Frame, reply: seq<Frame>)
    requires X.Replies(d, ack, reply) && X.Taken(d, ack).isOpen && d.isOpen
    ensures reply == [] || |reply| == 1
  {
    hide TypeOf, SubOf, SendRequest;
  }

  lemma {:induction false} DispatchProgress(s: Session, a: Action, t: Session, content: X.Content, login: Frame)
    requires Inv(s, content, login) && Inv(t, content, login) && Alive(t)
    requires Running(s) && Alive(s) && IsStep(s, a, t, content) && a.Dispatch?
    ensures Progress(s, a, t, content)
  {
    hide X.Inv, P.PipeInv, P.Queue, P.Due, WorkTo, Files, LastFile, IsFile, Base, X.Taken, X.Replies;
    Whereabouts(s, content, login);
    if Running(t) {
      Whereabouts(t, content, login);
      AfterTaking(s.d, s.s2c.recvWin[0], a.reply);
      if a.reply == [] {
        assert t.c2s.appended == s.c2s.appended && t.c2s.sendWin == s.c2s.sendWin;
        assert t.c2s == s.c2s;
        if Stage(s, content) == 0 {
          DispatchTo(s.s2c);
        }
      }
    }
  }

  lemma {:induction false} StepProgress(s: Session, a: Action, t: Session, content: X.Content, login: Frame)
    requires Inv(s, content, login) && Inv(t, content, login) && Credentials(login)
    requires Running(s) && Alive(s) && IsStep(s, a, t, content) && !Failing(a)
    ensures Progress(s, a, t, content)
  {
    hide Inv, IsStep, Progress, Running, Alive, Credentials;
    StepAlive(s, a, t, content, login);
    StepExcludes(s, a, t, content, login);
    match a {
      case C2S(_) => PipeProgress(s, a, t, content, login);
      case S2C(_) => PipeProgress(s, a, t, content, login);
      case Serve(_, _, _) => ServeProgress(s, a, t, content, login);
      case Emit => EmitProgress(s, a, t, content, login);
      case Stream(_, _, _) => StreamProgress(s, a, t, content, login);
      case Dispatch(_) => DispatchProgress(s, a, t, content, login);
      case Reject(_) => assert false;
      case DispatchStray(_) => assert false;
      case ReadFail(_) => assert false;
      case _ => SayProgress(s, a, t, content, login);
    }
  }

  /* The helpful thread can always move */

  // Whatever else is in the server's file system.
  lemma {:induction false} ServeEnabled(s: Session, env: D.Env, content: X.Content, login: Frame) returns (a: Action)
    requires Inv(s, content, login) && s.loggedIn && s.c2s.recvWin != [] && s.outbox == [] && !s.struck
    requires D.Sane(env) && env.found == Some(content)
    ensures a.Serve? && a.env == env && CanDo(s, a, content)
  {
    hide D.Answers, P.PipeInv, X.IsStart, X.IsSend, D.Sized, D.Sane, GoodFile, Inv;
    var f := s.c2s.recvWin[0];
    SizedInWindow(s, content, login);
    StateSafe(s, content, login);
    GoodServerFile(s, content, login);
    var after, resp := Answerable(f, env, s.file);
    a := Serve(env, after, resp);
  }

  lemma {:induction false} SizedInWindow(s: Session, content: X.Content, login: Frame)
    requires Inv(s, content, login) && s.c2s.recvWin != []
    ensures D.Sized(s.c2s.recvWin[0])
  {
    hide D.Sized, X.Inv, LoginOrder, AllSent, Discipline, Interleaved;
    P.Split(s.c2s);
    assert s.c2s.recvWin[0] == s.c2s.appended[|s.c2s.dispatched|];
  }

  lemma {:induction false} GoodServerFile(s: Session, content: X.Content, login: Frame)
    requires Inv(s, content, login) && !s.struck
    ensures GoodFile(s.file)
  {
    hide Base, P.PipeInv, X.IsSend, Files;
    X.InvSafe(Abs(s), content);
  }

  lemma {:induction false} PipeMoves(s: Session, content: X.Content)
    requires Alive(s) && s.loggedIn
    ensures DueMoves(s.c2s) && P.Due(s.c2s) != P.Dispatcher ==>
              var a := C2S(P.DueStep(s.c2s));
              && CanDo(s, a, content) && !Failing(a)
              && ThreadOf(a) == (if P.Due(s.c2s) == P.Sender then ClientSender else ServerReceiver)
    ensures DueMoves(s.s2c) && P.Due(s.s2c) != P.Dispatcher ==>
              var a := S2C(P.DueStep(s.s2c));
              && CanDo(s, a, content) && !Failing(a)
              && ThreadOf(a) == (if P.Due(s.s2c) == P.Sender then ServerSender else ClientReceiver)
  {
    hide P.Due, P.CanStep, P.DueStep, P.RoleOf;
  }

  lemma {:induction false} LoginMoves(s: Session, content: X.Content, login: Frame) returns (a: Action)
    requires Inv(s, content, login) && Alive(s) && !s.loggedIn && Credentials(login)
    ensures ThreadOf(a) == (if |s.c2s.wire| >= TcpServer.LOGIN_SIZE then ServerLogin else ClientSender)
    ensures !Failing(a) && CanDo(s, a, content)
  {
    hide Inv, HeadPkg, Credentials, TcpServer.LoginAccepts, Field16, StateReply;
    BeforeLogin(s, content, login);
    CredentialsAccepted(login);
    if |s.c2s.wire| >= TcpServer.LOGIN_SIZE {
      var ack := LoginAckExists(login);
      a := Login(ack);
    } else if s.c2s.out != [] {
      a := C2S(P.Send(1));
    } else {
      a := C2S(P.Dequeue);
    }
  }

  lemma {:induction false} HelpfulMoves(s: Session, env: D.Env, content: X.Content, login: Frame) returns (a: Action)
    requires Inv(s, content, login) && Running(s) && Alive(s) && Credentials(login)
    requires D.Sane(env) && env.found == Some(content)
    ensures ThreadOf(a) == Helpful(s, content) && !Failing(a) && CanDo(s, a, content) && (a.Serve? ==> a.env == env)
  {
    hide Inv, P.Due, P.CanStep, P.DueStep, P.RoleOf, P.Failure, X.Replies, D.Answers, Credentials,
      AsRequest, Files;
    var stage := Stage(s, content);
    if stage == 3 {
      a := LoginMoves(s, content, login);
      assert !a.Serve?;
      return;
    }
    Moving(s, content, login);
    PipeMoves(s, content);
    if stage == 2 && P.Due(s.c2s) != P.Dispatcher {
      a := C2S(P.DueStep(s.c2s));
    } else if stage == 2 || stage == 1 {
      if s.outbox != [] {
        a := Emit;
      } else {
        a := ServeEnabled(s, env, content, login);
      }
    } else if P.Due(s.s2c) != P.Dispatcher {
      a := S2C(P.DueStep(s.s2c));
    } else {
      var reply := ReplyExists(s.d, s.s2c.recvWin[0]);
      a := Dispatch(reply);
    }
  }

  // The pipe that carries the chunk is not stuck.
  lemma {:induction false} Moving(s: Session, content: X.Content, login: Frame)
    requires Inv(s, content, login) && Running(s) && Alive(s)
    ensures s.d.serial + 1 < 0x1_0000_0000
    ensures Stage(s, content) == 2 ==> DueMoves(s.c2s)
    ensures Stage(s, content) == 1 ==> s.outbox != []
    ensures Stage(s, content) == 0 ==> DueMoves(s.s2c)
  {
    hide Base, X.Inv, P.PipeInv, P.Due, IsFile, X.ChunkMoves, X.BytesUnderWay, X.IsSend, LastFile;
    Whereabouts(s, content, login);
    StateSafe(s, content, login);
    if Stage(s, content) == 2 {
      P.DueCanMove(s.c2s);
    } else if Stage(s, content) == 0 {
      P.DueCanMove(s.s2c);
    }
  }

  predicate DueMoves(p: P.Pipe) {
    if P.Due(p) == P.Dispatcher then p.recvWin != []
    else P.CanStep(p, P.DueStep(p)) && P.RoleOf(P.DueStep(p)) == P.Due(p) && !P.Failure(P.DueStep(p))
  }

  /* Infinite runs */

  ghost predicate StepAt(r: nat -> Session, act: nat -> Action, i: nat, content: X.Content) {
    IsStep(r(i), act(i), r(i + 1), content) && !Failing(act(i)) && !LogsOut(act(i))
  }

  // A run in which no send or recv fails and the client does not log out.
  ghost predicate IsBehaviour(r: nat -> Session, act: nat -> Action, content: X.Content, login: Frame) {
    && FirstPacket(login) && r(0) == Start(login)
    && forall i: nat :: StepAt(r, act, i, content)
  }

  ghost predicate Yields(r: nat -> Session, act: nat -> Action, th: Thread, content: X.Content, j: nat) {
    ThreadOf(act(j)) == th || !Able(r(j), th, content)
  }

  ghost predicate YieldsFrom(r: nat -> Session, act: nat -> Action, th: Thread, content: X.Content, i: nat) {
    exists j: nat :: i <= j && Yields(r, act, th, content, j)
  }

  // Weak fairness: a thread that can move and goes on being able to will move.
  ghost predicate Fair(r: nat -> Session, act: nat -> Action, th: Thread, content: X.Content) {
    forall i: nat :: YieldsFrom(r, act, th, content, i)
  }

  lemma StartAlive(login: Frame)
    ensures Alive(Start(login))
  {
  }

  lemma {:induction false} BehaviourInv(r: nat -> Session, act: nat -> Action, content: X.Content, login: Frame, i: nat)
    requires IsBehaviour(r, act, content, login) && Credentials(login)
    ensures Inv(r(i), content, login)
    ensures Alive(r(i))
  {
    hide Inv, IsStep, Failing, FirstPacket, Credentials, Alive, Start;
    if i == 0 {
      StartInv(content, login);
      StartAlive(login);
    } else {
      BehaviourInv(r, act, content, login, i - 1);
      assert StepAt(r, act, i - 1, content);
      StepKeeps(r(i - 1), act(i - 1), r(i), content, login);
      StepAlive(r(i - 1), act(i - 1), r(i), content, login);
    }
  }

  // By the time the helpful thread yields, the end has come nearer.
  lemma {:induction false} Nearer(r: nat -> Session, act: nat -> Action, content: X.Content, login: Frame, i: nat,
                                  j: nat)
    returns (k: nat)
    requires IsBehaviour(r, act, content, login) && Credentials(login) && Running(r(i))
    requires i <= j && Yields(r, act, Helpful(r(i), content), content, j)
    ensures i < k && r(k).sends > 0
    ensures !Running(r(k)) || Lower(RankOf(r(k), content), RankOf(r(i), content))
    decreases j - i
  {
    hide Inv, IsStep, Failing, Credentials, Able, Helpful, RankOf, Lower, Alive;
    var s, a, t := r(i), act(i), r(i + 1);
    assert StepAt(r, act, i, content);
    BehaviourInv(r, act, content, login, i);
    BehaviourInv(r, act, content, login, i + 1);
    StepProgress(s, a, t, content, login);
    StepAlive(s, a, t, content, login);
    k := i + 1;
    if Running(t) && !Lower(RankOf(t, content), RankOf(s, content)) {
      if i < j {
        k := Nearer(r, act, content, login, i + 1, j);
      } else {
        HelpfulIsAble(s, content, login);
      }
    }
  }

  lemma {:induction false} HelpfulIsAble(s: Session, content: X.Content, login: Frame)
    requires Inv(s, content, login) && Running(s) && Alive(s) && Credentials(login)
    ensures Able(s, Helpful(s, content), content)
  {
    hide Inv, Running, Alive, Helpful, CanDo, Failing, ThreadOf, Credentials;
    var a := HelpfulMoves(s, D.Env(false, Some(content), None), content, login);
  }

  lemma {:induction false} Ends(r: nat -> Session, act: nat -> Action, content: X.Content, login: Frame, i: nat)
    returns (k: nat)
    requires IsBehaviour(r, act, content, login) && Credentials(login) && Running(r(i))
    requires forall th :: th != Other ==> Fair(r, act, th, content)
    ensures i < k && r(k).sends > 0 && !Running(r(k))
    decreases RankOf(r(i), content).left, RankOf(r(i), content).stage,
              RankOf(r(i), content).work, RankOf(r(i), content).box
  {
    hide IsBehaviour, Yields, RankOf, Helpful, Credentials;
    var th := Helpful(r(i), content);
    assert Fair(r, act, th, content) && YieldsFrom(r, act, th, content, i);
    var j: nat :| i <= j && Yields(r, act, th, content, j);
    k := Nearer(r, act, content, login, i, j);
    if Running(r(k)) {
      k := Ends(r, act, content, login, k);
    }
  }

  // With a login that is accepted, a transfer that was begun completes: the client's file becomes the
  // server's.
  lemma {:induction false} DownloadTerminates(r: nat -> Session, act: nat -> Action, content: X.Content, login: Frame,
                                              i: nat)
    requires IsBehaviour(r, act, content, login) && Credentials(login) && Running(r(i))
    requires forall th :: th != Other ==> Fair(r, act, th, content)
    ensures exists k: nat :: i < k && r(k).sends == |content| / 1024 + 1 && !r(k).d.isOpen
                             && r(k).d.written == content && r(k).file == Closed
  {
    hide IsBehaviour, Fair, Inv, Credentials;
    var k := Ends(r, act, content, login, i);
    BehaviourInv(r, act, content, login, k);
    StateSafe(r(k), content, login);
  }
}
