/**
 Behaviours in which every thread is treated fairly exist: a scheduler that lets the threads take
 turns, each passing when it has nothing to do. What Completion says of all such behaviours is
 therefore said of some, for every file.
 */
module Scheduling {
  import opened NetProtocol
  import opened Framing
  import opened AntProtocol
  import opened FileClient
  import opened Session
  import opened Completion
  import opened Answerability
  import TcpServer
  import D = Dispatch
  import X = Exchange

  const THREADS: seq<Thread> := [
    ServerLogin, ClientSender, ServerReceiver, ServerCommand, ServerSender, ClientReceiver, ClientDispatcher]

  function Slot(th: Thread): (k: nat)
    requires th != Other
    ensures k < |THREADS| && THREADS[k] == th
  {
    match th
    case ServerLogin => 0
    case ClientSender => 1
    case ServerReceiver => 2
    case ServerCommand => 3
    case ServerSender => 4
    case ClientReceiver => 5
    case ClientDispatcher => 6
  }

  // The frames that the client sends of its own accord: the two that begin the transfer, and one to
  // pass the time.
  datatype Plan = Plan(start: Frame, first: Frame, idle: Frame)

  ghost predicate Good(plan: Plan) {
    && StartRequest(plan.start) && SendRequest(plan.first, 0)
    && D.Sized(plan.idle) && !IsFile(plan.idle) && !LogsOut(Say(plan.idle))
  }

  ghost function Step(s: Session, th: Thread, content: X.Content): (a: Action)
    requires Able(s, th, content)
    ensures ThreadOf(a) == th && !Failing(a) && CanDo(s, a, content)
  {
    var a :| ThreadOf(a) == th && !Failing(a) && CanDo(s, a, content);
    a
  }

  // The action of turn i.
  ghost function Turn(s: Session, plan: Plan, content: X.Content, i: nat): (a: Action)
    requires Good(plan)
    ensures CanDo(s, a, content) && !Failing(a) && !LogsOut(a)
  {
    var th := THREADS[i % |THREADS|];
    if !s.asked then Ask(plan.start)
    else if s.sends == 0 then Begin(plan.first)
    else if Able(s, th, content) then Step(s, th, content)
    else Say(plan.idle)
  }

  ghost function At(login: Frame, plan: Plan, content: X.Content, i: nat): Session
    requires Good(plan)
  {
    if i == 0 then Start(login)
    else
      var s := At(login, plan, content, i - 1);
      Do(s, Turn(s, plan, content, i - 1))
  }

  lemma PlanExists() returns (plan: Plan)
    ensures Good(plan)
  {
    hide HeadPkg, StartRequest, SendRequest;
    var start := StartRequestExists();
    var first := RequestExists(0);
    var idle := HeartReplyExists();
    PacketDecodes(idle, TYPE_CTRL, CTRL_HEART, |idle|);
    plan := Plan(start, first, idle);
  }

  lemma {:induction false} StaysBegun(s: Session, a: Action, content: X.Content)
    requires CanDo(s, a, content)
    ensures var t := Do(s, a);
            && (s.asked || a.Ask? ==> t.asked) && (s.sends > 0 || a.Begin? ==> t.sends > 0)
  {
    hide D.Answers, D.Sized, StartRequest, SendRequest, X.Taken, X.Replies, TcpServer.LoginAccepts,
      TcpServer.IsLoginAck;
  }

  lemma {:induction false} Begun(login: Frame, plan: Plan, content: X.Content, i: nat)
    requires Good(plan)
    ensures var s := At(login, plan, content, i);
            && (i >= 1 ==> s.asked) && (i >= 2 ==> s.sends > 0)
  {
    hide CanDo, Do, Able, Good;
    if i > 0 {
      Begun(login, plan, content, i - 1);
      var s := At(login, plan, content, i - 1);
      StaysBegun(s, Turn(s, plan, content, i - 1), content);
    }
  }

  // Every thread has its turn again and again once the transfer has begun.
  lemma {:induction false} TurnComes(r: nat -> Session, act: nat -> Action, login: Frame, plan: Plan,
                                     content: X.Content, th: Thread, i: nat)
    requires Good(plan) && th != Other
    requires forall j: nat :: r(j) == At(login, plan, content, j) && act(j) == Turn(r(j), plan, content, j)
    ensures YieldsFrom(r, act, th, content, i)
  {
    hide CanDo, Able, Good, At;
    var j := |THREADS| * (i + 1) + Slot(th);
    assert j % |THREADS| == Slot(th);
    Begun(login, plan, content, j);
    assert Yields(r, act, th, content, j);
  }

  lemma {:induction false} RunsAtTwo(login: Frame, plan: Plan, content: X.Content)
    requires Good(plan)
    ensures Running(At(login, plan, content, 2))
  {
    hide CanDo, Able, Good;
    var s := At(login, plan, content, 1);
    assert At(login, plan, content, 0) == Start(login);
    assert Turn(Start(login), plan, content, 0) == Ask(plan.start);
    assert s == Do(Start(login), Ask(plan.start));
    assert Turn(s, plan, content, 1) == Begin(plan.first);
  }

  // For every file and every login that is accepted there is a fair behaviour in which the transfer is
  // running after two steps.
  lemma {:induction false} FairBehaviour(content: X.Content, login: Frame)
    returns (r: nat -> Session, act: nat -> Action)
    requires Credentials(login)
    ensures IsBehaviour(r, act, content, login) && Running(r(2))
    ensures forall th :: th != Other ==> Fair(r, act, th, content)
  {
    var plan := PlanExists();
    r := (i: nat) => At(login, plan, content, i);
    act := (i: nat) => Turn(At(login, plan, content, i), plan, content, i);
    hide Good, CanDo, Do, Able, Credentials, IsPacket, Fair, Running;
    LoginFirstPacket(login);
    RunsAtTwo(login, plan, content);
    forall i: nat
      ensures Completion.StepAt(r, act, i, content)
    {
    }
    forall th | th != Other
      ensures Fair(r, act, th, content)
    {
      AlwaysFair(r, act, login, plan, content, th);
    }
  }

  lemma {:induction false} AlwaysFair(r: nat -> Session, act: nat -> Action, login: Frame, plan: Plan,
                                      content: X.Content, th: Thread)
    requires Good(plan) && th != Other
    requires forall j: nat :: r(j) == At(login, plan, content, j) && act(j) == Turn(r(j), plan, content, j)
    ensures Fair(r, act, th, content)
  {
    hide Good, CanDo, Able, YieldsFrom;
    forall i: nat
      ensures YieldsFrom(r, act, th, content, i)
    {
      TurnComes(r, act, login, plan, content, th, i);
    }
  }

  lemma {:induction false} LoginFirstPacket(login: Frame)
    requires Credentials(login)
    ensures FirstPacket(login)
  {
    assert IsPacket(login, TYPE_CTRL, CTRL_LOGIN, TcpServer.LOGIN_SIZE) && !InTransfer(TYPE_CTRL, CTRL_LOGIN);
  }

  lemma {:induction false} CredentialsExist() returns (login: Frame)
    ensures Credentials(login)
  {
    hide HeadPkg;
    var name := TcpServer.ADMIN + seq(10, _ => 0);
    var passwd := TcpServer.PASSWD + seq(9, _ => 0);
    login := Build(TYPE_CTRL, CTRL_LOGIN, name + passwd + [0, 0, 0, 0]);
    assert login[40..56] == login[HEAD_SIZE..][..16] == name;
    assert login[56..72] == login[HEAD_SIZE..][16..32] == passwd;
  }

  // A behaviour can take any steps of the session but failing ones and a logout, by number.
  lemma {:induction false} AnyOtherStep(r: nat -> Session, act: nat -> Action, i: nat, content: X.Content)
    requires IsStep(r(i), act(i), r(i + 1), content) && !act(i).ReadFail?
    requires act(i).C2S? || act(i).S2C? ==> !act(i).step.SendFail? && !act(i).step.RecvFail?
    requires act(i).Say? && |act(i).f| >= 40 ==> !(TypeOf(act(i).f) == 1 && SubOf(act(i).f) == 2)
    ensures Completion.StepAt(r, act, i, content)
  {
    hide IsStep;
  }

  // So every file can be transferred.
  lemma {:induction false} SomeDownloadEnds(content: X.Content)
    returns (login: Frame, r: nat -> Session, act: nat -> Action, k: nat)
    ensures IsBehaviour(r, act, content, login) && r(k).d.written == content && r(k).file == Closed
  {
    hide Credentials, IsBehaviour, Fair, Running;
    login := CredentialsExist();
    r, act := FairBehaviour(content, login);
    DownloadTerminates(r, act, content, login, 2);
    k :| r(k).d.written == content && r(k).file == Closed;
  }
}
