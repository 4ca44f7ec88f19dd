/**
 The server's send window has two producers, the command thread and the video stream thread. Each
 appends under send_buff_mutex. Here an append is not atomic: the frame is copied piece by piece
 into the window's memory and only then published, so that without the lock the copies of the two
 threads would mix.
 */
module Producers {
  import opened NetProtocol
  import opened Framing
  import opened Pipe

  datatype Producer = Command | Video

  datatype Mutex = Free | Held(owner: Producer)

  datatype Progress = Idle | Waiting(f: Frame) | Copying(f: Frame, n: nat)

  datatype State = State(
    pipe: Pipe,
    mutex: Mutex,             // send_buff_mutex
    command: Progress,
    video: Progress,
    staging: seq<byte>,       // the window's memory behind the last published frame
    commandFrames: seq<Frame>,
    videoFrames: seq<Frame>,  // histories: the frames each thread has finished appending
    order: seq<Producer>)     // history: whose append was published when

  datatype Action =
    | Build(who: Producer, f: Frame)
    | Lock(who: Producer)
    | Copy(who: Producer, k: nat)
    | Publish(who: Producer)
    | Network(step: Step)
    | Consume

  function At(s: State, who: Producer): Progress {
    match who case Command => s.command case Video => s.video
  }

  function SetAt(s: State, who: Producer, p: Progress): State {
    match who case Command => s.(command := p) case Video => s.(video := p)
  }

  function Note(s: State, who: Producer, f: Frame): State {
    match who
    case Command => s.(commandFrames := s.commandFrames + [f], order := s.order + [who])
    case Video => s.(videoFrames := s.videoFrames + [f], order := s.order + [who])
  }

  predicate CanDo(s: State, a: Action) {
    match a
    case Build(who, f) => At(s, who).Idle? && WellFormed(f)
    case Lock(who) => At(s, who).Waiting? && s.mutex == Free
    case Copy(who, k) => At(s, who).Copying? && At(s, who).n + k <= |At(s, who).f|
    case Publish(who) => At(s, who).Copying? && At(s, who).n == |At(s, who).f|
    case Network(step) => CanStep(s.pipe, step)
    case Consume => s.pipe.recvWin != []
  }

  function Do(s: State, a: Action): State
    requires CanDo(s, a)
  {
    match a
    case Build(who, f) => SetAt(s, who, Waiting(f))
    case Lock(who) => SetAt(s, who, Copying(At(s, who).f, 0)).(mutex := Held(who))
    case Copy(who, k) =>
      var p := At(s, who);
      SetAt(s, who, Copying(p.f, p.n + k)).(staging := s.staging + p.f[p.n..p.n + k])
    case Publish(who) =>
      Note(SetAt(s, who, Idle), who, At(s, who).f)
        .(pipe := Append(s.pipe, s.staging), staging := [], mutex := Free)
    case Network(step) => s.(pipe := DoStep(s.pipe, step))
    case Consume => s.(pipe := Dispatch(s.pipe))
  }

  const START := State(Fresh([]), Free, Idle, Idle, [], [], [], [])

  // The frames of one producer, out of the publication order.
  function Of(who: Producer, order: seq<Producer>, frames: seq<Frame>): seq<Frame>
    requires |order| == |frames|
  {
    if order == [] then []
    else
      var rest := Of(who, order[..|order| - 1], frames[..|frames| - 1]);
      if order[|order| - 1] == who then rest + [frames[|frames| - 1]] else rest
  }

  lemma {:induction false} OfAppend(who: Producer, order: seq<Producer>, frames: seq<Frame>, last: Producer, f: Frame)
    requires |order| == |frames|
    ensures Of(who, order + [last], frames + [f]) == Of(who, order, frames) + if last == who then [f] else []
  {
    assert (order + [last])[..|order|] == order && (frames + [f])[..|frames|] == frames;
  }

  // A thread that copies holds the lock, and memory then holds just what it has copied so far.
  ghost predicate Local(s: State, who: Producer) {
    var p := At(s, who);
    && (s.mutex == Held(who) <==> p.Copying?)
    && (p.Copying? ==> p.n <= |p.f| && s.staging == p.f[..p.n])
    && (!p.Idle? ==> WellFormed(p.f))
  }

  ghost predicate Interleaved(s: State) {
    && |s.order| == |s.pipe.appended|
    && Of(Command, s.order, s.pipe.appended) == s.commandFrames
    && Of(Video, s.order, s.pipe.appended) == s.videoFrames
  }

  ghost predicate Inv(s: State) {
    && PipeInv(s.pipe)
    && (s.mutex == Free ==> s.staging == [])
    && Local(s, Command) && Local(s, Video)
    && Interleaved(s)
  }

  lemma {:induction false} StepKeepsInv(s: State, a: Action)
    requires Inv(s) && CanDo(s, a)
    ensures Inv(Do(s, a))
  {
    match a {
      case Build(_, _) =>
        EnterKeeps(s, a);
      case Lock(_) =>
        EnterKeeps(s, a);
      case Copy(who, k) =>
        CopyKeeps(s, who, k);
      case Publish(who) =>
        PublishKeeps(s, who);
      case Network(step) =>
        NetworkKeeps(s, a, DoStep(s.pipe, step));
      case Consume =>
        NetworkKeeps(s, a, Dispatch(s.pipe));
    }
  }

  lemma {:induction false} EnterKeeps(s: State, a: Action)
    requires Inv(s) && CanDo(s, a) && (a.Build? || a.Lock?)
    ensures Inv(Do(s, a))
  {
    hide PipeInv, WellFormed, Of;
  }

  lemma {:induction false} NetworkKeeps(s: State, a: Action, p: Pipe)
    requires Inv(s) && CanDo(s, a)
    requires (a.Network? && p == DoStep(s.pipe, a.step)) || (a.Consume? && p == Dispatch(s.pipe))
    ensures Inv(Do(s, a))
  {
    hide PipeInv, CanStep, DoStep, Of, WellFormed;
    if a.Network? {
      StepKeepsHistory(s.pipe, a.step);
      StepKeeps(s.pipe, a.step);
    } else {
      DispatchKeeps(s.pipe);
    }
    assert Do(s, a) == s.(pipe := p) && p.appended == s.pipe.appended;
  }

  lemma StepKeepsHistory(p: Pipe, step: Step)
    requires CanStep(p, step)
    ensures DoStep(p, step).appended == p.appended
  {
  }

  lemma {:induction false} CopyKeeps(s: State, who: Producer, k: nat)
    requires Inv(s) && CanDo(s, Copy(who, k))
    ensures Inv(Do(s, Copy(who, k)))
  {
    hide PipeInv, WellFormed, Of;
    var p := At(s, who);
    assert p.f[..p.n] + p.f[p.n..p.n + k] == p.f[..p.n + k];
  }

  // What is published is the frame its producer built, whole and unmixed.
  lemma {:induction false} PublishKeeps(s: State, who: Producer)
    requires Inv(s) && CanDo(s, Publish(who))
    ensures s.staging == At(s, who).f
    ensures Inv(Do(s, Publish(who)))
  {
    var f := At(s, who).f;
    var t := Do(s, Publish(who));
    assert f[..|f|] == f;
    AppendKeeps(s.pipe, f);
    OfAppend(Command, s.order, s.pipe.appended, who, f);
    OfAppend(Video, s.order, s.pipe.appended, who, f);
  }

  predicate StepAt(ss: seq<State>, acts: seq<Action>, i: nat)
    requires i < |acts| && |ss| == |acts| + 1
  {
    CanDo(ss[i], acts[i]) && ss[i + 1] == Do(ss[i], acts[i])
  }

  ghost predicate IsRun(ss: seq<State>, acts: seq<Action>) {
    && |ss| == |acts| + 1
    && ss[0] == START
    && forall i :: 0 <= i < |acts| ==> StepAt(ss, acts, i)
  }

  lemma {:induction false} RunInv(ss: seq<State>, acts: seq<Action>, i: nat)
    requires IsRun(ss, acts) && i < |ss|
    ensures Inv(ss[i])
  {
    if i == 0 {
      FreshInv([]);
    } else {
      RunInv(ss, acts, i - 1);
      assert StepAt(ss, acts, i - 1);
      StepKeepsInv(ss[i - 1], acts[i - 1]);
    }
  }

  // In every reachable state the bytes that have reached the wire are a beginning of the
  // concatenation of whole frames, and those frames are an interleaving of what the two threads
  // appended, each thread's in its own order.
  lemma {:induction false} NoTearing(ss: seq<State>, acts: seq<Action>, i: nat)
    requires IsRun(ss, acts) && i < |ss|
    ensures var (s, p) := (ss[i], ss[i].pipe);
            && Flatten(p.dispatched + p.recvWin) + p.rx + p.wire <= Flatten(p.appended)
            && AllWellFormed(p.appended)
            && |s.order| == |p.appended|
            && Of(Command, s.order, p.appended) == s.commandFrames
            && Of(Video, s.order, p.appended) == s.videoFrames
  {
    RunInv(ss, acts, i);
    WireOrder(ss[i].pipe);
  }
}
