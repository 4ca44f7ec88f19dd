/**
 One direction of a session as a step system: producers append frames to a send window, a sender
 thread takes them out and pushes their bytes through partial sends, the network carries a byte
 stream, a receiver thread reassembles header and body through partial recvs into a receive
 window, and a dispatcher takes frames out. Steps interleave arbitrarily.
 */
module Pipe {
  import opened NetProtocol
  import opened Framing

  datatype Pipe = Pipe(
    appended: seq<Frame>,    // history: every frame ever appended to the send window
    sendWin: seq<Frame>,
    out: seq<byte>,          // what the sender took out of the window and has not passed to send
    wire: seq<byte>,         // accepted by send, not yet returned by recv
    rx: seq<byte>,           // what the receiver holds of the current frame
    recvWin: seq<Frame>,
    dispatched: seq<Frame>,  // history: every frame the dispatcher took
    sendDead: bool,          // a send failed; taken as permanent
    recvDead: bool)          // a recv failed; the receive thread has quit

  datatype Step = Dequeue | Send(k: nat) | SendFail | Recv(k: nat) | RecvFail | Deliver

  // A sender whose socket failed keeps taking frames out; their bytes stay in `out` for good.
  predicate CanStep(p: Pipe, a: Step) {
    match a
    case Dequeue => p.sendWin != [] && (p.out == [] || p.sendDead)
    case Send(k) => !p.sendDead && 1 <= k <= |p.out|
    case SendFail => !p.sendDead
    case Recv(k) => !p.recvDead && 1 <= k <= |p.wire| && k <= Need(p.rx)
    case RecvFail => !p.recvDead
    case Deliver => !p.recvDead && Complete(p.rx)
  }

  function DoStep(p: Pipe, a: Step): Pipe
    requires CanStep(p, a)
  {
    match a
    case Dequeue => p.(sendWin := p.sendWin[1..], out := p.out + p.sendWin[0])
    case Send(k) => p.(out := p.out[k..], wire := p.wire + p.out[..k])
    case SendFail => p.(sendDead := true)
    case Recv(k) => p.(wire := p.wire[k..], rx := p.rx + p.wire[..k])
    case RecvFail => p.(recvDead := true)
    case Deliver => p.(rx := [], recvWin := p.recvWin + [p.rx])
  }

  function Append(p: Pipe, f: Frame): Pipe {
    p.(appended := p.appended + [f], sendWin := p.sendWin + [f])
  }

  function Dispatch(p: Pipe): Pipe
    requires p.recvWin != []
  {
    p.(recvWin := p.recvWin[1..], dispatched := p.dispatched + [p.recvWin[0]])
  }

  // A fresh direction; the login exchange may already have carried `before` through.
  function Fresh(before: seq<Frame>): Pipe {
    Pipe(before, [], [], [], [], [], before, false, false)
  }

  /* The invariant */

  // How many frames have reached the receive window, and how many have left the send window.
  function Delivered(p: Pipe): nat {
    |p.dispatched| + |p.recvWin|
  }

  function Taken(p: Pipe): int {
    |p.appended| - |p.sendWin|
  }

  // The frames that are somewhere between the two windows.
  function Between(p: Pipe): seq<Frame>
    requires Delivered(p) <= Taken(p)
  {
    p.appended[Delivered(p)..Taken(p)]
  }

  ghost predicate PipeInv(p: Pipe) {
    && AllWellFormed(p.appended)
    && Delivered(p) <= Taken(p)
    && p.appended == p.dispatched + p.recvWin + Between(p) + p.sendWin
    && p.rx + (p.wire + p.out) == Flatten(Between(p))
    && 0 <= Need(p.rx)
  }

  // The abstract FIFO: what was appended and not yet dispatched.
  function Queue(p: Pipe): seq<Frame>
    requires |p.dispatched| <= |p.appended|
  {
    p.appended[|p.dispatched|..]
  }

  lemma {:induction false} FreshInv(before: seq<Frame>)
    requires AllWellFormed(before)
    ensures PipeInv(Fresh(before)) && Queue(Fresh(before)) == []
  {
    var p := Fresh(before);
    assert Between(p) == [];
    assert p.dispatched + [] + [] + [] == p.dispatched;
  }

  // Splitting the history at the two window boundaries.
  lemma {:induction false} Split(p: Pipe)
    requires PipeInv(p)
    ensures p.appended[..|p.dispatched|] == p.dispatched
    ensures p.appended[|p.dispatched|..Delivered(p)] == p.recvWin
    ensures p.appended[Taken(p)..] == p.sendWin
    ensures Queue(p) == p.recvWin + Between(p) + p.sendWin
  {
    var l, r := p.dispatched + p.recvWin, Between(p) + p.sendWin;
    assert p.appended == l + r;
  }

  lemma {:induction false} Join(p: Pipe)
    requires AllWellFormed(p.appended) && Delivered(p) <= Taken(p)
    requires p.appended[..|p.dispatched|] == p.dispatched
    requires p.appended[|p.dispatched|..Delivered(p)] == p.recvWin
    requires p.appended[Taken(p)..] == p.sendWin
    ensures p.appended == p.dispatched + p.recvWin + Between(p) + p.sendWin
  {
    var a, d, e := p.appended, |p.dispatched|, Delivered(p);
    assert a[..d] + a[d..e] == a[..e];
    assert a[..e] + a[e..Taken(p)] == a[..Taken(p)];
  }

  // Every internal step keeps the invariant and leaves the abstract FIFO as it is.
  lemma {:induction false} StepKeeps(p: Pipe, a: Step)
    requires PipeInv(p) && CanStep(p, a)
    ensures PipeInv(DoStep(p, a)) && Queue(DoStep(p, a)) == Queue(p)
  {
    hide LengthOf;
    var q := DoStep(p, a);
    Split(p);
    match a {
      case Dequeue =>
        DequeueKeeps(p);
      case Send(k) =>
        assert q.wire + q.out == p.wire + p.out;
      case SendFail =>
      case Recv(k) =>
        RecvKeeps(p, k);
      case RecvFail =>
      case Deliver =>
        DeliverKeeps(p);
    }
  }

  lemma {:induction false} DequeueKeeps(p: Pipe)
    requires PipeInv(p) && CanStep(p, Dequeue)
    ensures PipeInv(DoStep(p, Dequeue)) && Queue(DoStep(p, Dequeue)) == Queue(p)
  {
    hide LengthOf;
    var q := DoStep(p, Dequeue);
    var f := p.sendWin[0];
    Split(p);
    assert p.appended[Taken(p)] == f;
    assert Between(q) == Between(p) + [f];
    FlattenAppend(Between(p), [f]);
    FlattenOne(f);
    Assoc(p.wire, p.out, f);
    Assoc(p.rx, p.wire + p.out, f);
    Join(q);
  }

  lemma {:induction false} RecvKeeps(p: Pipe, k: nat)
    requires PipeInv(p) && CanStep(p, Recv(k))
    ensures PipeInv(DoStep(p, Recv(k)))
  {
    hide LengthOf;
    var q := DoStep(p, Recv(k));
    var rest := p.wire + p.out;
    assert rest[..k] == p.wire[..k];
    assert q.rx + (q.wire + q.out) == p.rx + rest;
    NotEmpty(Between(p));
    NeedAfter(Between(p), p.rx, rest, k);
  }

  // A complete frame is the first of those in between, and what follows it is the rest.
  lemma {:induction false} DeliverFront(p: Pipe)
    requires PipeInv(p) && Complete(p.rx)
    ensures Between(p) != [] && p.rx == Between(p)[0]
    ensures p.wire + p.out == Flatten(Between(p)[1..])
  {
    hide LengthOf;
    var mid := Between(p);
    NotEmpty(mid);
    ReaderAligned(mid, p.rx, p.wire + p.out);
    assert p.wire + p.out == Flatten(mid)[|p.rx|..];
  }

  lemma {:induction false} DeliverKeeps(p: Pipe)
    requires PipeInv(p) && CanStep(p, Deliver)
    ensures PipeInv(DoStep(p, Deliver)) && Queue(DoStep(p, Deliver)) == Queue(p)
    ensures Between(p) != [] && p.rx == Between(p)[0]
  {
    hide LengthOf, WellFormed;
    var q := DoStep(p, Deliver);
    Split(p);
    DeliverFront(p);
    assert p.rx == p.appended[Delivered(p)];
    assert Between(q) == Between(p)[1..];
    assert q.rx + (q.wire + q.out) == q.wire + q.out;
    Join(q);
  }

  lemma {:induction false} AppendKeeps(p: Pipe, f: Frame)
    requires PipeInv(p) && WellFormed(f)
    ensures PipeInv(Append(p, f)) && Queue(Append(p, f)) == Queue(p) + [f]
  {
    hide LengthOf;
    var q := Append(p, f);
    Split(p);
    assert Between(q) == Between(p);
    Join(q);
  }

  // The dispatcher always takes the frame at the front of the FIFO.
  lemma {:induction false} DispatchKeeps(p: Pipe)
    requires PipeInv(p) && p.recvWin != []
    ensures PipeInv(Dispatch(p))
    ensures Queue(p) != [] && p.recvWin[0] == Queue(p)[0] && Queue(Dispatch(p)) == Queue(p)[1..]
  {
    hide LengthOf;
    var q := Dispatch(p);
    Split(p);
    assert Delivered(q) == Delivered(p) && Between(q) == Between(p);
    assert q.appended[..|q.dispatched|] == q.dispatched;
    Join(q);
  }

  lemma {:induction false} BeginningOf(a: seq<byte>, b: seq<byte>, c: seq<byte>, d: seq<byte>, e: seq<byte>)
    ensures a + b + c <= (a + (b + (c + d))) + e
  {
    assert (a + (b + (c + d))) + e == (a + b + c) + (d + e);
  }

  // The bytes that have reached the wire are a beginning of the frames appended, in order.
  lemma {:induction false} WireOrder(p: Pipe)
    requires PipeInv(p)
    ensures Flatten(p.dispatched + p.recvWin) + p.rx + p.wire <= Flatten(p.appended)
  {
    hide LengthOf;
    var arrived := p.dispatched + p.recvWin;
    FlattenAppend(arrived + Between(p), p.sendWin);
    FlattenAppend(arrived, Between(p));
    BeginningOf(Flatten(arrived), p.rx, p.wire, p.out, Flatten(p.sendWin));
  }

  /* Whole runs */

  datatype Action = Produce(f: Frame) | Internal(step: Step) | Consume

  predicate CanDo(p: Pipe, a: Action) {
    match a
    case Produce(f) => WellFormed(f)
    case Internal(s) => CanStep(p, s)
    case Consume => p.recvWin != []
  }

  function Do(p: Pipe, a: Action): Pipe
    requires CanDo(p, a)
  {
    match a
    case Produce(f) => Append(p, f)
    case Internal(s) => DoStep(p, s)
    case Consume => Dispatch(p)
  }

  predicate StepAt(ps: seq<Pipe>, acts: seq<Action>, i: nat)
    requires i < |acts| && |ps| == |acts| + 1
  {
    CanDo(ps[i], acts[i]) && ps[i + 1] == Do(ps[i], acts[i])
  }

  ghost predicate IsRun(ps: seq<Pipe>, acts: seq<Action>) {
    && |ps| == |acts| + 1
    && ps[0] == Fresh([])
    && forall i :: 0 <= i < |acts| ==> StepAt(ps, acts, i)
  }

  function Produced(acts: seq<Action>): seq<Frame> {
    if acts == [] then []
    else
      var rest := Produced(acts[..|acts| - 1]);
      match acts[|acts| - 1] case Produce(f) => rest + [f] case _ => rest
  }

  // In every reachable state, under any interleaving and any send and recv sizes: the frames
  // dispatched, in the receive window, reassembled from the bytes in between, and in the send
  // window are exactly the frames appended, in order.
  lemma {:induction false} EndToEndFifo(ps: seq<Pipe>, acts: seq<Action>, i: nat)
    requires IsRun(ps, acts) && i < |ps|
    ensures PipeInv(ps[i])
    ensures exists mid ::
              && ps[i].dispatched + ps[i].recvWin + mid + ps[i].sendWin == Produced(acts[..i])
              && Flatten(mid) == ps[i].rx + (ps[i].wire + ps[i].out)
  {
    RunInv(ps, acts, i);
    var mid := Between(ps[i]);
    assert ps[i].dispatched + ps[i].recvWin + mid + ps[i].sendWin == Produced(acts[..i]);
  }

  lemma {:induction false} RunInv(ps: seq<Pipe>, acts: seq<Action>, i: nat)
    requires IsRun(ps, acts) && i < |ps|
    ensures PipeInv(ps[i]) && ps[i].appended == Produced(acts[..i])
  {
    if i == 0 {
      FreshInv([]);
    } else {
      RunInv(ps, acts, i - 1);
      var p, a := ps[i - 1], acts[i - 1];
      assert StepAt(ps, acts, i - 1);
      assert acts[..i][..i - 1] == acts[..i - 1];
      match a {
        case Produce(f) => AppendKeeps(p, f);
        case Internal(s) => StepKeeps(p, s);
        case Consume => DispatchKeeps(p);
      }
    }
  }

  // The refinement: the pipe is a FIFO of frames. Appending pushes, dispatching pops, and
  // everything else is invisible.
  lemma {:induction false} RefinesFifo(ps: seq<Pipe>, acts: seq<Action>, i: nat)
    requires IsRun(ps, acts) && i < |acts|
    ensures PipeInv(ps[i]) && PipeInv(ps[i + 1])
    ensures match acts[i]
            case Produce(f) => Queue(ps[i + 1]) == Queue(ps[i]) + [f]
            case Internal(_) => Queue(ps[i + 1]) == Queue(ps[i])
            case Consume => Queue(ps[i]) != [] && ps[i + 1].dispatched == ps[i].dispatched + [Queue(ps[i])[0]]
                            && Queue(ps[i + 1]) == Queue(ps[i])[1..]
  {
    RunInv(ps, acts, i);
    RunInv(ps, acts, i + 1);
    assert StepAt(ps, acts, i);
    match acts[i] {
      case Produce(f) => AppendKeeps(ps[i], f);
      case Internal(s) => StepKeeps(ps[i], s);
      case Consume => DispatchKeeps(ps[i]);
    }
  }

  // A recv that fails in mid-frame ends delivery: from then on the receive window only empties,
  // so no partial frame ever gets there.
  lemma {:induction false} FailedReceiverDeliversNothing(ps: seq<Pipe>, acts: seq<Action>, i: nat, j: nat)
    requires IsRun(ps, acts) && i <= j < |ps| && ps[i].recvDead
    ensures ps[j].recvDead && Delivered(ps[j]) == Delivered(ps[i])
    ensures AllWellFormed(ps[j].recvWin) && ps[j].dispatched + ps[j].recvWin <= Produced(acts[..j])
    decreases j
  {
    if i < j {
      FailedReceiverDeliversNothing(ps, acts, i, j - 1);
      assert StepAt(ps, acts, j - 1);
    }
    RunInv(ps, acts, j);
    Split(ps[j]);
    assert forall f :: f in ps[j].recvWin ==> f in ps[j].appended;
  }

  /* Progress */

  // Where the frame with index t of the history stands: how many of the five counters below
  // (frames taken, bytes sent, bytes received, frames delivered, frames dispatched) still have to
  // advance before it is dispatched. Appending behind it does not change this.
  function Bytes(p: Pipe, n: nat): nat
    requires n <= |p.appended|
  {
    |Flatten(p.appended[..n])|
  }

  function Received(p: Pipe): nat
    requires Delivered(p) <= |p.appended|
  {
    Bytes(p, Delivered(p)) + |p.rx|
  }

  function Sent(p: Pipe): nat
    requires Delivered(p) <= |p.appended|
  {
    Received(p) + |p.wire|
  }

  function Left(target: nat, now: int): nat {
    if now < target then target - now else 0
  }

  function Work(p: Pipe, t: nat): nat
    requires t < |p.appended| && Delivered(p) <= Taken(p)
  {
    Left(t + 1, Taken(p)) + Left(Bytes(p, t + 1), Sent(p)) + Left(Bytes(p, t + 1), Received(p))
    + Left(t + 1, Delivered(p)) + Left(t + 1, |p.dispatched|)
  }

  datatype Role = Sender | Receiver | Dispatcher

  function RoleOf(a: Step): Role {
    match a
    case Dequeue => Sender
    case Send(_) => Sender
    case SendFail => Sender
    case Recv(_) => Receiver
    case RecvFail => Receiver
    case Deliver => Receiver
  }

  // The thread that is due: the one closest to the far end that has something to do.
  function Due(p: Pipe): Role {
    if p.recvWin != [] then Dispatcher
    else if p.wire != [] || Complete(p.rx) then Receiver
    else Sender
  }

  lemma {:induction false} BytesStep(p: Pipe, n: nat)
    requires n < |p.appended|
    ensures Bytes(p, n + 1) == Bytes(p, n) + |p.appended[n]|
  {
    assert p.appended[..n + 1] == p.appended[..n] + [p.appended[n]];
    FlattenAppend(p.appended[..n], [p.appended[n]]);
    FlattenOne(p.appended[n]);
  }

  lemma {:induction false} BytesMonotone(p: Pipe, m: nat, n: nat)
    requires m <= n <= |p.appended|
    ensures Bytes(p, m) <= Bytes(p, n)
    ensures Bytes(p, n) == Bytes(p, m) + |Flatten(p.appended[m..n])|
  {
    assert p.appended[..n] == p.appended[..m] + p.appended[m..n];
    FlattenAppend(p.appended[..m], p.appended[m..n]);
  }

  predicate Failure(a: Step) {
    a == SendFail || a == RecvFail
  }

  // As long as the frame at hand is not complete, its end has not been received.
  lemma {:induction false} Unfinished(p: Pipe)
    requires PipeInv(p) && !Complete(p.rx)
    ensures Between(p) == [] ==> p.rx == [] && p.wire == [] && p.out == []
    ensures Between(p) != [] ==> Received(p) < Bytes(p, Delivered(p) + 1) && p.wire + p.out != []
  {
    hide LengthOf;
    var mid := Between(p);
    NotEmpty(mid);
    if mid != [] {
      ReaderAligned(mid, p.rx, p.wire + p.out);
      BytesStep(p, Delivered(p));
      assert mid[0] == p.appended[Delivered(p)];
      assert p.rx <= mid[0] && p.rx != mid[0];
    }
  }

  // The bytes sent and received are those of the frames taken, less what is in between.
  lemma {:induction false} Positions(p: Pipe, t: nat)
    requires PipeInv(p) && t < |p.appended|
    ensures Sent(p) + |p.out| == Bytes(p, Taken(p))
    ensures Delivered(p) <= t ==> Bytes(p, Delivered(p) + 1) <= Bytes(p, t + 1)
  {
    BytesMonotone(p, Delivered(p), Taken(p));
    if Delivered(p) <= t {
      BytesMonotone(p, Delivered(p) + 1, t + 1);
    }
  }

  // What a step of this pipe may do to the distance of frame t from being dispatched: never move it
  // back, move it forward if its thread was due, and otherwise leave the same thread due.
  ghost predicate Advances(p: Pipe, a: Step, t: nat)
    requires PipeInv(p) && CanStep(p, a) && PipeInv(DoStep(p, a))
    requires t < |p.appended|
  {
    var q := DoStep(p, a);
    && Work(q, t) <= Work(p, t)
    && (RoleOf(a) == Due(p) ==> Work(q, t) < Work(p, t))
    && (RoleOf(a) != Due(p) ==> Due(q) == Due(p))
  }

  lemma {:induction false} SenderWork(p: Pipe, a: Step, t: nat)
    requires PipeInv(p) && CanStep(p, a) && PipeInv(DoStep(p, a)) && |p.dispatched| <= t < |p.appended|
    requires !p.sendDead && (a.Dequeue? || a.Send?)
    ensures Advances(p, a, t)
  {
    hide LengthOf, Flatten, Need;
    var q := DoStep(p, a);
    assert Bytes(q, t + 1) == Bytes(p, t + 1) && Bytes(q, Delivered(q)) == Bytes(p, Delivered(p));
    if RoleOf(a) == Due(p) {
      Unfinished(p);
      Positions(p, t);
      assert Delivered(p) == |p.dispatched|;
      if a.Dequeue? {
        assert Taken(p) == Delivered(p);
        assert Work(q, t) == Work(p, t) - 1;
      } else {
        assert Received(q) == Received(p) && Sent(q) == Sent(p) + a.k;
        assert Sent(p) < Bytes(p, t + 1);
      }
    }
  }

  lemma {:induction false} RecvWork(p: Pipe, k: nat, t: nat)
    requires PipeInv(p) && CanStep(p, Recv(k)) && PipeInv(DoStep(p, Recv(k))) && |p.dispatched| <= t < |p.appended|
    ensures Advances(p, Recv(k), t)
  {
    hide LengthOf;
    var q := DoStep(p, Recv(k));
    Positions(p, t);
    assert Bytes(q, t + 1) == Bytes(p, t + 1) && Bytes(q, Delivered(q)) == Bytes(p, Delivered(p));
    assert Received(q) == Received(p) + k && Sent(q) == Sent(p) && Taken(q) == Taken(p);
    Unfinished(p);
  }

  lemma {:induction false} DeliverWork(p: Pipe, t: nat)
    requires PipeInv(p) && CanStep(p, Deliver) && PipeInv(DoStep(p, Deliver)) && |p.dispatched| <= t < |p.appended|
    ensures Advances(p, Deliver, t)
  {
    hide LengthOf;
    var q := DoStep(p, Deliver);
    Positions(p, t);
    DeliverKeeps(p);
    assert p.rx == p.appended[Delivered(p)];
    BytesStep(p, Delivered(p));
    assert Bytes(q, t + 1) == Bytes(p, t + 1) && Bytes(q, Delivered(q)) == Bytes(p, Delivered(p) + 1);
    assert Received(q) == Received(p) && Sent(q) == Sent(p) && Taken(q) == Taken(p);
  }

  lemma {:induction false} StepWork(p: Pipe, a: Step, t: nat)
    requires PipeInv(p) && CanStep(p, a) && |p.dispatched| <= t < |p.appended|
    requires !p.sendDead && !p.recvDead && !Failure(a)
    ensures PipeInv(DoStep(p, a)) && Advances(p, a, t)
  {
    StepKeeps(p, a);
    match a {
      case Recv(k) => RecvWork(p, k, t);
      case Deliver => DeliverWork(p, t);
      case _ => SenderWork(p, a, t);
    }
  }

  // While a frame is queued and nothing has failed, the thread that is due can move.
  function DueStep(p: Pipe): Step
    requires Due(p) != Dispatcher
  {
    if Complete(p.rx) then Deliver
    else if p.wire != [] then Recv(1)
    else if p.out != [] then Send(1)
    else Dequeue
  }

  lemma {:induction false} DueCanMove(p: Pipe)
    requires PipeInv(p) && Queue(p) != [] && !p.sendDead && !p.recvDead
    ensures Due(p) == Dispatcher ==> p.recvWin != []
    ensures Due(p) != Dispatcher ==> CanStep(p, DueStep(p)) && RoleOf(DueStep(p)) == Due(p) && !Failure(DueStep(p))
  {
    if Due(p) != Dispatcher && !Complete(p.rx) {
      Split(p);
      Unfinished(p);
    }
  }

  // Appending behind the target and dispatching in front of it.
  lemma {:induction false} AppendWork(p: Pipe, f: Frame, t: nat)
    requires PipeInv(p) && WellFormed(f) && t < |p.appended|
    ensures PipeInv(Append(p, f)) && Work(Append(p, f), t) == Work(p, t) && Due(Append(p, f)) == Due(p)
  {
    hide Flatten, WellFormed, Need;
    AppendKeeps(p, f);
    var q := Append(p, f);
    assert q.appended[..t + 1] == p.appended[..t + 1];
    assert q.appended[..Delivered(p)] == p.appended[..Delivered(p)];
  }

  lemma {:induction false} DispatchWork(p: Pipe, t: nat)
    requires PipeInv(p) && p.recvWin != [] && |p.dispatched| <= t < |p.appended|
    ensures PipeInv(Dispatch(p)) && Work(Dispatch(p), t) == Work(p, t) - 1
  {
    DispatchKeeps(p);
  }
}
