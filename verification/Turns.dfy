/**
 The threads' turns as steps of a pipe: what one turn of a send thread and one turn of a receive
 thread do in place is what these sequences of steps do to the pipe, whatever sizes send and recv
 return on the way. The three methods at the end call the turns of TcpServer and TcpClient and give,
 from nothing but their contracts, the steps that each has taken, also when it fails in mid-frame.
 */
module Turns {
  import opened NetProtocol
  import opened Framing
  import opened Pipe
  import TcpServer
  import TcpClient

  predicate CanRun(p: Pipe, steps: seq<Step>)
    decreases |steps|
  {
    steps == [] || (CanStep(p, steps[0]) && CanRun(DoStep(p, steps[0]), steps[1..]))
  }

  function Run(p: Pipe, steps: seq<Step>): Pipe
    requires CanRun(p, steps)
    decreases |steps|
  {
    if steps == [] then p else Run(DoStep(p, steps[0]), steps[1..])
  }

  function Sum(ks: seq<nat>): nat {
    if ks == [] then 0 else ks[0] + Sum(ks[1..])
  }

  function Sends(ks: seq<nat>): seq<Step> {
    if ks == [] then [] else [Send(ks[0])] + Sends(ks[1..])
  }

  function Recvs(ks: seq<nat>): seq<Step> {
    if ks == [] then [] else [Recv(ks[0])] + Recvs(ks[1..])
  }

  predicate Positive(ks: seq<nat>) {
    forall i :: 0 <= i < |ks| ==> ks[i] > 0
  }

  // k bytes of `from` moved behind `to`, and then n more.
  lemma {:induction false} MoveTwice(to: seq<byte>, from: seq<byte>, k: nat, n: nat)
    requires k + n <= |from|
    ensures from[k..][n..] == from[k + n..]
    ensures (to + from[..k]) + from[k..][..n] == to + from[..k + n]
  {
    assert from[..k] + from[k..][..n] == from[..k + n];
    Assoc(to, from[..k], from[k..][..n]);
  }

  // The loop of WRITE, when it has passed on Sum(ks) bytes.
  lemma {:induction false} WriteLoop(p: Pipe, ks: seq<nat>)
    requires !p.sendDead && Positive(ks) && Sum(ks) <= |p.out|
    ensures CanRun(p, Sends(ks))
    ensures Run(p, Sends(ks)) == p.(out := p.out[Sum(ks)..], wire := p.wire + p.out[..Sum(ks)])
    decreases |ks|
  {
    hide LengthOf, Need;
    if ks == [] {
      assert p.out[..0] == [] && p.wire + [] == p.wire;
    } else {
      var k, rest := ks[0], Sum(ks[1..]);
      var q := DoStep(p, Send(k));
      WriteLoop(q, ks[1..]);
      assert Sends(ks)[1..] == Sends(ks[1..]);
      MoveTwice(p.wire, p.out, k, rest);
    }
  }

  // A turn of the send thread: the front frame leaves the window, and its first Sum(ks) bytes are on
  // the wire; all of it, if the write did not fail.
  lemma {:induction false} SendTurnSteps(p: Pipe, ks: seq<nat>)
    requires p.sendWin != [] && p.out == [] && !p.sendDead && Positive(ks) && Sum(ks) <= |p.sendWin[0]|
    ensures CanRun(p, [Dequeue] + Sends(ks))
    ensures Run(p, [Dequeue] + Sends(ks)) ==
            p.(sendWin := p.sendWin[1..], out := p.sendWin[0][Sum(ks)..], wire := p.wire + p.sendWin[0][..Sum(ks)])
  {
    var q := DoStep(p, Dequeue);
    assert q.out == p.sendWin[0];
    WriteLoop(q, ks);
    assert ([Dequeue] + Sends(ks))[1..] == Sends(ks);
  }

  // After a failed write the thread goes on taking frames out, and nothing of them reaches the wire.
  lemma {:induction false} DeadSenderDrains(p: Pipe)
    requires p.sendDead && p.sendWin != []
    ensures CanStep(p, Dequeue) && !CanStep(p, Send(1))
    ensures var q := DoStep(p, Dequeue); q.sendWin == p.sendWin[1..] && q.wire == p.wire && q.sendDead
  {
  }

  // The loops of READ, header and body, when they have taken Sum(ks) bytes.
  lemma {:induction false} ReadLoop(p: Pipe, ks: seq<nat>)
    requires CanRun(p, Recvs(ks))
    ensures Sum(ks) <= |p.wire|
    ensures Run(p, Recvs(ks)) == p.(rx := p.rx + p.wire[..Sum(ks)], wire := p.wire[Sum(ks)..])
    decreases |ks|
  {
    if ks == [] {
      assert p.wire[..0] == [] && p.rx + [] == p.rx;
    } else {
      var k, rest := ks[0], Sum(ks[1..]);
      var q := DoStep(p, Recv(k));
      assert Recvs(ks)[1..] == Recvs(ks[1..]);
      ReadLoop(q, ks[1..]);
      MoveTwice(p.rx, p.wire, k, rest);
    }
  }

  // A turn of the receive thread, once its reads have taken as many bytes as the frame has: exactly
  // the frame goes to the receive window.
  lemma {:induction false} ReceiveTurnSteps(p: Pipe, f: Frame, ks: seq<nat>)
    requires PipeInv(p) && p.rx == [] && Between(p) != [] && !p.recvDead && f == Between(p)[0]
    requires CanRun(p, Recvs(ks)) && Sum(ks) == |f|
    ensures |f| <= |p.wire| && CanRun(Run(p, Recvs(ks)), [Deliver])
    ensures Run(Run(p, Recvs(ks)), [Deliver]) == p.(wire := p.wire[|f|..], recvWin := p.recvWin + [f])
  {
    hide LengthOf;
    ReadLoop(p, ks);
    var stream := p.wire + p.out;
    assert p.rx + stream == stream == f + Flatten(Between(p)[1..]);
    assert p.wire[..|f|] == stream[..|f|] == f;
    assert p.rx + f == f;
    assert WellFormed(f);
    assert [Deliver][1..] == [];
  }

  lemma {:induction false} RunMore(p: Pipe, a: seq<Step>, b: seq<Step>)
    requires CanRun(p, a) && CanRun(Run(p, a), b)
    ensures CanRun(p, a + b) && Run(p, a + b) == Run(Run(p, a), b)
    decreases |a|
  {
    hide CanStep, DoStep;
    if a == [] {
      assert a + b == b;
    } else {
      assert (a + b)[0] == a[0] && (a + b)[1..] == a[1..] + b;
      RunMore(DoStep(p, a[0]), a[1..], b);
    }
  }

  lemma {:induction false} RunOne(p: Pipe, a: Step)
    requires CanStep(p, a)
    ensures CanRun(p, [a]) && Run(p, [a]) == DoStep(p, a)
  {
    assert [a][1..] == [];
  }

  // k bytes in one call, or in none.
  function Calls(k: nat): (ks: seq<nat>)
    ensures Positive(ks) && Sum(ks) == k
  {
    if k == 0 then [] else assert Sum([k][1..]) == 0; [k]
  }

  // t bytes of a frame: of its header first, then of its body.
  function Reads(t: nat): (ks: seq<nat>)
    ensures Sum(ks) == t
  {
    if t <= HEAD_SIZE then Calls(t)
    else
      assert Sum(Calls(t - HEAD_SIZE)) == t - HEAD_SIZE;
      [HEAD_SIZE] + Calls(t - HEAD_SIZE)
  }

  lemma {:induction false} RecvsOne(p: Pipe, k: nat)
    requires !p.recvDead && k <= |p.wire| && k <= Need(p.rx)
    ensures CanRun(p, Recvs(Calls(k)))
  {
    if k > 0 {
      assert Recvs(Calls(k)) == [Recv(k)];
      RunOne(p, Recv(k));
    }
  }

  // READ can take any t bytes of the frame in front of it.
  lemma {:induction false} ReadsRun(p: Pipe, f: Frame, t: nat)
    requires !p.recvDead && p.rx == [] && WellFormed(f) && t <= |f| && t <= |p.wire|
    requires p.wire[..t] == f[..t]
    ensures CanRun(p, Recvs(Reads(t)))
    ensures Run(p, Recvs(Reads(t))) == p.(rx := f[..t], wire := p.wire[t..])
  {
    hide LengthOf;
    if t <= HEAD_SIZE {
      RecvsOne(p, t);
    } else {
      var q := DoStep(p, Recv(HEAD_SIZE));
      assert q.rx == p.wire[..t][..HEAD_SIZE] == f[..t][..HEAD_SIZE] == f[..HEAD_SIZE];
      HeadOfFrame(f, f, q.rx);
      RecvsOne(q, t - HEAD_SIZE);
      assert Recvs(Reads(t)) == [Recv(HEAD_SIZE)] + Recvs(Calls(t - HEAD_SIZE));
    }
    ReadLoop(p, Reads(t));
    assert p.rx + p.wire[..t] == f[..t];
  }

  lemma {:induction false} Incomplete(f: Frame, t: nat)
    requires WellFormed(f) && t < |f|
    ensures !Complete(f[..t])
  {
    hide LengthOf;
    if HEAD_SIZE <= t {
      assert f[..t][..HEAD_SIZE] == f[..HEAD_SIZE];
      SameHead(f[..t], f);
    }
  }

  // The wire and the frame in front of the reader agree as far as both go.
  lemma {:induction false} InFront(p: Pipe, f: Frame)
    requires PipeInv(p) && p.rx == [] && (Between(p) != [] ==> f == Between(p)[0])
    ensures f <= p.wire || p.wire <= f
  {
    hide LengthOf;
    var stream := p.wire + p.out;
    assert p.rx + stream == stream;
    if Between(p) == [] {
      assert p.wire == [];
    } else {
      assert stream == f + Flatten(Between(p)[1..]);
      assert forall i :: 0 <= i < |p.wire| && i < |f| ==> p.wire[i] == stream[i] == f[i];
    }
  }

  // The steps of a turn that has read t bytes of f: then either the frame goes to the window or the
  // READ has failed.
  function ReceiveSteps(t: nat, failed: bool): seq<Step> {
    Recvs(Reads(t)) + [if failed then RecvFail else Deliver]
  }

  lemma {:induction false} ReceiveRun(p: Pipe, f: Frame, t: nat, failed: bool)
    requires !p.recvDead && p.rx == [] && WellFormed(f) && t <= |f| && t <= |p.wire| && p.wire[..t] == f[..t]
    requires failed <==> t < |f|
    ensures CanRun(p, ReceiveSteps(t, failed))
    ensures Run(p, ReceiveSteps(t, failed)) ==
            if failed then p.(rx := f[..t], wire := p.wire[t..], recvDead := true)
            else p.(wire := p.wire[t..], recvWin := p.recvWin + [f])
    ensures failed ==> !Complete(f[..t])
  {
    hide LengthOf, Need, Complete;
    ReadsRun(p, f, t);
    var q := Run(p, Recvs(Reads(t)));
    if failed {
      Incomplete(f, t);
      RunOne(q, RecvFail);
    } else {
      assert f[..t] == f;
      Whole(f);
      RunOne(q, Deliver);
      assert p.rx == [];
    }
    RunMore(p, Recvs(Reads(t)), [if failed then RecvFail else Deliver]);
  }

  lemma Whole(f: Frame)
    requires WellFormed(f)
    ensures Complete(f)
  {
  }

  /* The turns themselves */

  // One turn of the server's send thread is these steps of the pipe to the client; `received` is what
  // the client has taken off the wire.
  method ServerSends(server: TcpServer.QNetTcpServer, buffer: array<byte>, ghost p: Pipe, ghost received: seq<byte>)
    returns (ghost steps: seq<Step>)
    requires p.out == [] && !p.sendDead
    requires server.sendWindow.frames == p.sendWin && server.sk.outgoing == received + p.wire
    requires p.sendWin != [] ==> 0 < |p.sendWin[0]| <= buffer.Length
    modifies server`quit, server.sk`outgoing, server.sendWindow, buffer
    ensures CanRun(p, steps)
    ensures var q := Run(p, steps);
            && server.sendWindow.frames == q.sendWin && server.sk.outgoing == received + q.wire
            && q == p.(sendWin := q.sendWin, wire := q.wire, out := q.out, sendDead := q.sendDead)
            && (q.out == [] <==> !q.sendDead)
            && (p.sendWin != [] ==> q.sendWin == p.sendWin[1..])
  {
    var ret, timeout := server.RunSendCmdOnce(buffer);
    steps := [];
    if p.sendWin != [] {
      ghost var f, k := p.sendWin[0], |server.sk.outgoing| - |received + p.wire|;
      SendTurnSteps(p, Calls(k));
      steps := [Dequeue] + Sends(Calls(k));
      Assoc(received, p.wire, f[..k]);
      if ret != 0 {
        RunOne(Run(p, steps), SendFail);
        RunMore(p, steps, [SendFail]);
        steps := steps + [SendFail];
      }
    }
  }

  // One turn of the server's receive thread, with what is on the wire as all that arrives.
  method ServerReceives(server: TcpServer.QNetTcpServer, ghost p: Pipe, ghost first: Frame)
    returns (ret: int, ghost steps: seq<Step>)
    requires PipeInv(p) && p.rx == [] && !p.recvDead
    requires WellFormed(first) && (Between(p) != [] ==> first == Between(p)[0])
    requires server.sk.incoming == p.wire && server.recvWindow.frames == p.recvWin
    modifies server`quit, server.sk`incoming, server.recvWindow
    ensures CanRun(p, steps)
    ensures var q := Run(p, steps);
            && server.sk.incoming == q.wire && server.recvWindow.frames == q.recvWin
            && (ret == 0 ==> q.recvWin == p.recvWin + [first] && !q.recvDead)
            && (ret != 0 ==> q.recvWin == p.recvWin && q.recvDead && server.quit == 1)
  {
    hide WellFormed, PipeInv, CanRun, Run, ReceiveSteps;
    InFront(p, first);
    ret := server.ReceiveFrame(first);
    ghost var t := |p.wire| - |server.sk.incoming|;
    ReceiveRun(p, first, t, ret != 0);
    steps := ReceiveSteps(t, ret != 0);
  }

  // One turn of the client's receive thread. When READ fails, the window gets what the pipe would have
  // delivered if the frame had been complete: a packet that starts with the bytes received.
  method ClientReceives(client: TcpClient.QNetClient, patience: nat, ghost p: Pipe, ghost first: Frame)
    returns (ret: TcpClient.ReadResult, ghost steps: seq<Step>)
    requires PipeInv(p) && p.rx == [] && !p.recvDead
    requires WellFormed(first) && (Between(p) != [] ==> first == Between(p)[0])
    requires client.sk.incoming == p.wire && client.recvWindow.frames == p.recvWin
    modifies client`quit, client.sk`incoming, client.recvWindow
    ensures CanRun(p, steps)
    ensures var q := Run(p, steps);
            && (ret.Done? ==> client.sk.incoming == q.wire)
            && (ret.Done? ==> client.recvWindow.frames == q.recvWin == p.recvWin + [first])
            && (ret.Failed? ==> client.quit == 1 && q.recvDead && q.recvWin == p.recvWin && !Complete(q.rx))
            && (ret.Failed? ==> client.recvWindow.frames == q.recvWin || client.AppendedStray(q.recvWin, q.rx))
            && (ret.Waiting? ==> client.recvWindow.frames == q.recvWin && q == p)
  {
    hide WellFormed, PipeInv, CanStep, DoStep, ReceiveSteps, Complete, TcpClient.IsStray;
    InFront(p, first);
    ghost var got;
    ret, got := client.ReceiveFrame(first, patience);
    if ret.Waiting? {
      steps := [];
    } else {
      ghost var t := if ret.Done? then |first| else got;
      assert p.wire[..t] == first[..t];
      ReceiveRun(p, first, t, ret.Failed?);
      steps := ReceiveSteps(t, ret.Failed?);
    }
  }
}
