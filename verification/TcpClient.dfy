/**
 The socket side of QNetClient: READ and WRITE, one turn of the receive thread, the packet
 builders behind main_cmd_process, and the send thread with its heartbeat counter.
 */
module TcpClient {
  import opened NetProtocol
  import opened Framing
  import opened Transport

  const HEART_SIZE := 8       // sizeof(app_net_ctrl_heart)
  const HEART_POLLS := 2700   // 30 * 90

  // The pairs for which a builder writes a header.
  predicate Buildable(cmdType: u16, subType: u32) {
    || (cmdType == TYPE_CTRL && subType in {CTRL_LOGIN, CTRL_LOGOUT, CTRL_HEART})
    || (cmdType == TYPE_FILE && subType in {FILE_START, FILE_LIST, FILE_PATH, FILE_SEND})
    || (cmdType == TYPE_VID && subType in {VID_CONNECT, VID_STREAM})
  }

  // The main types whose builder enqueues what it built; the audio builder does not.
  predicate Enqueues(cmdType: u16) {
    cmdType == TYPE_CTRL || cmdType == TYPE_FILE || cmdType == TYPE_VID
  }

  datatype ReadResult = Done | Failed | Waiting

  // What a failed READ leaves in the receive window: the bytes received of a frame, filled up to the
  // length that its header says with bytes that are not from the wire.
  predicate IsStray(stray: Frame, received: seq<byte>) {
    WellFormed(stray) && received <= stray
  }

  lemma FrameSize(f: Frame)
    requires WellFormed(f)
    ensures HEAD_SIZE <= |f| < INT_LIMIT
  {
  }

  lemma {:induction false} Received(raw: seq<byte>, stream: seq<byte>, k: nat)
    requires HEAD_SIZE + k <= |raw| && HEAD_SIZE + k <= |stream|
    ensures stream[..HEAD_SIZE + k] <=
            stream[..HEAD_SIZE] + Splice(raw, HEAD_SIZE, stream[HEAD_SIZE..][..k])[HEAD_SIZE..]
  {
    var b := Splice(raw, HEAD_SIZE, stream[HEAD_SIZE..][..k]);
    assert b[HEAD_SIZE..] == stream[HEAD_SIZE..][..k] + raw[HEAD_SIZE + k..];
    assert stream[..HEAD_SIZE + k] == stream[..HEAD_SIZE] + stream[HEAD_SIZE..][..k];
  }

  class QNetClient {
    var quit: int
    const sk: Socket
    const sendWindow: SlidingWindow
    const recvWindow: SlidingWindow

    constructor (sk: Socket)
      ensures this.sk == sk && quit == 0
      ensures fresh(recvWindow) && fresh(sendWindow) && recvWindow != sendWindow
      ensures recvWindow.frames == [] && sendWindow.frames == []
    {
      this.sk := sk;
      quit := 0;
      recvWindow := new SlidingWindow();
      sendWindow := new SlidingWindow();
    }

    // READ(sk, buf + off, len). A result of 0 from recv is added like any other, so the loop keeps
    // asking; `patience` is the number of recv calls that the observation covers, and Waiting
    // means that it ended with the loop still running.
    method Read(buf: array<byte>, off: nat, len: nat, patience: nat) returns (ret: ReadResult, spent: nat)
      requires off + len <= buf.Length
      modifies `quit, sk`incoming, buf
      ensures spent <= patience
      ensures |sk.incoming| <= |old(sk.incoming)|
      ensures var k := |old(sk.incoming)| - |sk.incoming|;
              && k <= len && (ret.Done? <==> k == len)
              && sk.incoming == old(sk.incoming)[k..]
              && buf[..] == Splice(old(buf[..]), off, old(sk.incoming)[..k])
      ensures if ret.Failed? then quit == 1 else quit == old(quit)
      ensures ret.Waiting? ==> spent == patience
    {
      ghost var b0, stream := buf[..], sk.incoming;
      var left := len;
      var pos := 0;
      spent := 0;
      ReadNothing(b0, off, stream);
      while left > 0
        invariant left >= 0 && pos + left == len && spent <= patience
        invariant 0 <= pos && sk.Taken(buf, b0, off, stream, pos)
        invariant quit == old(quit)
        decreases patience - spent
      {
        if spent == patience {
          return Waiting, spent;
        }
        var n := sk.RecvMore(buf, off, pos, left, b0, stream);
        spent := spent + 1;
        if n == -1 {
          quit := 1;
          return Failed, spent;
        }
        left := left - n;
        pos := pos + n;
      }
      return Done, spent;
    }

    // One turn of the receive thread on a stream that starts with the frame `first` or ends inside
    // it: the whole frame goes to the window. The result of READ is ignored, so that after a failure
    // a packet still goes there: what was received of the frame, and whatever the memory held behind.
    method ReceiveFrame(ghost first: Frame, patience: nat) returns (ret: ReadResult, ghost got: nat)
      requires WellFormed(first)
      requires first <= sk.incoming || sk.incoming < first
      modifies `quit, sk`incoming, recvWindow
      ensures ret.Done? ==> first <= old(sk.incoming) && sk.incoming == old(sk.incoming)[|first|..] && quit == old(quit)
      ensures ret.Done? ==> recvWindow.frames == old(recvWindow.frames) + [first]
      ensures ret.Waiting? ==> |sk.incoming| <= |old(sk.incoming)| < |sk.incoming| + |first|
      ensures ret.Waiting? ==> recvWindow.frames == old(recvWindow.frames) && quit == old(quit)
      ensures SuffixLeft(old(sk.incoming))
      ensures ret.Failed? ==> quit == 1 && got < |first| && got + |sk.incoming| <= |old(sk.incoming)|
      ensures ret.Failed? ==>
                || recvWindow.frames == old(recvWindow.frames)
                || AppendedStray(old(recvWindow.frames), old(sk.incoming)[..got])
    {
      ghost var stream := sk.incoming;
      var headBuffer := new byte[HEAD_SIZE];
      var spent;
      ret, spent := Read(headBuffer, 0, HEAD_SIZE, patience);
      got := |stream| - |sk.incoming|;
      match ret {
        case Waiting =>
        case Failed => AfterFailedHead(headBuffer, patience - spent, stream[..got]);
        case Done => ret, got := ReceiveBody(headBuffer, first, stream, patience - spent);
      }
    }

    // What is left to receive is the rest of the stream.
    predicate SuffixLeft(stream: seq<byte>)
      reads sk`incoming
    {
      |sk.incoming| <= |stream| && sk.incoming == stream[|stream| - |sk.incoming|..]
    }

    // The window has gained a packet that starts with the bytes received and has the length it says.
    ghost predicate AppendedStray(before: seq<Frame>, received: seq<byte>)
      reads recvWindow
    {
      exists stray: Frame :: recvWindow.frames == before + [stray] && IsStray(stray, received)
    }

    // The rest of the turn after a failed READ of the header, with an arbitrary Length unless its
    // bytes were received. With a Length below the header's own size the source writes past the end
    // of what it allocates, and nothing is said.
    method AfterFailedHead(headBuffer: array<byte>, patience: nat, ghost received: seq<byte>)
      requires headBuffer.Length == HEAD_SIZE && received <= headBuffer[..] && quit == 1
      modifies `quit, sk`incoming, recvWindow
      ensures quit == 1 && SuffixLeft(old(sk.incoming))
      ensures recvWindow.frames == old(recvWindow.frames) || AppendedStray(old(recvWindow.frames), received)
    {
      var len := LengthOf(headBuffer[..]);
      if len < HEAD_SIZE || INT_LIMIT <= len {
        return;
      }
      var buffer := new byte[len];
      var again, _ := Read(buffer, HEAD_SIZE, len - HEAD_SIZE, patience);
      if again.Waiting? {
        return;
      }
      ghost var stray := AppendPacket(headBuffer, buffer);
      assert IsStray(stray, received);
    }

    // memcpy of the header and the append.
    method AppendPacket(headBuffer: array<byte>, buffer: array<byte>) returns (ghost packet: Frame)
      requires headBuffer.Length == HEAD_SIZE && headBuffer != buffer
      requires HEAD_SIZE <= buffer.Length < INT_LIMIT && LengthOf(headBuffer[..]) == buffer.Length
      modifies buffer, recvWindow
      ensures recvWindow.frames == old(recvWindow.frames) + [packet] && WellFormed(packet)
      ensures packet == headBuffer[..] + old(buffer[HEAD_SIZE..])
    {
      ghost var head, b0 := headBuffer[..], buffer[..];
      assert b0[HEAD_SIZE..] == buffer[HEAD_SIZE..];
      assert headBuffer[..HEAD_SIZE] == head;
      Memcpy(buffer, headBuffer, HEAD_SIZE);
      packet := buffer[..];
      assert packet == head + b0[HEAD_SIZE..];
      assert packet[..HEAD_SIZE] == head[..HEAD_SIZE] == head;
      SameHead(packet, head);
      assert buffer[..buffer.Length] == packet;
      recvWindow.WriteDataToBuffer(buffer.Length, buffer);
    }

    // The rest of the turn, after the header of `first` has been read off `stream`.
    method ReceiveBody(headBuffer: array<byte>, ghost first: Frame, ghost stream: seq<byte>, patience: nat)
      returns (ret: ReadResult, ghost got: nat)
      requires WellFormed(first) && (first <= stream || stream < first) && HEAD_SIZE <= |stream|
      requires headBuffer.Length == HEAD_SIZE && headBuffer[..] == stream[..HEAD_SIZE]
      requires sk.incoming == stream[HEAD_SIZE..]
      modifies `quit, sk`incoming, recvWindow
      ensures ret.Done? ==> first <= stream && sk.incoming == stream[|first|..] && quit == old(quit)
      ensures ret.Done? ==> recvWindow.frames == old(recvWindow.frames) + [first]
      ensures ret.Waiting? ==> |sk.incoming| <= |stream| < |sk.incoming| + |first|
      ensures ret.Waiting? ==> recvWindow.frames == old(recvWindow.frames) && quit == old(quit)
      ensures SuffixLeft(stream)
      ensures ret.Failed? ==> quit == 1 && got < |first| && got + |sk.incoming| <= |stream|
      ensures ret.Failed? ==> AppendedStray(old(recvWindow.frames), stream[..got])
    {
      HeadOfFrame(first, stream, headBuffer[..]);
      FrameSize(first);
      hide WellFormed, LengthOf;
      var len := LengthOf(headBuffer[..]);
      var buffer := new byte[len];
      ghost var raw := buffer[..];
      var spent;
      ret, spent := Read(buffer, HEAD_SIZE, len - HEAD_SIZE, patience);
      got := |stream| - |sk.incoming|;
      ghost var k := got - HEAD_SIZE;
      DropDrop(stream, HEAD_SIZE, k);
      LongEnough(first, stream);
      if !ret.Waiting? {
        Received(raw, stream, k);
        assert buffer[HEAD_SIZE..] == Splice(raw, HEAD_SIZE, stream[HEAD_SIZE..][..k])[HEAD_SIZE..];
        ghost var packet := AppendPacket(headBuffer, buffer);
        assert IsStray(packet, stream[..got]);
        assert ret.Done? ==> packet == stream[..got];
      }
    }

    // WRITE: all of buf[..len], or a proper beginning of it and quit is set.
    method Write(buf: array<byte>, len: nat) returns (ret: int)
      requires len <= buf.Length
      modifies `quit, sk`outgoing
      ensures ret == 0 || ret == -1
      ensures |old(sk.outgoing)| <= |sk.outgoing|
      ensures var k := |sk.outgoing| - |old(sk.outgoing)|;
              && k <= len && (ret == 0 <==> k == len)
              && sk.outgoing == old(sk.outgoing) + buf[..k]
      ensures quit == if ret == 0 then old(quit) else 1
    {
      var left := len;
      var pos := 0;
      while left > 0
        invariant left >= 0 && pos + left == len
        invariant sk.outgoing == old(sk.outgoing) + buf[..pos]
        invariant quit == old(quit)
      {
        var n := sk.Send(buf, pos, left);
        if n <= 0 {
          quit := 1;
          return -1;
        }
        assert buf[..pos + n] == buf[..pos] + buf[pos..pos + n];
        Assoc(old(sk.outgoing), buf[..pos], buf[pos..pos + n]);
        left := left - n;
        pos := pos + n;
      }
      return 0;
    }

    /* Building packets */

    // main_cmd_process and the four builders. A pair without a case still enqueues a packet of the
    // right size for the three known types, but its header is whatever malloc returned.
    method MainCmdProcess(cmdType: u16, subType: u32, data: seq<byte>)
      requires HEAD_SIZE + |data| < INT_LIMIT
      modifies sendWindow
      ensures cmdType !in {1, 2, 3} ==> sendWindow.frames == old(sendWindow.frames)
      ensures cmdType in {1, 2, 3} ==>
                exists f: Frame :: sendWindow.frames == old(sendWindow.frames) + [f]
                                   && |f| == 40 + |data| && f[40..] == data
                                   && (|| (cmdType == 1 && subType in {1, 2, 3})
                                       || (cmdType == 2 && subType in {1, 2, 3, 4})
                                       || (cmdType == 3 && subType in {1, 2})
                                       ==> IsPacket(f, cmdType, subType, |f|))
    {
      var pkgLen := HEAD_SIZE + |data|;
      var buffer := new byte[pkgLen];
      for i := 0 to |data|
        invariant sendWindow.frames == old(sendWindow.frames)
        invariant forall j :: 0 <= j < i ==> buffer[HEAD_SIZE + j] == data[j]
      {
        buffer[HEAD_SIZE + i] := data[i];
      }
      assert |buffer[HEAD_SIZE..]| == |data|;
      assert forall j :: 0 <= j < |data| ==> buffer[HEAD_SIZE..][j] == buffer[HEAD_SIZE + j];
      assert buffer[HEAD_SIZE..] == data;
      if Buildable(cmdType, subType) {
        WriteHead(buffer, cmdType, subType, 0, pkgLen);
      }
      ghost var f := buffer[..];
      assert f[HEAD_SIZE..] == buffer[HEAD_SIZE..] && f[..HEAD_SIZE] == buffer[..HEAD_SIZE];
      if Enqueues(cmdType) {
        assert buffer[..pkgLen] == f;
        sendWindow.WriteDataToBuffer(pkgLen, buffer);
        assert sendWindow.frames == old(sendWindow.frames) + [f];
      }
    }

    // main_cmd_process for a pair that has a case.
    method Command(cmdType: u16, subType: u32, data: seq<byte>) returns (ghost f: Frame)
      requires HEAD_SIZE + |data| < INT_LIMIT && Buildable(cmdType, subType)
      modifies sendWindow
      ensures sendWindow.frames == old(sendWindow.frames) + [f]
      ensures IsPacket(f, cmdType, subType, HEAD_SIZE + |data|) && f[HEAD_SIZE..] == data
    {
      MainCmdProcess(cmdType, subType, data);
      f :| sendWindow.frames == old(sendWindow.frames) + [f] && IsPacket(f, cmdType, subType, |f|)
           && |f| == HEAD_SIZE + |data| && f[HEAD_SIZE..] == data;
    }

    /* The send thread */

    // A WRITE that failed has put a proper beginning of its frame on the wire.
    ghost predicate WrotePart(out: seq<byte>, e: Event)
      reads sk`outgoing
    {
      e.Wrote? && out <= sk.outgoing && sk.outgoing[|out|..] < e.frame
    }

    // One poll of the send window: a frame is written and the counter reset, or the counter goes
    // up and at 2700 a heartbeat is enqueued. `stamp` is the wall-clock content of a heartbeat.
    method SendTurn(buffer: array<byte>, timeCnt: nat, stamp: seq<byte>) returns (cnt: nat, ret: int)
      requires timeCnt < 2700 && |stamp| == HEART_SIZE
      requires sendWindow.frames != [] ==> 0 < |sendWindow.frames[0]| <= buffer.Length
      modifies `quit, sk`outgoing, sendWindow, buffer
      ensures old(sendWindow.frames) == [] && timeCnt < 2699 ==> sendWindow.frames == [] && cnt == timeCnt + 1
      ensures old(sendWindow.frames) == [] && timeCnt == 2699 ==>
                sendWindow.frames == [HeartbeatPacket(stamp)] && cnt == 0
      ensures old(sendWindow.frames) != [] ==> sendWindow.frames == old(sendWindow.frames)[1..] && cnt == 0
      ensures var (s, e) := Turn(Poller(old(sendWindow.frames), timeCnt), [], HeartbeatPacket(stamp));
              && cnt == s.cnt && sendWindow.frames == s.window
              && (ret == 0 ==> quit == old(quit) && sk.outgoing == old(sk.outgoing) + Output(e))
              && (ret != 0 ==> quit == 1 && WrotePart(old(sk.outgoing), e))
    {
      ghost var window := sendWindow.frames;
      ret := 0;
      var len := sendWindow.ReadDataToBuffer(buffer);
      if len > 0 {
        ghost var f := buffer[..len];
        ret := Write(buffer, len);
        cnt := 0;
        ghost var k := |sk.outgoing| - |old(sk.outgoing)|;
        assert buffer[..k] == f[..k];
        assert window + [] == window;
      } else {
        assert window == [];
        cnt := timeCnt + 1;
        if cnt >= HEART_POLLS {
          cnt := 0;
          Heartbeat(stamp);
        }
      }
    }

    // The send thread over at most |arrivals| turns; arrivals[i] is what the other threads append to
    // the window between turn i - 1 and turn i, stamps[i] what the clock would show in turn i. The
    // loop ends earlier when quit is set, by a WRITE that failed or by another thread.
    method RunSendPthread(arrivals: seq<seq<Frame>>, stamps: seq<seq<byte>>, bufferLen: nat)
      returns (ghost turns: nat, ghost torn: bool)
      requires quit == 0 && |stamps| == |arrivals|
      requires forall i :: 0 <= i < |stamps| ==> |stamps[i]| == HEART_SIZE
      requires HEAD_SIZE + HEART_SIZE <= bufferLen && AllFit(sendWindow.frames, bufferLen)
      requires forall i :: 0 <= i < |arrivals| ==> AllFit(arrivals[i], bufferLen)
      modifies `quit, sk`outgoing, sendWindow
      ensures turns <= |arrivals| && (quit == 0 ==> turns == |arrivals|) && (torn ==> quit == 1)
      ensures var (s, beats) := (Poller(old(sendWindow.frames), 0), Beats(stamps));
              && sendWindow.frames == Before(s, arrivals, beats, turns).window
              && OnWire(s, arrivals, beats, turns, torn, old(sk.outgoing))
    {
      ghost var s, out := Poller(sendWindow.frames, 0), sk.outgoing;
      var buffer := new byte[bufferLen];
      assert out == out + Flatten([]);
      turns, torn := RunTurns(buffer, arrivals, stamps, s, out);
    }

    method RunTurns(buffer: array<byte>, arrivals: seq<seq<Frame>>, stamps: seq<seq<byte>>, ghost s: Poller,
                    ghost out: seq<byte>)
      returns (ghost turns: nat, ghost torn: bool)
      requires quit == 0 && |stamps| == |arrivals|
      requires forall i :: 0 <= i < |stamps| ==> |stamps[i]| == HEART_SIZE
      requires HEAD_SIZE + HEART_SIZE <= buffer.Length && AllFit(sendWindow.frames, buffer.Length)
      requires forall i :: 0 <= i < |arrivals| ==> AllFit(arrivals[i], buffer.Length)
      requires Synced(s, arrivals, Beats(stamps), 0, 0, false, out)
      modifies `quit, sk`outgoing, sendWindow, buffer
      ensures turns <= |arrivals| && (quit == 0 ==> turns == |arrivals|) && (torn ==> quit == 1)
      ensures exists cnt: nat :: Synced(s, arrivals, Beats(stamps), turns, cnt, torn, out)
    {
      hide Before, Written, EventAt, Turn, HeartbeatPacket, AllFit, Synced, OnWire, Beats;
      var timeCnt, i := 0, 0;
      torn := false;
      while quit == 0 && i < |arrivals|
        invariant 0 <= i <= |arrivals| && 0 <= timeCnt < HEART_POLLS
        invariant Synced(s, arrivals, Beats(stamps), i, timeCnt, torn, out)
        invariant AllFit(sendWindow.frames, buffer.Length)
        invariant torn ==> quit == 1
      {
        timeCnt, torn := PollStep(buffer, timeCnt, s, arrivals, stamps, i, out);
        i := i + 1;
        var otherThreadQuits: bool := *;
        if otherThreadQuits {
          quit := 1;
        }
      }
      turns := i;
    }

    // What n turns have put on the wire; if the last of them is torn, a beginning of its frame.
    ghost predicate OnWire(s: Poller, arrivals: seq<seq<Frame>>, beats: seq<Frame>, n: nat, torn: bool, out: seq<byte>)
      requires n <= |arrivals| && n <= |beats|
      reads sk`outgoing
    {
      if torn then
        n > 0 && WrotePart(out + Flatten(Written(s, arrivals, beats, n - 1)), EventAt(s, arrivals, beats, n - 1))
      else
        sk.outgoing == out + Flatten(Written(s, arrivals, beats, n))
    }

    // Window, counter and wire are where n turns take them.
    ghost predicate Synced(s: Poller, arrivals: seq<seq<Frame>>, beats: seq<Frame>, n: nat, timeCnt: nat, torn: bool,
                           out: seq<byte>)
      requires n <= |arrivals| && n <= |beats|
      reads sk`outgoing, sendWindow
    {
      && Poller(sendWindow.frames, timeCnt) == Before(s, arrivals, beats, n)
      && OnWire(s, arrivals, beats, n, torn, out)
    }

    method PollStep(buffer: array<byte>, timeCnt: nat, ghost s: Poller, arrivals: seq<seq<Frame>>,
                    stamps: seq<seq<byte>>, i: nat, ghost out: seq<byte>)
      returns (cnt: nat, ghost torn: bool)
      requires quit == 0 && i < |arrivals| == |stamps| && timeCnt < HEART_POLLS
      requires forall j :: 0 <= j < |stamps| ==> |stamps[j]| == HEART_SIZE
      requires HEAD_SIZE + HEART_SIZE <= buffer.Length
      requires AllFit(sendWindow.frames, buffer.Length) && AllFit(arrivals[i], buffer.Length)
      requires Synced(s, arrivals, Beats(stamps), i, timeCnt, false, out)
      modifies `quit, sk`outgoing, sendWindow, buffer
      ensures Synced(s, arrivals, Beats(stamps), i + 1, cnt, torn, out)
      ensures cnt < HEART_POLLS && AllFit(sendWindow.frames, buffer.Length)
      ensures quit == if torn then 1 else 0
    {
      ghost var beats := Beats(stamps);
      WrittenStep(s, arrivals, beats, i);
      Assoc(out, Flatten(Written(s, arrivals, beats, i)), Output(EventAt(s, arrivals, beats, i)));
      var ret;
      cnt, ret := ArriveAndTurn(buffer, timeCnt, arrivals[i], stamps[i]);
      torn := ret != 0;
    }

    // The other threads append, then the send thread takes its turn.
    method ArriveAndTurn(buffer: array<byte>, timeCnt: nat, arrive: seq<Frame>, stamp: seq<byte>)
      returns (cnt: nat, ret: int)
      requires timeCnt < HEART_POLLS && |stamp| == HEART_SIZE
      requires HEAD_SIZE + HEART_SIZE <= buffer.Length
      requires AllFit(sendWindow.frames, buffer.Length) && AllFit(arrive, buffer.Length)
      modifies `quit, sk`outgoing, sendWindow, buffer
      ensures var (s, e) := Turn(Poller(old(sendWindow.frames), timeCnt), arrive, HeartbeatPacket(stamp));
              && cnt == s.cnt && sendWindow.frames == s.window
              && (ret == 0 ==> quit == old(quit) && sk.outgoing == old(sk.outgoing) + Output(e))
              && (ret != 0 ==> quit == 1 && WrotePart(old(sk.outgoing), e))
      ensures cnt < HEART_POLLS && AllFit(sendWindow.frames, buffer.Length)
    {
      sendWindow.frames := sendWindow.frames + arrive;
      ghost var window := sendWindow.frames;
      TurnFits(Poller(window, timeCnt), HeartbeatPacket(stamp), buffer.Length);
      assert window + [] == window;
      cnt, ret := SendTurn(buffer, timeCnt, stamp);
    }

    method Heartbeat(stamp: seq<byte>)
      requires |stamp| == HEART_SIZE
      modifies sendWindow
      ensures sendWindow.frames == old(sendWindow.frames) + [HeartbeatPacket(stamp)]
    {
      ghost var f := Command(TYPE_CTRL, CTRL_HEART, stamp);
      assert f == f[..HEAD_SIZE] + f[HEAD_SIZE..];
    }
  }

  ghost predicate AllFit(fs: seq<Frame>, size: nat) {
    forall i :: 0 <= i < |fs| ==> 0 < |fs[i]| <= size
  }

  function Beats(stamps: seq<seq<byte>>): (beats: seq<Frame>)
    requires forall i :: 0 <= i < |stamps| ==> |stamps[i]| == HEART_SIZE
    ensures |beats| == |stamps| && forall i :: 0 <= i < |stamps| ==> beats[i] == HeartbeatPacket(stamps[i])
  {
    seq(|stamps|, i requires 0 <= i < |stamps| => HeartbeatPacket(stamps[i]))
  }

  function HeartbeatPacket(stamp: seq<byte>): (beat: Frame)
    requires |stamp| == HEART_SIZE
    ensures IsPacket(beat, TYPE_CTRL, CTRL_HEART, HEAD_SIZE + HEART_SIZE) && beat[HEAD_SIZE..] == stamp
  {
    HeadPkg(TYPE_CTRL, CTRL_HEART, 0, HEAD_SIZE + HEART_SIZE) + stamp
  }

  datatype Poller = Poller(window: seq<Frame>, cnt: nat)
  datatype Event = Wrote(frame: Frame) | Idle | Beat(frame: Frame)

  // One turn of the loop, after other threads have appended `arrive` to the window.
  function Turn(s: Poller, arrive: seq<Frame>, beat: Frame): (Poller, Event) {
    var window := s.window + arrive;
    if window != [] then (Poller(window[1..], 0), Wrote(window[0]))
    else if s.cnt + 1 >= HEART_POLLS then (Poller([beat], 0), Beat(beat))
    else (Poller([], s.cnt + 1), Idle)
  }

  // The state before turn n, and what turn n does, when arrivals[i] come in before turn i.
  function Before(s: Poller, arrivals: seq<seq<Frame>>, beats: seq<Frame>, n: nat): Poller
    requires n <= |arrivals| && n <= |beats|
  {
    if n == 0 then s else Turn(Before(s, arrivals, beats, n - 1), arrivals[n - 1], beats[n - 1]).0
  }

  function EventAt(s: Poller, arrivals: seq<seq<Frame>>, beats: seq<Frame>, n: nat): Event
    requires n < |arrivals| && n < |beats|
  {
    Turn(Before(s, arrivals, beats, n), arrivals[n], beats[n]).1
  }

  function Output(e: Event): seq<byte> {
    if e.Wrote? then e.frame else []
  }

  lemma TurnFits(s: Poller, beat: Frame, size: nat)
    requires AllFit(s.window, size) && 0 < |beat| <= size
    ensures AllFit(Turn(s, [], beat).0.window, size)
  {
    assert s.window + [] == s.window;
  }

  lemma {:induction false} TurnCounts(s: Poller, arrive: seq<Frame>, beat: Frame)
    requires s.cnt < HEART_POLLS
    ensures var (t, e) := Turn(s, arrive, beat);
            && t.cnt < HEART_POLLS
            && (!e.Wrote? ==> s.window == [])
            && (!e.Wrote? ==> (e == Idle && t == Poller([], s.cnt + 1))
                              || (e == Beat(beat) && t == Poller([beat], 0) && s.cnt + 1 == HEART_POLLS))
  {
    assert |s.window + arrive| == |s.window| + |arrive|;
  }

  // The counter stays in range.
  lemma {:induction false} CountInRange(s: Poller, arrivals: seq<seq<Frame>>, beats: seq<Frame>, i: nat)
    requires s.cnt < HEART_POLLS && |beats| == |arrivals| && i <= |arrivals|
    ensures Before(s, arrivals, beats, i).cnt < HEART_POLLS
  {
    hide Turn;
    if i > 0 {
      CountInRange(s, arrivals, beats, i - 1);
      TurnCounts(Before(s, arrivals, beats, i - 1), arrivals[i - 1], beats[i - 1]);
    }
  }

  // k turns in a row without a write only count up, or have just enqueued a heartbeat.
  lemma {:induction false} NoWrite(s: Poller, arrivals: seq<seq<Frame>>, beats: seq<Frame>, i: nat, k: nat)
    requires s.cnt < HEART_POLLS && |beats| == |arrivals| && i + k <= |arrivals|
    requires forall j :: i <= j < i + k ==> !EventAt(s, arrivals, beats, j).Wrote?
    ensures Before(s, arrivals, beats, i).cnt < HEART_POLLS
    ensures var a, b := Before(s, arrivals, beats, i), Before(s, arrivals, beats, i + k);
            || (b.cnt == a.cnt + k && b.cnt < HEART_POLLS && (k > 0 ==> b.window == []))
            || (b.window != [] && k == HEART_POLLS - a.cnt && EventAt(s, arrivals, beats, i + k - 1).Beat?)
    decreases k
  {
    hide Turn;
    CountInRange(s, arrivals, beats, i);
    if k > 0 {
      var n := i + k - 1;
      NoWrite(s, arrivals, beats, i, k - 1);
      CountInRange(s, arrivals, beats, n);
      TurnCounts(Before(s, arrivals, beats, n), arrivals[n], beats[n]);
      assert !EventAt(s, arrivals, beats, n).Wrote?;
    }
  }

  // Among any 2701 turns in a row there is a write, whatever the other threads append and when.
  lemma {:induction false} BoundedSilence(s: Poller, arrivals: seq<seq<Frame>>, beats: seq<Frame>, i: nat)
    requires s.cnt < 2700 && |beats| == |arrivals| && i + 2701 <= |arrivals|
    ensures exists j :: i <= j <= i + 2700 && EventAt(s, arrivals, beats, j).Wrote?
  {
    if forall j :: i <= j <= i + 2700 ==> !EventAt(s, arrivals, beats, j).Wrote? {
      NoWrite(s, arrivals, beats, i, 2701);
    }
  }

  // Started with an empty window and the counter at 0, a turn enqueues a heartbeat exactly when it
  // finds the window empty and so did the 2699 turns before it, none of which was a heartbeat.
  lemma {:induction false} HeartbeatExactly(arrivals: seq<seq<Frame>>, beats: seq<Frame>, i: nat)
    requires |beats| == |arrivals| && i < |arrivals|
    ensures EventAt(Poller([], 0), arrivals, beats, i).Beat? <==>
              && i >= 2699
              && (forall j :: i - 2699 <= j < i ==> EventAt(Poller([], 0), arrivals, beats, j).Idle?)
              && !EventAt(Poller([], 0), arrivals, beats, i).Wrote?
  {
    var s := Poller([], 0);
    IdleCount(arrivals, beats, i);
    var cnt := Before(s, arrivals, beats, i).cnt;
    if i >= 2699 && (forall j :: i - 2699 <= j < i ==> EventAt(s, arrivals, beats, j).Idle?) {
      NoWrite(s, arrivals, beats, i - 2699, 2699);
    }
  }

  // The counter is the number of idle turns since the last write or heartbeat.
  lemma {:induction false} IdleCount(arrivals: seq<seq<Frame>>, beats: seq<Frame>, i: nat)
    requires |beats| == |arrivals| && i <= |arrivals|
    ensures var cnt := Before(Poller([], 0), arrivals, beats, i).cnt;
            && cnt <= i && cnt < HEART_POLLS
            && (forall j :: i - cnt <= j < i ==> EventAt(Poller([], 0), arrivals, beats, j).Idle?)
            && (cnt < i ==> !EventAt(Poller([], 0), arrivals, beats, i - cnt - 1).Idle?)
  {
    if i > 0 {
      IdleCount(arrivals, beats, i - 1);
    }
  }

  function Written(s: Poller, arrivals: seq<seq<Frame>>, beats: seq<Frame>, n: nat): seq<Frame>
    requires n <= |arrivals| && n <= |beats|
  {
    if n == 0 then []
    else
      var e := EventAt(s, arrivals, beats, n - 1);
      Written(s, arrivals, beats, n - 1) + if e.Wrote? then [e.frame] else []
  }

  lemma {:induction false} WrittenStep(s: Poller, arrivals: seq<seq<Frame>>, beats: seq<Frame>, n: nat)
    requires n < |arrivals| && n < |beats|
    ensures Flatten(Written(s, arrivals, beats, n + 1)) ==
            Flatten(Written(s, arrivals, beats, n)) + Output(EventAt(s, arrivals, beats, n))
  {
    var e := EventAt(s, arrivals, beats, n);
    FlattenAppend(Written(s, arrivals, beats, n), if e.Wrote? then [e.frame] else []);
    if e.Wrote? {
      FlattenOne(e.frame);
    }
  }

  // What entered the window, in order: the arrivals and the loop's own heartbeats.
  function Entered(s: Poller, arrivals: seq<seq<Frame>>, beats: seq<Frame>, n: nat): seq<Frame>
    requires n <= |arrivals| && n <= |beats|
  {
    if n == 0 then s.window
    else
      var e := EventAt(s, arrivals, beats, n - 1);
      Entered(s, arrivals, beats, n - 1) + arrivals[n - 1] + if e.Beat? then [e.frame] else []
  }

  lemma {:induction false} Moved(written: seq<Frame>, window: seq<Frame>, arrive: seq<Frame>)
    ensures window + arrive != [] ==>
              (written + [(window + arrive)[0]]) + (window + arrive)[1..] == (written + window) + arrive
    ensures window + arrive == [] ==> window == [] && arrive == []
  {
    var all := window + arrive;
    if all != [] {
      assert all == [all[0]] + all[1..];
    }
    assert |all| == |window| + |arrive|;
  }

  // Nothing is lost, duplicated or reordered between the window and the wire.
  lemma {:induction false} SendConservation(s: Poller, arrivals: seq<seq<Frame>>, beats: seq<Frame>, n: nat)
    requires |beats| == |arrivals| && n <= |arrivals|
    ensures Written(s, arrivals, beats, n) + Before(s, arrivals, beats, n).window == Entered(s, arrivals, beats, n)
  {
    if n > 0 {
      SendConservation(s, arrivals, beats, n - 1);
      Moved(Written(s, arrivals, beats, n - 1), Before(s, arrivals, beats, n - 1).window, arrivals[n - 1]);
      assert EventAt(s, arrivals, beats, n - 1) ==
             Turn(Before(s, arrivals, beats, n - 1), arrivals[n - 1], beats[n - 1]).1;
    }
  }
}
