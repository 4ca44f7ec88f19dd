/**
 The socket side of QNetTcpServer: READ and WRITE with their select timeouts, the receive thread,
 one turn of the send thread, and login.
 */
module TcpServer {
  import opened NetProtocol
  import opened Framing
  import opened Transport

  const LOGIN_SIZE := 76      // NET_HEAD_SIZE + sizeof(app_net_ctrl_login)
  const LOGIN_ACK_SIZE := 44  // NET_HEAD_SIZE + sizeof(app_net_ctrl_ack_login)
  const LOGIN_SUCCESS: u16 := 0
  const LOGIN_PASSWD_FAILE: u16 := 2

  // "admin" and "123456" with the terminating NUL.
  const ADMIN: seq<byte> := [97, 100, 109, 105, 110, 0]
  const PASSWD: seq<byte> := [49, 50, 51, 52, 53, 54, 0]

  // strcmp(field, text) == 0, for a text that includes its NUL and fits the field.
  predicate CStringEquals(field: seq<byte>, text: seq<byte>) {
    text <= field
  }

  predicate LoginAccepts(pkt: seq<byte>)
    requires |pkt| == LOGIN_SIZE
  {
    && TypeOf(pkt) == TYPE_CTRL && SubOf(pkt) == CTRL_LOGIN
    && CStringEquals(pkt[40..56], ADMIN) && CStringEquals(pkt[56..72], PASSWD)
  }

  // The acknowledgement of a login packet; the state is left unset when it was some other command.
  predicate IsLoginAck(ack: Frame, pkt: seq<byte>)
    requires |pkt| == LOGIN_SIZE
  {
    && IsPacket(ack, TYPE_CTRL, CTRL_LOGIN, LOGIN_ACK_SIZE)
    && (TypeOf(pkt) == TYPE_CTRL && SubOf(pkt) == CTRL_LOGIN ==>
          Htons(Load16(ack, 40)) == if LoginAccepts(pkt) then LOGIN_SUCCESS else LOGIN_PASSWD_FAILE)
  }

  lemma {:induction false} LoginState(ack: seq<byte>, answer: u16)
    requires |ack| == LOGIN_ACK_SIZE
    ensures ack[HEAD_SIZE..][..2] == Le16(Htons(answer)) ==> Htons(Load16(ack, 40)) == answer
  {
    assert ack[HEAD_SIZE..][..2] == ack[40..42];
    NetworkOrder16(answer, ack, 40);
  }

  class QNetTcpServer {
    var quit: int
    const sk: Socket
    const recvWindow: SlidingWindow
    const sendWindow: SlidingWindow

    constructor (sk: Socket)
      ensures this.sk == sk && quit == 0
      ensures fresh(recvWindow) && fresh(sendWindow) && recvWindow != sendWindow
      ensures recvWindow.frames == [] && sendWindow.frames == []
    {
      this.sk := sk;
      quit := 0;
      recvWindow := new SlidingWindow();
      sendWindow := new SlidingWindow();
    }

    // READ(sk, buf + off, len): the next len bytes of the stream or -1. A failure, at whatever byte,
    // has taken a beginning of the stream shorter than len. quit is set if and only if a select timed
    // out; a failed recv leaves it alone.
    method Read(buf: array<byte>, off: nat, len: nat) returns (ret: int, ghost timeout: bool)
      requires off + len <= buf.Length
      modifies `quit, sk`incoming, buf
      ensures ret == 0 || ret == -1
      ensures |sk.incoming| <= |old(sk.incoming)|
      ensures var k := |old(sk.incoming)| - |sk.incoming|;
              && k <= len && (ret == 0 <==> k == len)
              && sk.incoming == old(sk.incoming)[k..]
              && buf[..] == Splice(old(buf[..]), off, old(sk.incoming)[..k])
      ensures quit == if timeout then 1 else old(quit)
      ensures timeout ==> ret == -1
    {
      ghost var b0, stream := buf[..], sk.incoming;
      var left := len;
      var pos := 0;
      timeout := false;
      ReadNothing(b0, off, stream);
      while left > 0
        invariant left >= 0 && pos + left == len
        invariant 0 <= pos && sk.Taken(buf, b0, off, stream, pos)
        invariant quit == old(quit)
      {
        var n := sk.Select();
        if n <= 0 {
          quit := 1;
          return -1, true;
        }
        n := sk.RecvMore(buf, off, pos, left, b0, stream);
        if n <= 0 {
          return -1, false;
        }
        left := left - n;
        pos := pos + n;
      }
      return 0, false;
    }

    // WRITE(sk, buf, len): all of buf[..len] or -1 with a proper beginning of it on the wire. quit is
    // set if and only if a select timed out.
    method Write(buf: array<byte>, len: nat) returns (ret: int, ghost timeout: bool)
      requires len <= buf.Length
      modifies `quit, sk`outgoing
      ensures ret == 0 || ret == -1
      ensures |old(sk.outgoing)| <= |sk.outgoing|
      ensures var k := |sk.outgoing| - |old(sk.outgoing)|;
              && k <= len && (ret == 0 <==> k == len)
              && sk.outgoing == old(sk.outgoing) + buf[..k]
      ensures quit == if timeout then 1 else old(quit)
      ensures timeout ==> ret == -1
    {
      var left := len;
      var pos := 0;
      timeout := false;
      while left > 0
        invariant left >= 0 && pos + left == len
        invariant sk.outgoing == old(sk.outgoing) + buf[..pos]
        invariant quit == old(quit)
      {
        var n := sk.Select();
        if n <= 0 {
          quit := 1;
          return -1, true;
        }
        n := sk.Send(buf, pos, left);
        if n <= 0 {
          return -1, false;
        }
        assert buf[..pos + n] == buf[..pos] + buf[pos..pos + n];
        Assoc(old(sk.outgoing), buf[..pos], buf[pos..pos + n]);
        left := left - n;
        pos := pos + n;
      }
      return 0, false;
    }

    // One turn of the receive thread, on a stream that starts with the frame `first`, or that ends
    // inside it: the whole frame goes to the window, or nothing does and the thread is told to quit.
    method ReceiveFrame(ghost first: Frame) returns (ret: int)
      requires WellFormed(first)
      requires first <= sk.incoming || sk.incoming < first
      modifies `quit, sk`incoming, recvWindow
      ensures ret == 0 || ret == -1
      ensures ret == 0 ==> first <= old(sk.incoming) && sk.incoming == old(sk.incoming)[|first|..] && quit == old(quit)
      ensures ret == 0 ==> recvWindow.frames == old(recvWindow.frames) + [first]
      ensures ret == -1 ==> |sk.incoming| <= |old(sk.incoming)| < |sk.incoming| + |first| && quit == 1
      ensures ret == -1 ==> sk.incoming == old(sk.incoming)[|old(sk.incoming)| - |sk.incoming|..]
      ensures ret == -1 ==> recvWindow.frames == old(recvWindow.frames)
    {
      ghost var stream := sk.incoming;
      var headBuffer := new byte[HEAD_SIZE];
      ghost var timeout;
      ret, timeout := Read(headBuffer, 0, HEAD_SIZE);
      if ret == -1 {
        quit := 1;
        return;
      }
      ret := ReceiveBody(headBuffer, first, stream);
    }

    // The rest of the turn, after the header of `first` has been read off `stream`.
    method ReceiveBody(headBuffer: array<byte>, ghost first: Frame, ghost stream: seq<byte>) returns (ret: int)
      requires WellFormed(first) && (first <= stream || stream < first) && HEAD_SIZE <= |stream|
      requires headBuffer.Length == HEAD_SIZE && headBuffer[..] == stream[..HEAD_SIZE]
      requires sk.incoming == stream[HEAD_SIZE..]
      modifies `quit, sk`incoming, recvWindow
      ensures ret == 0 || ret == -1
      ensures ret == 0 ==> first <= stream && sk.incoming == stream[|first|..] && quit == old(quit)
      ensures ret == 0 ==> recvWindow.frames == old(recvWindow.frames) + [first]
      ensures ret == -1 ==> |sk.incoming| <= |stream| < |sk.incoming| + |first| && quit == 1
      ensures ret == -1 ==> sk.incoming == stream[|stream| - |sk.incoming|..]
      ensures ret == -1 ==> recvWindow.frames == old(recvWindow.frames)
    {
      HeadOfFrame(first, stream, headBuffer[..]);
      var len := LengthOf(headBuffer[..]);
      var dataBuffer := new byte[len];
      ghost var raw := dataBuffer[..];
      Memcpy(dataBuffer, headBuffer, HEAD_SIZE);
      assert headBuffer[..HEAD_SIZE] == headBuffer[..] == stream[..HEAD_SIZE];
      ghost var timeout;
      ret, timeout := Read(dataBuffer, HEAD_SIZE, len - HEAD_SIZE);
      ghost var k := |stream| - HEAD_SIZE - |sk.incoming|;
      DropDrop(stream, HEAD_SIZE, k);
      LongEnough(first, stream);
      if ret == -1 {
        quit := 1;
        return;
      }
      HeadAndBody(raw, stream);
      assert dataBuffer[..len] == dataBuffer[..];
      recvWindow.WriteDataToBuffer(len, dataBuffer);
    }

    // The receive thread, on a stream that is the concatenation of `fs` followed by a proper
    // beginning `tail` of one more frame `next`. It stops on a failed READ, or because the send
    // thread's WRITE timed out and set quit. Then the window has gained exactly the frames whose last
    // byte was read; a frame cut short by a failure is not among them.
    method RunRecvCmd(ghost fs: seq<Frame>, ghost tail: seq<byte>, ghost next: Frame) returns (ghost k: nat)
      requires quit == 0
      requires AllWellFormed(fs) && WellFormed(next) && tail < next
      requires sk.incoming == Flatten(fs) + tail
      modifies `quit, sk`incoming, recvWindow
      ensures quit == 1
      ensures k <= |fs| && recvWindow.frames == old(recvWindow.frames) + fs[..k]
      ensures |Flatten(fs[..k])| <= |old(sk.incoming)| - |sk.incoming|
      ensures k < |fs| ==> |old(sk.incoming)| - |sk.incoming| < |Flatten(fs[..k + 1])|
    {
      ghost var window, total := recvWindow.frames, |sk.incoming|;
      k := 0;
      NextBytes(fs, 0);
      while quit == 0
        invariant k <= |fs| && Received(fs, tail, k, window, total)
        invariant k < |fs| ==> |Flatten(fs[..k])| < |Flatten(fs[..k + 1])|
        invariant quit == 0 || quit == 1
        decreases |sk.incoming|, 1 - quit
      {
        var ret := RecvTurn(fs, tail, next, k, window, total);
        if ret == -1 {
          return;
        }
        k := k + 1;
        NextBytes(fs, k);
        var writeTimedOut: bool := *;
        if writeTimedOut {
          quit := 1;
        }
      }
    }

    // k frames have gone from the stream to the window.
    ghost predicate Received(fs: seq<Frame>, tail: seq<byte>, k: nat, window: seq<Frame>, total: nat)
      requires k <= |fs|
      reads sk`incoming, recvWindow
    {
      && recvWindow.frames == window + fs[..k]
      && sk.incoming == Flatten(fs[k..]) + tail
      && |Flatten(fs[..k])| == total - |sk.incoming|
    }

    method RecvTurn(ghost fs: seq<Frame>, ghost tail: seq<byte>, ghost next: Frame, ghost k: nat,
                    ghost window: seq<Frame>, ghost total: nat)
      returns (ret: int)
      requires quit == 0
      requires AllWellFormed(fs) && WellFormed(next) && tail < next
      requires k <= |fs| && Received(fs, tail, k, window, total)
      modifies `quit, sk`incoming, recvWindow
      ensures ret == 0 || ret == -1
      ensures ret == 0 ==> quit == 0 && k < |fs| && Received(fs, tail, k + 1, window, total)
      ensures ret == 0 ==> |sk.incoming| < |old(sk.incoming)|
      ensures ret == -1 ==> quit == 1 && recvWindow.frames == window + fs[..k]
      ensures ret == -1 ==> |Flatten(fs[..k])| <= total - |sk.incoming|
      ensures ret == -1 && k < |fs| ==> total - |sk.incoming| < |Flatten(fs[..k + 1])|
    {
      NextFrame(fs[k..], tail, next);
      NextBytes(fs, k);
      ret := ReceiveFrame(Coming(fs[k..], next));
      if ret == 0 {
        assert fs[..k + 1] == fs[..k] + [fs[k]];
        assert fs[k + 1..] == fs[k..][1..];
      }
    }

    // login: a fixed-size read, the credential check, and an acknowledgement written directly to
    // the socket. The result of that WRITE is ignored, so a beginning of the packet may be all
    // that reaches the wire; accepting does not depend on it.
    method Login() returns (loginstate: int)
      modifies `quit, sk`incoming, sk`outgoing
      ensures loginstate == 1 || loginstate == -1
      ensures |sk.incoming| <= |old(sk.incoming)| <= |sk.incoming| + 76
      ensures sk.incoming == old(sk.incoming)[|old(sk.incoming)| - |sk.incoming|..]
      ensures var taken := old(sk.incoming)[..|old(sk.incoming)| - |sk.incoming|];
              && (loginstate == 1 <==> |taken| == 76 && LoginAccepts(taken))
              && (|taken| < 76 ==> sk.outgoing == old(sk.outgoing))
              && (|taken| == 76 ==>
                    && |old(sk.outgoing)| <= |sk.outgoing| <= |old(sk.outgoing)| + 44
                    && exists ack: Frame :: IsLoginAck(ack, taken)
                         && sk.outgoing == old(sk.outgoing) + ack[..|sk.outgoing| - |old(sk.outgoing)|])
    {
      var buffer := new byte[LOGIN_SIZE];
      var ret;
      ghost var timeout;
      ret, timeout := Read(buffer, 0, LOGIN_SIZE);
      if ret == -1 {
        return -1;
      }
      ghost var taken := buffer[..];
      assert taken == old(sk.incoming)[..LOGIN_SIZE];
      var bufferAck;
      loginstate, bufferAck := AnswerLogin(buffer);
      ghost var ack := bufferAck[..];
      ret, timeout := Write(bufferAck, LOGIN_ACK_SIZE);
      ghost var k := |sk.outgoing| - |old(sk.outgoing)|;
      assert bufferAck[..k] == ack[..k];
    }

    // The second half of login: the verdict and the acknowledgement packet.
    method AnswerLogin(buffer: array<byte>) returns (loginstate: int, bufferAck: array<byte>)
      requires buffer.Length == LOGIN_SIZE
      ensures loginstate == 1 || loginstate == -1
      ensures loginstate == 1 <==> LoginAccepts(buffer[..])
      ensures fresh(bufferAck) && bufferAck.Length == LOGIN_ACK_SIZE && IsLoginAck(bufferAck[..], buffer[..])
    {
      ghost var pkt := buffer[..];
      assert buffer[40..56] == pkt[40..56] && buffer[56..72] == pkt[56..72];
      var known := TypeOf(buffer[..]) == TYPE_CTRL && SubOf(buffer[..]) == CTRL_LOGIN;
      var valid := CStringEquals(buffer[40..56], ADMIN) && CStringEquals(buffer[56..72], PASSWD);
      loginstate := if known && valid then 1 else -1;
      bufferAck := LoginAck(known, if valid then LOGIN_SUCCESS else LOGIN_PASSWD_FAILE);
      assert buffer[..] == pkt;
    }

    method LoginAck(known: bool, answer: u16) returns (bufferAck: array<byte>)
      ensures fresh(bufferAck) && bufferAck.Length == LOGIN_ACK_SIZE
      ensures IsPacket(bufferAck[..], TYPE_CTRL, CTRL_LOGIN, LOGIN_ACK_SIZE)
      ensures known ==> Htons(Load16(bufferAck[..], 40)) == answer
    {
      bufferAck := new byte[LOGIN_ACK_SIZE];
      if known {
        Store(bufferAck, HEAD_SIZE, Le16(Htons(answer)));
        assert bufferAck[..HEAD_SIZE + 2][HEAD_SIZE..] == bufferAck[HEAD_SIZE..][..2];
      }
      ghost var payload := bufferAck[HEAD_SIZE..];
      WriteHead(bufferAck, TYPE_CTRL, CTRL_LOGIN, 0, LOGIN_ACK_SIZE);
      ghost var ack := bufferAck[..];
      assert ack[..HEAD_SIZE] == bufferAck[..HEAD_SIZE] && ack[HEAD_SIZE..] == payload;
      LoginState(ack, answer);
    }

    // QNetServer's session thread, its receive side: log in, then receive. On a stream that opens
    // with a login packet the framed reader starts on the next frame.
    method RunSubServer(ghost login: Frame, ghost fs: seq<Frame>, ghost tail: seq<byte>, ghost next: Frame)
      returns (accepted: bool, ghost k: nat)
      requires |login| == 76
      requires AllWellFormed(fs) && WellFormed(next) && tail < next
      requires sk.incoming == login + (Flatten(fs) + tail)
      modifies `quit, sk, recvWindow
      ensures accepted ==> LoginAccepts(login)
      ensures accepted ==> quit == 1 && k <= |fs| && recvWindow.frames == old(recvWindow.frames) + fs[..k]
      ensures accepted ==> |login + Flatten(fs[..k])| <= |old(sk.incoming)| - |sk.incoming|
      ensures accepted && k < |fs| ==> |old(sk.incoming)| - |sk.incoming| < |login + Flatten(fs[..k + 1])|
      ensures !accepted ==> recvWindow.frames == old(recvWindow.frames)
    {
      k := 0;
      var state := Login();
      accepted := state == 1;
      if accepted {
        assert old(sk.incoming)[..76] == login;
        quit := 0;
        k := RunRecvCmd(fs, tail, next);
      }
    }

    // One turn of the send thread: the frame at the front of the window is written whole, or the
    // write fails with a proper beginning of it on the wire. Its result is not looked at; quit is set if
    // and only if a select timed out.
    method RunSendCmdOnce(buffer: array<byte>) returns (ret: int, ghost timeout: bool)
      requires sendWindow.frames != [] ==> 0 < |sendWindow.frames[0]| <= buffer.Length
      modifies `quit, sk`outgoing, sendWindow, buffer
      ensures old(sendWindow.frames) == [] ==> ret == 0 && sk.outgoing == old(sk.outgoing) && sendWindow.frames == []
      ensures |old(sk.outgoing)| <= |sk.outgoing|
      ensures quit == (if timeout then 1 else old(quit)) && (timeout ==> ret == -1)
      ensures old(sendWindow.frames) != [] ==>
                var (f, k) := (old(sendWindow.frames)[0], |sk.outgoing| - |old(sk.outgoing)|);
                && sendWindow.frames == old(sendWindow.frames)[1..]
                && k <= |f| && (ret == 0 <==> k == |f|)
                && sk.outgoing == old(sk.outgoing) + f[..k]
    {
      var len := sendWindow.ReadDataToBuffer(buffer);
      ghost var f := buffer[..len];
      ret, timeout := 0, false;
      if len > 0 {
        ret, timeout := Write(buffer, len);
        ghost var k := |sk.outgoing| - |old(sk.outgoing)|;
        assert buffer[..k] == f[..k];
      }
    }
  }

  ghost function Coming(fs: seq<Frame>, next: Frame): Frame {
    if fs == [] then next else fs[0]
  }

  // The stream starts with the frame the reader is at, whole or cut short.
  lemma {:induction false} NextFrame(fs: seq<Frame>, tail: seq<byte>, next: Frame)
    requires AllWellFormed(fs) && WellFormed(next) && tail < next
    ensures WellFormed(Coming(fs, next))
    ensures fs == [] ==> Flatten(fs) + tail < next
    ensures fs != [] ==> fs[0] <= Flatten(fs) + tail
    ensures fs != [] ==> (Flatten(fs) + tail)[|fs[0]|..] == Flatten(fs[1..]) + tail
  {
    if fs == [] {
      assert Flatten(fs) + tail == tail;
    } else {
      Assoc(fs[0], Flatten(fs[1..]), tail);
      Front(fs[0], Flatten(fs[1..]) + tail);
    }
  }

  lemma {:induction false} Advance(fs: seq<Frame>, k: nat)
    requires k < |fs|
    ensures |Flatten(fs[..k + 1])| == |Flatten(fs[..k])| + |fs[k]|
  {
    assert fs[..k + 1] == fs[..k] + [fs[k]];
    FlattenAppend(fs[..k], [fs[k]]);
    FlattenOne(fs[k]);
  }

  lemma {:induction false} NextBytes(fs: seq<Frame>, k: nat)
    requires AllWellFormed(fs) && k <= |fs|
    ensures k < |fs| ==> |Flatten(fs[..k])| < |Flatten(fs[..k + 1])| == |Flatten(fs[..k])| + |fs[k]|
  {
    if k < |fs| {
      assert WellFormed(fs[k]);
      Advance(fs, k);
    }
  }

  lemma {:induction false} TwoFrames(fs: seq<Frame>)
    requires AllWellFormed(fs) && |fs| >= 2
    ensures |Flatten(fs)| >= 2 * HEAD_SIZE
  {
    assert WellFormed(fs[0]) && WellFormed(fs[1]);
    assert Flatten(fs) == fs[0] + Flatten(fs[1..]) && Flatten(fs[1..]) == fs[1] + Flatten(fs[2..]);
  }

  // Login reads a fixed 76 bytes off a stream of frames. That ends on a frame boundary, so that
  // the framed reader starts aligned, exactly when the client's first frame has that size.
  lemma {:induction false} LoginAlignment(fs: seq<Frame>)
    requires AllWellFormed(fs) && |Flatten(fs)| >= LOGIN_SIZE
    ensures (exists k: nat :: k <= |fs| && |Flatten(fs[..k])| == LOGIN_SIZE) <==> |fs[0]| == 76
    ensures |fs[0]| == 76 ==> Flatten(fs)[LOGIN_SIZE..] == Flatten(fs[1..])
  {
    NotEmpty(fs);
    assert fs != [] && WellFormed(fs[0]);
    FlattenOne(fs[0]);
    assert fs[..1] == [fs[0]];
    forall k: nat | k <= |fs| && |Flatten(fs[..k])| == LOGIN_SIZE
      ensures k == 1
    {
      if k >= 2 {
        TwoFrames(fs[..k]);
      }
    }
  }
}
