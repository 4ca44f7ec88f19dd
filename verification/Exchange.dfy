/**
 The file download as a stop-and-wait exchange, apart from the network: the requests on their way to
 the server, the acknowledgements on their way back, and what the two ends do with them
 (QAntProtocol.cpp:127-169, 204-236; test_client.c:42-73, 116-145, 172-177).
 */
module Exchange {
  import opened Wrappers
  import opened NetProtocol
  import opened Framing
  import opened AntProtocol
  import opened FileClient
  import opened Dispatch
  import opened Meter
  import ServerRegistry

  // The file's length is announced in 32 bits.
  type Content = c: seq<byte> | |c| < 0x1_0000_0000

  datatype Exchange = Exchange(
    asked: bool,          // the client has requested the file by name
    acked: bool,          // history: that request's acknowledgement was processed
    sends: nat,           // history: the chunks requested
    d: Download,          // the client's globals
    file: FileState,      // the server's FILE pointer
    reqs: seq<Frame>,
    acks: seq<Frame>)

  const START := Exchange(false, false, 0, Download(0, 0, 0, 0, [], false), NoFile, [], [])

  datatype Move =
    | Ask(f: Frame)
    | Begin(f: Frame)
    | Serve(env: Env, after: FileState, ack: Frame)
    | Take(reply: seq<Frame>)

  predicate IsStart(f: Frame) {
    HEAD_SIZE <= |f| && TypeOf(f) == TYPE_FILE && SubOf(f) == FILE_START
  }

  predicate IsSend(f: Frame) {
    HEAD_SIZE <= |f| && TypeOf(f) == TYPE_FILE && SubOf(f) == FILE_SEND
  }

  // The callback of the frame has a defined outcome: it reads no more than the frame has, and the file
  // that it writes is open. For a chunk shorter than its own head the length that is written would wrap
  // around (test_client.c:44-47).
  predicate Defined(d: Download, ack: Frame) {
    (IsStart(ack) ==> HEAD_SIZE + 4 <= |ack|) && (IsSend(ack) ==> SEND_HEAD <= |ack| && d.isOpen)
  }

  // What an acknowledgement does to the client: the callback of its pair runs.
  function Taken(d: Download, ack: Frame): Download {
    if IsStart(ack) && HEAD_SIZE + 4 <= |ack| then d.(fileLen := Field32(ack, HEAD_SIZE))
    else if IsSend(ack) && SEND_HEAD <= |ack| then AfterChunk(d, ack[SEND_HEAD..])
    else d
  }

  // A chunk that was full is followed by the request for the next.
  predicate Replies(d: Download, ack: Frame, reply: seq<Frame>) {
    if IsSend(ack) && SEND_HEAD + CHUNK <= |ack| then
      |reply| == 1 && SendRequest(reply[0], d.serial + 1)
    else
      reply == []
  }

  // The server finds the content `content` under the name it is asked for.
  ghost predicate Can(x: Exchange, m: Move, content: Content) {
    match m
    case Ask(f) => !x.asked && StartRequest(f)
    case Begin(f) => x.asked && x.sends == 0 && SendRequest(f, 0)
    case Serve(env, after, ack) =>
      && x.reqs != [] && Sized(x.reqs[0]) && GoodFile(x.file)
      && (IsStart(x.reqs[0]) ==> env.found == Some(content))
      && Answers(x.reqs[0], env, x.file, after, [ack])
    case Take(reply) => x.acks != [] && Replies(x.d, x.acks[0], reply)
  }

  function Next(x: Exchange, m: Move): Exchange
    requires m.Serve? ==> x.reqs != []
    requires m.Take? ==> x.acks != []
  {
    match m
    case Ask(f) => x.(asked := true, reqs := x.reqs + [f])
    case Begin(f) => x.(d := Begun(x.d.fileLen), sends := 1, reqs := x.reqs + [f])
    case Serve(_, after, ack) => x.(file := after, reqs := x.reqs[1..], acks := x.acks + [ack])
    case Take(reply) =>
      x.(d := Taken(x.d, x.acks[0]), acked := x.acked || IsStart(x.acks[0]), sends := x.sends + |reply|,
         reqs := x.reqs + reply, acks := x.acks[1..])
  }

  /* The invariant */

  function From(content: Content, k: nat): (r: nat)
    ensures r <= |content|
  {
    Min(CHUNK * k, |content|)
  }

  // Chunk number k of the file; the one after the last full one is short.
  function Chunk(content: Content, k: nat): seq<byte> {
    content[From(content, k)..From(content, k + 1)]
  }

  // The chunks that have come back.
  function Got(x: Exchange): nat {
    if x.sends > 0 && x.d.isOpen then x.sends - 1 else x.sends
  }

  // The server's file after it has read chunk k in one piece.
  function FileAfter(content: Content, k: nat): FileState {
    if |Chunk(content, k)| < CHUNK then Closed else Open(content, CHUNK * (k + 1))
  }

  predicate StartAsked(x: Exchange) { x.asked && x.file == NoFile }
  predicate StartAnswered(x: Exchange) { x.asked && x.file != NoFile && !x.acked }
  predicate ChunkAsked(x: Exchange, content: Content) {
    x.sends > 0 && x.d.isOpen && (x.file == NoFile || x.file == Open(content, CHUNK * (x.sends - 1)))
  }
  predicate ChunkAnswered(x: Exchange, content: Content) {
    x.sends > 0 && x.d.isOpen && !ChunkAsked(x, content)
  }

  function One(b: bool): nat { if b then 1 else 0 }

  predicate StartAck(f: Frame, content: Content) {
    IsPacket(f, TYPE_FILE, FILE_START, HEAD_SIZE + 4) && Field32(f, HEAD_SIZE) == |content|
  }

  predicate SendAck(f: Frame, serial: nat, content: Content) {
    && IsPacket(f, TYPE_FILE, FILE_SEND, SEND_HEAD + |Chunk(content, serial)|)
    && Field32(f, HEAD_SIZE) == serial
    && f[SEND_HEAD..] == Chunk(content, serial)
  }

  // What is under way: the file's name and at most one chunk, each as request or acknowledgement.
  predicate UnderWay(x: Exchange, content: Content) {
    && |x.reqs| == One(StartAsked(x)) + One(ChunkAsked(x, content))
    && |x.acks| == One(StartAnswered(x)) + One(ChunkAnswered(x, content))
    && (StartAsked(x) ==> StartRequest(x.reqs[0]))
    && (ChunkAsked(x, content) ==> SendRequest(x.reqs[|x.reqs| - 1], x.sends - 1))
    && (StartAnswered(x) ==> StartAck(x.acks[0], content))
    && (ChunkAnswered(x, content) ==> SendAck(x.acks[|x.acks| - 1], x.sends - 1, content))
  }

  predicate ClientGood(x: Exchange, content: Content) {
    var n := |content| / CHUNK;
    && (x.sends > 0 || x.acked ==> x.asked)
    && (x.acked ==> x.d.fileLen == |content|)
    && (x.sends == 0 ==> !x.d.isOpen && x.d.serial == 0 && x.d.count == 0 && x.d.written == [])
    && (x.sends > 0 ==>
          && x.sends <= n + 1 && (!x.d.isOpen ==> x.sends == n + 1)
          && x.d.serial == x.sends - 1
          && x.d.count == From(content, Got(x))
          && x.d.written == content[..From(content, Got(x))]
          && (Got(x) > 0 ==> x.acked)
          && x.d.viewinfo == View(|content|, Got(x)))
  }

  predicate ServerGood(x: Exchange, content: Content) {
    && (x.file != NoFile ==> x.asked) && (x.acked ==> x.file != NoFile)
    && (x.sends == 0 ==> x.file == NoFile || x.file == Open(content, 0))
    && (x.sends > 0 && x.d.isOpen ==>
          || (x.file == NoFile && x.sends == 1)
          || x.file == Open(content, CHUNK * (x.sends - 1))
          || x.file == FileAfter(content, x.sends - 1))
    && (x.sends > 0 && !x.d.isOpen ==> x.file == Closed && x.acked)
  }

  predicate Inv(x: Exchange, content: Content) {
    ClientGood(x, content) && ServerGood(x, content) && UnderWay(x, content)
  }

  lemma {:induction false} ChunkSizes(content: Content, k: nat)
    ensures k < |content| / CHUNK ==> |Chunk(content, k)| == CHUNK && From(content, k + 1) == CHUNK * (k + 1)
    ensures k <= |content| / CHUNK ==> From(content, k) == CHUNK * k
    ensures k == |content| / CHUNK ==> |Chunk(content, k)| == |content| % CHUNK && From(content, k + 1) == |content|
    ensures content[..From(content, k)] + Chunk(content, k) == content[..From(content, k + 1)]
  {
  }

  lemma {:induction false} StartGood(content: Content)
    ensures Inv(START, content)
  {
  }

  lemma {:induction false} AskKeeps(x: Exchange, f: Frame, content: Content)
    requires Inv(x, content) && Can(x, Ask(f), content)
    ensures Inv(Next(x, Ask(f)), content)
  {
  }

  lemma {:induction false} BeginKeeps(x: Exchange, f: Frame, content: Content)
    requires Inv(x, content) && Can(x, Begin(f), content)
    ensures Inv(Next(x, Begin(f)), content)
  {
    assert content[..0] == [];
  }

  // The server's answer to the request for the file.
  lemma {:induction false} StartSized(f: Frame)
    requires StartRequest(f)
    ensures Sized(f) && IsStart(f) && Handler(TypeOf(f), SubOf(f)) == Some(ServerRegistry.FileStartAck)
    ensures f[HEAD_SIZE..][0] != 0
  {
    PacketDecodes(f, TYPE_FILE, FILE_START, |f|);
    assert f[HEAD_SIZE..][0] == f[HEAD_SIZE];
  }

  lemma Announced(n: nat)
    requires n < 0x1_0000_0000
    ensures n % 0x1_0000_0000 == n
  {
  }

  lemma {:induction false} StartServed(f: Frame, env: Env, file: FileState, after: FileState, ack: Frame,
                                       content: Content)
    requires StartRequest(f) && GoodFile(file) && env.found == Some(content)
    requires Sized(f) && Answers(f, env, file, after, [ack])
    ensures after == Open(content, 0) && StartAck(ack, content)
  {
    StartSized(f);
    Announced(|content|);
    var resp := [ack];
    assert StartReply(resp[0], Requested(f[HEAD_SIZE..], env.found), file, after);
    assert Requested(f[HEAD_SIZE..], env.found) == Some(content);
  }

  // The server's answer to the request for the chunk it stands at.
  lemma {:induction false} SendServed(f: Frame, env: Env, k: nat, after: FileState, ack: Frame, content: Content)
    requires SendRequest(f, k) && CHUNK * k <= |content|
    ensures Sized(f) && IsSend(f)
    ensures Answers(f, env, Open(content, CHUNK * k), after, [ack]) ==>
              after == FileAfter(content, k) && SendAck(ack, k, content)
  {
    hide Field32, Field16, HeadPkg, SendSerial, SendLen, TypeOf, SubOf;
    PacketDecodes(f, TYPE_FILE, FILE_SEND, |f|);
  }

  lemma {:induction false} ServeKeeps(x: Exchange, env: Env, after: FileState, ack: Frame, content: Content)
    requires Inv(x, content) && Can(x, Serve(env, after, ack), content)
    ensures Inv(Next(x, Serve(env, after, ack)), content)
  {
    hide Field32, Field16, HeadPkg, View, TypeOf, SubOf, Answers;
    if StartAsked(x) {
      StartSized(x.reqs[0]);
      StartServed(x.reqs[0], env, x.file, after, ack, content);
      StartServedKeeps(x, env, ack, content);
    } else {
      var k := x.sends - 1;
      ChunkSizes(content, k);
      SendServed(x.reqs[0], env, k, after, ack, content);
      SendServedKeeps(x, env, ack, content);
    }
  }

  lemma {:induction false} StartServedKeeps(x: Exchange, env: Env, ack: Frame, content: Content)
    requires Inv(x, content) && StartAsked(x) && StartAck(ack, content)
    ensures Inv(Next(x, Serve(env, Open(content, 0), ack)), content)
  {
    hide StartRequest, SendRequest, StartAck, SendAck, View, From, Chunk;
  }

  lemma {:induction false} SendServedKeeps(x: Exchange, env: Env, ack: Frame, content: Content)
    requires Inv(x, content) && !StartAsked(x) && ChunkAsked(x, content) && SendAck(ack, x.sends - 1, content)
    ensures Inv(Next(x, Serve(env, FileAfter(content, x.sends - 1), ack)), content)
  {
    hide StartRequest, SendRequest, StartAck, SendAck, View, From;
  }

  // The acknowledgement that the client takes first is its file's length or its next chunk.
  lemma {:induction false} AckDecodes(ack: Frame, k: nat, content: Content)
    ensures StartAck(ack, content) ==> IsStart(ack) && !IsSend(ack) && HEAD_SIZE + 4 <= |ack|
    ensures SendAck(ack, k, content) ==> ChunkBack(ack, Chunk(content, k))
  {
    if StartAck(ack, content) {
      PacketDecodes(ack, TYPE_FILE, FILE_START, |ack|);
    }
    if SendAck(ack, k, content) {
      PacketDecodes(ack, TYPE_FILE, FILE_SEND, |ack|);
    }
  }

  lemma {:induction false} NextAck(x: Exchange, content: Content)
    requires Inv(x, content) && x.acks != []
    ensures StartAnswered(x) ==> IsStart(x.acks[0]) && !IsSend(x.acks[0])
    ensures !StartAnswered(x) ==> ChunkAnswered(x, content) && ChunkBack(x.acks[0], Chunk(content, x.sends - 1))
  {
    hide ClientGood, ServerGood, StartAck, SendAck, Chunk;
    if StartAnswered(x) {
      AckDecodes(x.acks[0], 0, content);
    } else {
      AckDecodes(x.acks[0], x.sends - 1, content);
    }
  }

  lemma {:induction false} TakeKeeps(x: Exchange, reply: seq<Frame>, content: Content)
    requires Inv(x, content) && Can(x, Take(reply), content)
    ensures Inv(Next(x, Take(reply)), content)
  {
    hide Inv, Next, Chunk, ChunkBack, StartAnswered, ChunkAnswered;
    NextAck(x, content);
    if StartAnswered(x) {
      StartTakenKeeps(x, reply, content);
    } else {
      ChunkTaken(x, reply, content);
    }
  }

  // The acknowledgement brings this chunk.
  predicate ChunkBack(ack: Frame, chunk: seq<byte>) {
    IsSend(ack) && !IsStart(ack) && |ack| == SEND_HEAD + |chunk| && ack[SEND_HEAD..] == chunk
  }

  lemma {:induction false} ChunkTaken(x: Exchange, reply: seq<Frame>, content: Content)
    requires Inv(x, content) && !StartAnswered(x) && ChunkAnswered(x, content)
    requires x.acks != [] && ChunkBack(x.acks[0], Chunk(content, x.sends - 1)) && Replies(x.d, x.acks[0], reply)
    ensures Inv(Next(x, Take(reply)), content)
  {
    var k := x.sends - 1;
    var e := AfterChunk(x.d, Chunk(content, k));
    ChunkSizes(content, k);
    TakenState(x, reply, content);
    hide Inv, AfterChunk, Holds, Next;
    if |Chunk(content, k)| < CHUNK {
      LastTakenKeeps(x, e, content);
    } else {
      ChunkTakenKeeps(x, e, reply, content);
    }
  }

  lemma {:induction false} TakenState(x: Exchange, reply: seq<Frame>, content: Content)
    requires Inv(x, content) && !StartAnswered(x) && ChunkAnswered(x, content)
    requires x.acks != [] && ChunkBack(x.acks[0], Chunk(content, x.sends - 1)) && Replies(x.d, x.acks[0], reply)
    ensures var k := x.sends - 1;
            var e := AfterChunk(x.d, Chunk(content, k));
            && k <= |content| / CHUNK && Holds(e, k + 1, content)
            && (if |Chunk(content, k)| < CHUNK then
                  e.serial == k && !e.isOpen && Next(x, Take(reply)) == x.(d := e, acks := x.acks[1..])
                else
                  && e.serial == k + 1 && e.isOpen && |reply| == 1 && SendRequest(reply[0], k + 1)
                  && Next(x, Take(reply)) ==
                     x.(d := e, sends := x.sends + 1, reqs := x.reqs + reply, acks := x.acks[1..]))
  {
    hide AfterChunk, View, Field32, Field16, HeadPkg, TypeOf, SubOf;
    NextChunk(x.d, x.sends - 1, content);
    assert x.reqs + [] == x.reqs;
  }

  lemma {:induction false} StartTakenKeeps(x: Exchange, reply: seq<Frame>, content: Content)
    requires Inv(x, content) && StartAnswered(x)
    requires IsStart(x.acks[0]) && !IsSend(x.acks[0]) && reply == []
    ensures Inv(Next(x, Take(reply)), content)
  {
    hide StartRequest, SendRequest, SendAck, View, From, Chunk, HeadPkg;
  }

  // The client's globals when it has k chunks.
  predicate Holds(d: Download, k: nat, content: Content) {
    && d.fileLen == |content| && d.count == From(content, k)
    && d.written == content[..From(content, k)] && d.viewinfo == View(|content|, k)
  }

  lemma {:induction false} NextChunk(d: Download, k: nat, content: Content)
    requires k <= |content| / CHUNK && Holds(d, k, content)
    ensures var e := AfterChunk(d, Chunk(content, k));
            && Holds(e, k + 1, content)
            && (if |Chunk(content, k)| < CHUNK then e.serial == d.serial && !e.isOpen
                else e.serial == d.serial + 1 && e.isOpen == d.isOpen)
  {
    hide Threshold;
    ChunkSizes(content, k);
    assert From(content, k + 1) == Counted(|content|, k + 1);
  }

  lemma {:induction false} ChunkTakenKeeps(x: Exchange, e: Download, reply: seq<Frame>, content: Content)
    requires Inv(x, content) && !StartAnswered(x) && ChunkAnswered(x, content)
    requires var k := x.sends - 1;
             && |Chunk(content, k)| == CHUNK && k < |content| / CHUNK
             && Holds(e, k + 1, content) && e.serial == k + 1 && e.isOpen
             && |reply| == 1 && SendRequest(reply[0], k + 1)
    ensures Inv(x.(d := e, sends := x.sends + 1, reqs := x.reqs + reply, acks := x.acks[1..]), content)
  {
  }

  lemma {:induction false} LastTakenKeeps(x: Exchange, e: Download, content: Content)
    requires Inv(x, content) && !StartAnswered(x) && ChunkAnswered(x, content)
    requires var k := x.sends - 1;
             && |Chunk(content, k)| < CHUNK && k == |content| / CHUNK
             && Holds(e, k + 1, content) && e.serial == k && !e.isOpen
    ensures Inv(x.(d := e, acks := x.acks[1..]), content)
  {
  }

  /* What it means */

  function ChunkMoves(fs: seq<Frame>): nat {
    if fs == [] then 0 else One(IsSend(fs[0])) + ChunkMoves(fs[1..])
  }

  // The bytes in the chunk acknowledgement under way.
  function BytesUnderWay(acks: seq<Frame>): nat {
    if acks == [] then 0
    else (if IsSend(acks[0]) && SEND_HEAD <= |acks[0]| then |acks[0]| - SEND_HEAD else 0) + BytesUnderWay(acks[1..])
  }

  // At every moment: what has been written is a beginning of the file; at most one chunk is under
  // way; while the transfer runs, serial number and byte count agree and the server's position is
  // the count plus the bytes under way; and the server only ever reads a file that is open.
  ghost predicate Safe(x: Exchange, content: Content) {
    && x.d.written <= content && x.d.count == |x.d.written|
    && ChunkMoves(x.reqs) + ChunkMoves(x.acks) == One(x.sends > 0 && x.d.isOpen)
    && x.sends <= |content| / CHUNK + 1
    && (x.d.isOpen ==> x.d.serial * CHUNK == x.d.count && x.sends == x.d.serial + 1)
    && (x.file.Open? ==> x.file.content == content && x.file.pos == x.d.count + BytesUnderWay(x.acks))
    && (x.reqs != [] && IsSend(x.reqs[0]) ==> x.file == Open(content, x.d.count))
    && (x.acks != [] && IsSend(x.acks[0]) ==> x.d.isOpen)
  }

  // The transfer has ended: the client has the file, after one request for each full chunk and one
  // more, and both ends have closed.
  ghost predicate Complete(x: Exchange, content: Content) {
    && x.d.written == content && x.d.count == |content|
    && x.sends == |content| / CHUNK + 1 && x.d.serial == |content| / CHUNK
    && x.file == Closed && x.reqs == [] && x.acks == []
  }

  lemma {:induction false} InvSafe(x: Exchange, content: Content)
    requires Inv(x, content)
    ensures Safe(x, content)
    ensures x.sends > 0 && !x.d.isOpen ==> Complete(x, content)
    ensures ChunkAnswered(x, content) ==> (x.file == Closed <==> |Chunk(content, x.sends - 1)| < CHUNK)
  {
    hide StartRequest, SendRequest, StartAck, SendAck, View, ChunkMoves, BytesUnderWay, IsSend;
    InvMoves(x, content);
    if x.sends > 0 {
      ChunkSizes(content, x.sends - 1);
      ChunkSizes(content, x.sends);
    }
  }

  lemma {:induction false} InvMoves(x: Exchange, content: Content)
    requires Inv(x, content)
    ensures ChunkMoves(x.reqs) == One(ChunkAsked(x, content)) && ChunkMoves(x.acks) == One(ChunkAnswered(x, content))
    ensures BytesUnderWay(x.acks) == if ChunkAnswered(x, content) then |Chunk(content, x.sends - 1)| else 0
    ensures x.reqs != [] && IsSend(x.reqs[0]) ==> ChunkAsked(x, content) && !StartAsked(x)
    ensures x.acks != [] && IsSend(x.acks[0]) ==> ChunkAnswered(x, content)
  {
    hide Field32, Field16, HeadPkg, View;
    if StartAsked(x) {
      PacketDecodes(x.reqs[0], TYPE_FILE, FILE_START, |x.reqs[0]|);
    }
    if ChunkAsked(x, content) {
      var f := x.reqs[|x.reqs| - 1];
      PacketDecodes(f, TYPE_FILE, FILE_SEND, |f|);
    }
    if StartAnswered(x) {
      AckDecodes(x.acks[0], 0, content);
    }
    if ChunkAnswered(x, content) {
      AckDecodes(x.acks[|x.acks| - 1], x.sends - 1, content);
    }
    hide TypeOf, SubOf;
    AtMostTwo(x.reqs, StartAsked(x), ChunkAsked(x, content));
    AtMostTwo(x.acks, StartAnswered(x), ChunkAnswered(x, content));
  }

  // Perhaps the file's name, then perhaps one chunk.
  lemma {:induction false} AtMostTwo(fs: seq<Frame>, name: bool, chunk: bool)
    requires |fs| == One(name) + One(chunk)
    requires name ==> IsStart(fs[0]) && !IsSend(fs[0])
    requires chunk ==> IsSend(fs[|fs| - 1])
    ensures ChunkMoves(fs) == One(chunk)
    ensures BytesUnderWay(fs) == if chunk && SEND_HEAD <= |fs[|fs| - 1]| then |fs[|fs| - 1]| - SEND_HEAD else 0
    ensures fs != [] && IsSend(fs[0]) ==> chunk && !name
  {
    hide IsStart, IsSend;
    if fs != [] {
      var rest := fs[1..];
      if |fs| == 2 {
        assert rest == [fs[1]] && rest[1..] == [];
        assert BytesUnderWay(rest[1..]) == 0 && ChunkMoves(rest[1..]) == 0;
      } else {
        assert rest == [] && BytesUnderWay(rest) == 0 && ChunkMoves(rest) == 0;
      }
    }
  }
}
