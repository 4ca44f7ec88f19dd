/**
 The packets of net_protocol.h in numerals: every offset, size, command number and field value that
 the other modules name, written out byte by byte, so that the two ends cannot agree on a layout that
 is not the one of the structs. All statements are equivalences with the predicates that the handlers,
 the builders and the step system are specified by.
 */
module WireFormat {
  import opened Wrappers
  import opened NetProtocol
  import opened Framing
  import opened FileList
  import opened AntProtocol
  import opened FileClient
  import D = Dispatch
  import X = Exchange
  import Client = TcpClient
  import Server = TcpServer
  import S = ServerRegistry

  // Numbers in network order.
  function Num16(f: seq<byte>, at: nat): nat
    requires at + 2 <= |f|
  {
    256 * (f[at] as int) + f[at + 1]
  }

  function Num32(f: seq<byte>, at: nat): nat
    requires at + 4 <= |f|
  {
    16777216 * (f[at] as int) + 65536 * (f[at + 1] as int) + 256 * (f[at + 2] as int) + f[at + 3]
  }

  // Margic, Length, CmdType, Version, CmdSubType, and zeros up to the payload.
  predicate HasHeader(f: Frame, cmdType: nat, subType: nat) {
    && 40 <= |f| < 2147483648
    && f[0] == 0x5a && f[1] == 0xa5 && f[2] == 0x5a && f[3] == 0xa5
    && Num32(f, 4) == |f| && Num16(f, 8) == cmdType && Num16(f, 10) == 0 && Num32(f, 12) == subType
    && forall i :: 16 <= i < 40 ==> f[i] == 0
  }

  lemma {:induction false} FieldBytes16(f: seq<byte>, off: nat)
    requires off + 2 <= |f|
    ensures Field16(f, off) == Num16(f, off)
  {
  }

  lemma {:induction false} FieldBytes32(f: seq<byte>, off: nat)
    requires off + 4 <= |f|
    ensures Field32(f, off) == Num32(f, off)
  {
    NumberDigits(f[off], f[off + 1], f[off + 2], f[off + 3]);
  }

  lemma {:induction false} DecodedBytes(f: Frame)
    requires 40 <= |f|
    ensures LengthOf(f) == Num32(f, 4) && TypeOf(f) == Num16(f, 8) && SubOf(f) == Num32(f, 12)
  {
    hide Htons, Htonl, Num16, Num32;
    FieldBytes32(f, 4);
    FieldBytes16(f, 8);
    FieldBytes32(f, 12);
  }

  // A frame on the stream: 40 bytes at least, and Length is its size.
  lemma {:induction false} FrameBytes(f: Frame)
    ensures WellFormed(f) <==> 40 <= |f| < 2147483648 && Num32(f, 4) == |f|
  {
    hide LengthOf, Num32;
    if 40 <= |f| {
      DecodedBytes(f);
    }
  }

  // A packet that HEAD_PKG made.
  lemma {:induction false} PacketBytes(f: Frame, t: u16, u: u32, n: int)
    ensures IsPacket(f, t, u, n) <==> |f| == n && HasHeader(f, t, u)
  {
    hide HeadPkg, LengthOf, TypeOf, SubOf, Num32;
    if 40 <= |f| {
      DecodedBytes(f);
      if IsPacket(f, t, u, n) {
        HeaderRoundTrip(t, u, n, f);
        FixedBytes(f);
      } else if |f| == n && HasHeader(f, t, u) {
        FixedBytes(f);
        HeaderDetermined(f);
      }
    }
  }

  lemma {:induction false} FixedBytes(f: Frame)
    requires 40 <= |f|
    ensures FixedFields(f) <==> f[0] == 0x5a && f[1] == 0xa5 && f[2] == 0x5a && f[3] == 0xa5 && Num16(f, 10) == 0
                                && forall i :: 16 <= i < 40 ==> f[i] == 0
  {
    assert f[..4] == [f[0], f[1], f[2], f[3]] && f[10..12] == [f[10], f[11]];
  }

  /* The pairs, and how much payload a handler reads */

  // Which handler answers a command, by the numbers of net_protocol.h:19-45.
  lemma HandlersByNumber(t: u16, u: u32)
    ensures D.Handler(t, u) ==
            if t == 1 && u == 2 then Some(S.LogoutAck) else if t == 1 && u == 3 then Some(S.HeartAck)
            else if t == 2 && u == 1 then Some(S.FileListAck) else if t == 2 && u == 2 then Some(S.FileStartAck)
            else if t == 2 && u == 3 then Some(S.FilePathAck) else if t == 2 && u == 4 then Some(S.FileSendAck)
            else if t == 2 && u == 5 then Some(S.FileNameAck) else if t == 3 && u == 1 then Some(S.VidConnectAck)
            else if t == 3 && u == 2 then Some(S.VidStreamAck) else None
  {
  }

  // A command carries the fields its handler reads: one byte of a file name, the eight bytes of a chunk
  // request, one byte of a stream id.
  lemma {:induction false} SizedBytes(f: Frame)
    ensures D.Sized(f) <==>
              && 40 <= |f| < 2147483648 && Num32(f, 4) == |f|
              && (Num16(f, 8) == 2 && Num32(f, 12) == 2 ==> 41 <= |f|)
              && (Num16(f, 8) == 2 && Num32(f, 12) == 4 ==> 48 <= |f|)
              && (Num16(f, 8) == 3 && Num32(f, 12) == 1 ==> 41 <= |f|)
  {
    hide LengthOf, TypeOf, SubOf, Num16, Num32;
    FrameBytes(f);
    if 40 <= |f| {
      DecodedBytes(f);
    }
  }

  // FILE_PATH stores the path up to its NUL, VID_CONNECT the stream id; no other command changes either.
  lemma {:induction false} StoredByNumber(t: u16, u: u32, data: seq<byte>, path: seq<byte>, id: int)
    requires D.Handler(t, u).Some? ==> D.Fits(D.Handler(t, u).value, |data|)
    ensures D.PathAfter(t, u, data, path) == if t == 2 && u == 3 then CString(data) else path
    ensures D.StreamAfter(t, u, data, id) == if t == 3 && u == 1 then data[0] else id
  {
  }

  // A string ends in front of its NUL, or with the memory.
  lemma {:induction false} CStringEnds(s: seq<byte>)
    ensures var n := |CString(s)|; n <= |s| && CString(s) == s[..n] && 0 !in s[..n] && (n < |s| ==> s[n] == 0)
  {
    if s != [] && s[0] != 0 {
      CStringEnds(s[1..]);
      var n := |CString(s[1..])|;
      assert s[..n + 1] == [s[0]] + s[1..][..n];
    }
  }

  /* What the server sends */

  // A list packet: file_number, then slots of 256 bytes from byte 41 on.
  ghost predicate ListBytes(f: Frame, names: seq<Name>) {
    && |f| == 5166 && HasHeader(f, 2, 1) && |names| <= 20 && f[40] as int == |names|
    && forall k :: 0 <= k < |names| ==> NameAt(f, 41 + 256 * k, names[k])
  }

  // The string stands there with its NUL.
  ghost predicate NameAt(f: Frame, at: nat, name: Name) {
    at + |name| + 1 <= |f| && f[at..at + |name| + 1] == name + [0]
  }

  lemma {:induction false} CStringOf(s: seq<byte>, n: Name)
    requires |n| < |s| && 0 !in n && CString(s) == n
    ensures s[..|n| + 1] == n + [0]
  {
    if n == [] {
      assert s[..1] == [s[0]];
    } else {
      assert CString(s[1..]) == n[1..];
      CStringOf(s[1..], n[1..]);
      assert s[..|n| + 1] == [s[0]] + s[1..][..|n|];
    }
  }

  // What a client reads in a slot is the name if and only if the name and its NUL stand there.
  lemma {:induction false} SlotBytes(f: Frame, k: nat, name: Name)
    requires |f| == 5166 && k < 20 && |name| < 256 && 0 !in name
    ensures CString(f[41 + 256 * k..][..256]) == name <==> NameAt(f, 41 + 256 * k, name)
  {
    var slot := f[41 + 256 * k..][..256];
    assert slot[..|name| + 1] == f[41 + 256 * k..41 + 256 * k + |name| + 1];
    if CString(slot) == name {
      CStringOf(slot, name);
    } else if slot[..|name| + 1] == name + [0] {
      CStringIs(slot, name);
    }
  }

  lemma {:induction false} ListPacketBytes(f: Frame, names: seq<Name>)
    requires forall k :: 0 <= k < |names| ==> |names[k]| < 256 && 0 !in names[k]
    ensures IsListPacket(f, names) <==> ListBytes(f, names)
  {
    hide HeadPkg, HasHeader;
    PacketBytes(f, TYPE_FILE, FILE_LIST, 5166);
    if |f| == 5166 && f[40] <= 20 && |names| == f[40] as int {
      forall k | 0 <= k < |names|
        ensures Reported(f)[k] == names[k] <==> NameAt(f, 41 + 256 * k, names[k])
      {
        SlotBytes(f, k, names[k]);
        assert f[41 + 256 * k..][..256] == f[41 + 256 * k..41 + 256 * k + 256];
      }
    }
  }

  // The names of a directory: entry by entry, neither directories nor names that begin with a dot.
  lemma {:induction false} NamesInOrder(a: seq<DirEntry>, b: seq<DirEntry>)
    ensures Names(a + b) == Names(a) + Names(b)
  {
    if b == [] {
      assert a + b == a;
    } else {
      var n := |b| - 1;
      NamesInOrder(a, b[..n]);
      assert (a + b)[..|a + b| - 1] == a + b[..n];
    }
  }

  lemma {:induction false} NamesOfOne(e: DirEntry)
    ensures Names([e]) == if e.isDir || (e.name != [] && e.name[0] == '.' as int) then [] else [e.name]
  {
    assert [e][..0] == [];
  }

  lemma {:induction false} NamesValid(dir: seq<DirEntry>)
    requires forall i :: 0 <= i < |dir| ==> |dir[i].name| < 256 && 0 !in dir[i].name
    ensures forall k :: 0 <= k < |Names(dir)| ==> |Names(dir)[k]| < 256 && 0 !in Names(dir)[k]
  {
    if dir != [] {
      NamesValid(dir[..|dir| - 1]);
    }
  }

  // Batch number k.
  function Twenty(names: seq<Name>, k: nat): seq<Name>
    requires 20 * k <= |names|
  {
    names[20 * k..if 20 * k + 20 <= |names| then 20 * k + 20 else |names|]
  }

  lemma {:induction false} BatchIs(names: seq<Name>, k: nat)
    requires k <= |names| / 20
    ensures |Batches(names)| == |names| / 20 + 1 && Batches(names)[k] == Twenty(names, k)
  {
    BatchesLoseNothing(names);
    if k > 0 {
      BatchIs(names[20..], k - 1);
      assert Twenty(names[20..], k - 1) == Twenty(names, k);
    }
  }

  ghost predicate ListAnswer(resp: seq<Frame>, dir: Option<seq<DirEntry>>) {
    match dir
    case None => resp == []
    case Some(entries) =>
      var names := Names(entries);
      |resp| == |names| / 20 + 1 && forall k :: 0 <= k < |resp| ==> ListBytes(resp[k], Twenty(names, k))
  }

  lemma {:induction false} ListAnswerBytes(resp: seq<Frame>, dir: Option<seq<DirEntry>>)
    requires dir.Some? ==> forall i :: 0 <= i < |dir.value| ==> |dir.value[i].name| < 256 && 0 !in dir.value[i].name
    ensures ListReply(resp, dir) <==> ListAnswer(resp, dir)
  {
    hide IsListPacket, ListBytes;
    if dir.Some? {
      var names := Names(dir.value);
      NamesValid(dir.value);
      BatchIs(names, 0);
      if |resp| == |names| / 20 + 1 {
        forall k | 0 <= k < |resp|
          ensures IsListPacket(resp[k], Batches(names)[k]) <==> ListBytes(resp[k], Twenty(names, k))
        {
          BatchIs(names, k);
          ListPacketBytes(resp[k], Twenty(names, k));
        }
      }
    }
  }

  // The one answer to a chunk request.
  predicate ChunkAnswer(f: Frame, data: seq<byte>, file: FileState, after: FileState)
    requires |data| >= 8 && GoodFile(file)
  {
    match file
    case NoFile => |f| == 48 && HasHeader(f, 2, 4) && after == NoFile
    case Open(content, pos) =>
      var want := 256 * (data[4] as int) + data[5];
      var left := |content| - pos;
      var n := if want < left then want else left;
      && |f| == 48 + n && HasHeader(f, 2, 4) && f[40..44] == data[0..4] && f[48..] == content[pos..pos + n]
      && after == (if n < want then Closed else Open(content, pos + n))
    case Closed => false
  }

  lemma {:induction false} ChunkAnswerBytes(f: Frame, data: seq<byte>, file: FileState, after: FileState)
    requires |data| >= 8 && GoodFile(file)
    ensures SendReply(f, data, file, after) <==> ChunkAnswer(f, data, file, after)
  {
    hide HeadPkg, HasHeader, Field16, Field32;
    PacketBytes(f, TYPE_FILE, FILE_SEND, |f|);
    FieldBytes16(data, 4);
    if 44 <= |f| {
      SameNumber(f, 40, data, 0);
    }
  }

  // An acknowledgement with a state.
  predicate StateAnswer(resp: seq<Frame>, size: nat, t: nat, u: nat, state: nat) {
    |resp| == 1 && |resp[0]| == size && size >= 42 && HasHeader(resp[0], t, u) && Num16(resp[0], 40) == state
  }

  lemma {:induction false} StateAnswerBytes(resp: seq<Frame>, t: u16, u: u32, size: nat, state: u16)
    requires 2 <= size < 0x100
    ensures |resp| == 1 && StateReply(resp[0], t, u, size, state) <==> StateAnswer(resp, 40 + size, t, u, state)
  {
    hide HeadPkg, HasHeader, Field16, Num16;
    if |resp| == 1 {
      PacketBytes(resp[0], t, u, 40 + size);
      if 42 <= |resp[0]| {
        FieldBytes16(resp[0], 40);
      }
    }
  }

  // What the command (t, u) with this payload is answered with, and what becomes of the FILE pointer.
  ghost predicate AnswerBytes(t: nat, u: nat, data: seq<byte>, env: D.Env, file: FileState, after: FileState,
                              resp: seq<Frame>)
    requires GoodFile(file)
  {
    if t == 1 && u == 2 then after == file && StateAnswer(resp, 42, 1, 2, 1)
    else if t == 1 && u == 3 then
      after == file && |resp| == 1 && |resp[0]| == 44 && HasHeader(resp[0], 1, 3) && resp[0][40] == 1
    else if t == 2 && u == 1 then after == file && ListAnswer(resp, env.dir)
    else if t == 2 && u == 2 then
      && |data| > 0 && |resp| == 1 && |resp[0]| == 44 && HasHeader(resp[0], 2, 2)
      && (if data[0] != 0 && env.found.Some? then
            Num32(resp[0], 40) == |env.found.value| % 4294967296 && after == Open(env.found.value, 0)
          else
            Num32(resp[0], 40) == 0 && after == file)
    else if t == 2 && u == 3 then after == file && StateAnswer(resp, 44, 2, 3, if env.readable then 1 else 0)
    else if t == 2 && u == 4 then |data| >= 8 && |resp| == 1 && ChunkAnswer(resp[0], data, file, after)
    else if t == 3 && u == 1 then after == file && StateAnswer(resp, 44, 3, 1, 1)
    else after == file && resp == []
  }

  // Every command, of whatever pair: it is answered as the server's command thread answers it if and
  // only if the bytes are these.
  lemma {:induction false} AnswersInBytes(f: Frame, env: D.Env, file: FileState, after: FileState, resp: seq<Frame>)
    requires D.Sized(f) && D.Sane(env) && GoodFile(file)
    ensures D.Answers(f, env, file, after, resp) <==>
            AnswerBytes(Num16(f, 8), Num32(f, 12), f[40..], env, file, after, resp)
  {
    hide HeadPkg, HasHeader, Field16, Field32, Num16, Num32, TypeOf, SubOf, LengthOf, StateReply, StateAnswer,
      SendReply, ChunkAnswer, ListReply, ListAnswer, D.Handler;
    var t, u := TypeOf(f), SubOf(f);
    DecodedBytes(f);
    HandlersByNumber(t, u);
    match D.Handler(t, u) {
      case Some(LogoutAck) => StateAnswerBytes(resp, 1, 2, 2, 1);
      case Some(HeartAck) =>
        if |resp| == 1 {
          HeartBytes(resp[0]);
        }
      case Some(FileListAck) => ListAnswerBytes(resp, env.dir);
      case Some(FileStartAck) =>
        if |resp| == 1 {
          StartBytes(resp[0]);
        }
      case Some(FilePathAck) => StateAnswerBytes(resp, 2, 3, 4, if env.readable then 1 else 0);
      case Some(FileSendAck) =>
        if |resp| == 1 {
          ChunkAnswerBytes(resp[0], f[40..], file, after);
        }
      case Some(VidConnectAck) => StateAnswerBytes(resp, 3, 1, 4, 1);
      case _ =>
    }
  }

  lemma {:induction false} HeartBytes(f: Frame)
    ensures HeartReply(f) <==> |f| == 44 && HasHeader(f, 1, 3) && f[40] == 1
  {
    hide HeadPkg, HasHeader;
    PacketBytes(f, TYPE_CTRL, CTRL_HEART, 44);
  }

  lemma {:induction false} StartBytes(f: Frame)
    ensures IsPacket(f, TYPE_FILE, FILE_START, 44) <==> |f| == 44 && HasHeader(f, 2, 2)
    ensures 44 <= |f| ==> Field32(f, 40) == Num32(f, 40)
  {
    hide HeadPkg, HasHeader, Field32, Num32;
    PacketBytes(f, TYPE_FILE, FILE_START, 44);
    if 44 <= |f| {
      FieldBytes32(f, 40);
    }
  }

  // A packet of the stream thread, whichever frame type and data it carries.
  lemma {:induction false} StreamBytes(f: Frame, frameType: u32, data: seq<byte>)
    ensures StreamPacket(f, frameType, data) <==>
              && |f| == 64 + |data| && HasHeader(f, 3, 2) && Num32(f, 44) == frameType && f[64..] == data
              && (forall i :: 40 <= i < 44 || 48 <= i < 60 ==> f[i] == 0)
  {
    hide HeadPkg, HasHeader, Field32, Num32;
    PacketBytes(f, TYPE_VID, VID_STREAM, 64 + |data|);
    if 64 <= |f| {
      FieldBytes32(f, 44);
    }
  }

  // The acknowledgement of a login, or of whatever 76 bytes came in its place.
  lemma {:induction false} LoginAckBytes(ack: Frame, pkt: seq<byte>)
    requires |pkt| == 76
    ensures Server.IsLoginAck(ack, pkt) <==>
              && |ack| == 44 && HasHeader(ack, 1, 1)
              && (Num16(pkt, 8) == 1 && Num32(pkt, 12) == 1 ==>
                    Num16(ack, 40) == if Server.LoginAccepts(pkt) then 0 else 2)
  {
    hide HeadPkg, HasHeader, Field16, Num16, Num32, Server.LoginAccepts, TypeOf, SubOf;
    PacketBytes(ack, TYPE_CTRL, CTRL_LOGIN, 44);
    DecodedBytes(pkt);
    if |ack| == 44 {
      FieldBytes16(ack, 40);
      assert Field16(ack, 40) == Htons(Load16(ack, 40)) by { FieldIs(ack, 40); }
    }
  }

  lemma FieldIs(f: seq<byte>, at: nat)
    requires at + 2 <= |f|
    ensures Field16(f, at) == Htons(Load16(f, at))
  {
  }

  /* What the client sends */

  // A login is accepted for "admin" and "123456" only, each with its NUL.
  lemma {:induction false} LoginBytes(pkt: seq<byte>)
    requires |pkt| == 76
    ensures Server.LoginAccepts(pkt) <==>
              && Num16(pkt, 8) == 1 && Num32(pkt, 12) == 1
              && pkt[40] == 'a' as int && pkt[41] == 'd' as int && pkt[42] == 'm' as int && pkt[43] == 'i' as int
              && pkt[44] == 'n' as int && pkt[45] == 0
              && pkt[56] == '1' as int && pkt[57] == '2' as int && pkt[58] == '3' as int && pkt[59] == '4' as int
              && pkt[60] == '5' as int && pkt[61] == '6' as int && pkt[62] == 0
  {
    hide TypeOf, SubOf, Num16, Num32;
    DecodedBytes(pkt);
    var name, passwd := pkt[40..56], pkt[56..72];
    assert name[..6] == [pkt[40], pkt[41], pkt[42], pkt[43], pkt[44], pkt[45]];
    assert passwd[..7] == [pkt[56], pkt[57], pkt[58], pkt[59], pkt[60], pkt[61], pkt[62]];
    assert Server.ADMIN <= name <==> name[..6] == Server.ADMIN;
    assert Server.PASSWD <= passwd <==> passwd[..7] == Server.PASSWD;
  }

  // The request to open a file, and the request for a chunk of 1024 bytes.
  lemma {:induction false} StartRequestBytes(f: Frame)
    ensures StartRequest(f) <==> |f| == 40 + 1024 + 4 && HasHeader(f, 2, 2) && f[40] != 0
  {
    hide HeadPkg, HasHeader;
    PacketBytes(f, TYPE_FILE, FILE_START, 1068);
  }

  lemma {:induction false} ChunkRequestBytes(f: Frame, serial: nat)
    ensures SendRequest(f, serial) <==>
            |f| == 40 + 4 + 2 + 2 && HasHeader(f, 2, 4) && Num32(f, 40) == serial && f[44] == 4 && f[45] == 0
  {
    hide HeadPkg, HasHeader, Field16, Field32;
    PacketBytes(f, TYPE_FILE, FILE_SEND, 48);
    if |f| == 48 {
      FieldBytes32(f[40..], 0);
      FieldBytes16(f[40..], 4);
    }
  }

  // The pairs for which main_cmd_process writes a header, and the types for which it sends anything.
  lemma BuildersByNumber(t: u16, u: u32)
    ensures Client.Buildable(t, u) <==> (t == 1 && 1 <= u <= 3) || (t == 2 && 1 <= u <= 4) || (t == 3 && 1 <= u <= 2)
    ensures Client.Enqueues(t) <==> t == 1 || t == 2 || t == 3
  {
  }

  lemma {:induction false} HeartbeatBytes(stamp: seq<byte>)
    requires |stamp| == 2 + 6
    ensures var f := Client.HeartbeatPacket(stamp); |f| == 48 && HasHeader(f, 1, 3) && f[40..] == stamp
  {
    hide HeadPkg, HasHeader;
    PacketBytes(Client.HeartbeatPacket(stamp), TYPE_CTRL, CTRL_HEART, 48);
  }

  /* What an acknowledgement does to the client */

  // filesend_ack writes and counts the bytes of its chunk, moves the meter up when the count is past ten
  // percent times viewinfo, and goes on or closes.
  function Counting(d: Download, chunk: seq<byte>): Download {
    var count := (d.count + |chunk|) % 4294967296;
    var past := count > (d.fileLen / 100) * (d.viewinfo * 10) % 4294967296;
    Download(if |chunk| < 1024 then d.serial else d.serial + 1, count, if past then d.viewinfo + 1 else d.viewinfo,
             d.fileLen, d.written + chunk, |chunk| >= 1024 && d.isOpen)
  }

  lemma {:induction false} CountingIs(d: Download, chunk: seq<byte>)
    ensures AfterChunk(d, chunk) == Counting(d, chunk)
  {
    ThresholdIs(d.fileLen, d.viewinfo);
    hide Threshold;
  }

  lemma ThresholdIs(fileLen: u32, viewinfo: nat)
    ensures Threshold(fileLen, viewinfo) == (fileLen / 100) * (viewinfo * 10) % 4294967296
  {
  }

  // filestart_ack takes over four bytes; filesend_ack has its chunk behind eight bytes.
  lemma {:induction false} TakenBytes(d: Download, f: Frame)
    requires 48 <= |f|
    ensures X.Taken(d, f) ==
            if Num16(f, 8) == 2 && Num32(f, 12) == 2 then d.(fileLen := Num32(f, 40))
            else if Num16(f, 8) == 2 && Num32(f, 12) == 4 then Counting(d, f[48..])
            else d
  {
    hide Field32, Num16, Num32, TypeOf, SubOf, AfterChunk, Counting;
    DecodedBytes(f);
    FieldBytes32(f, 40);
    CountingIs(d, f[48..]);
  }

  // A full chunk asks for the next one.
  lemma {:induction false} RepliesBytes(d: Download, f: Frame, reply: seq<Frame>)
    requires 40 <= |f|
    ensures X.Replies(d, f, reply) <==>
            if Num16(f, 8) == 2 && Num32(f, 12) == 4 && |f| >= 48 + 1024 then
              |reply| == 1 && SendRequest(reply[0], d.serial + 1)
            else reply == []
  {
    hide Num16, Num32, TypeOf, SubOf, SendRequest;
    DecodedBytes(f);
  }
}
