/**
 Every command can be answered: for each handler, in any file system, there are packets that meet
 what Reacts asks of its answer, and likewise for the login acknowledgement and the requests of the
 client. The step system of a session therefore never stops for want of an answer.
 */
module Answerability {
  import opened Wrappers
  import opened NetProtocol
  import opened Framing
  import opened FileList
  import opened AntProtocol
  import opened FileClient
  import D = Dispatch
  import X = Exchange
  import TcpServer

  function Build(t: u16, s: u32, payload: seq<byte>): (f: Frame)
    requires HEAD_SIZE + |payload| < INT_LIMIT
    ensures IsPacket(f, t, s, HEAD_SIZE + |payload|) && f[HEAD_SIZE..] == payload
  {
    var f := HeadPkg(t, s, 0, HEAD_SIZE + |payload|) + payload;
    assert f[..HEAD_SIZE] == HeadPkg(t, s, 0, HEAD_SIZE + |payload|);
    f
  }

  lemma {:induction false} StateReplyExists(t: u16, s: u32, size: nat, state: u16) returns (f: Frame)
    requires 2 <= size < 0x100
    ensures StateReply(f, t, s, size, state)
  {
    hide HeadPkg;
    var payload := Le16(Htons(state)) + seq(size - 2, _ => 0);
    f := Build(t, s, payload);
    assert f[HEAD_SIZE..HEAD_SIZE + 2] == f[HEAD_SIZE..][..2] == Le16(Htons(state));
    hide Field16;
    StoredField16(f, HEAD_SIZE, state);
  }

  lemma {:induction false} HeartReplyExists() returns (f: Frame)
    ensures HeartReply(f)
  {
    hide HeadPkg;
    f := Build(TYPE_CTRL, CTRL_HEART, [1, 0, 0, 0]);
    assert f[HEAD_SIZE] == f[HEAD_SIZE..][0];
  }

  // A packet whose payload starts with a 32-bit number.
  lemma {:induction false} NumberedExists(t: u16, u: u32, number: u32, rest: seq<byte>) returns (f: Frame)
    requires HEAD_SIZE + 4 + |rest| < INT_LIMIT
    ensures IsPacket(f, t, u, HEAD_SIZE + 4 + |rest|) && Field32(f, HEAD_SIZE) == number && f[HEAD_SIZE + 4..] == rest
  {
    hide HeadPkg, Htonl, Field32;
    var bytes := Le32(Htonl(number));
    hide Le32;
    f := Build(t, u, bytes + rest);
    assert f[HEAD_SIZE..HEAD_SIZE + 4] == f[HEAD_SIZE..][..4] == bytes;
    assert f[HEAD_SIZE + 4..] == f[HEAD_SIZE..][4..] == rest;
    StoredField32(f, HEAD_SIZE, number);
  }

  lemma {:induction false} StartReplyExists(want: Option<seq<byte>>, file: FileState)
    returns (f: Frame, after: FileState)
    ensures StartReply(f, want, file, after)
  {
    hide HeadPkg, Field32;
    f := NumberedExists(TYPE_FILE, FILE_START, if want.Some? then |want.value| % 0x1_0000_0000 else 0, []);
    after := if want.Some? then Open(want.value, 0) else file;
  }

  lemma {:induction false} SendReplyExists(data: seq<byte>, file: FileState) returns (f: Frame, after: FileState)
    requires |data| >= 8 && GoodFile(file) && file.Open?
    ensures SendReply(f, data, file, after)
  {
    hide HeadPkg, SendSerial, SendLen, Field32;
    var n := Min(SendLen(data), |file.content| - file.pos);
    var chunk := file.content[file.pos..file.pos + n];
    var rest := [0, 0, 0, 0] + chunk;
    f := NumberedExists(TYPE_FILE, FILE_SEND, SendSerial(data), rest);
    after := if n < SendLen(data) then Closed else Open(file.content, file.pos + n);
    assert f[SEND_HEAD..] == f[HEAD_SIZE + 4..][4..] == rest[4..] == chunk;
  }

  // A slot of a listing: the name, its NUL, and zeros.
  function Slot(name: Name): (s: seq<byte>)
    requires ValidName(name)
    ensures |s| == SLOT_SIZE && s[..|name| + 1] == name + [0]
  {
    name + [0] + seq(SLOT_SIZE - |name| - 1, _ => 0)
  }

  function Slots(names: seq<Name>): (s: seq<byte>)
    requires AllNames(names)
    ensures |s| == SLOT_SIZE * |names|
  {
    if names == [] then []
    else
      var n := |names| - 1;
      assert AllNames(names[..n]);
      Slots(names[..n]) + Slot(names[n])
  }

  lemma {:induction false} SlotsHold(names: seq<Name>, k: nat)
    requires AllNames(names) && k < |names|
    ensures SLOT_SIZE * k + |names[k]| + 1 <= |Slots(names)|
    ensures Slots(names)[SLOT_SIZE * k..][..|names[k]| + 1] == names[k] + [0]
  {
    var n := |names| - 1;
    assert AllNames(names[..n]) && ValidName(names[k]);
    var front, last := Slots(names[..n]), Slot(names[n]);
    var from := SLOT_SIZE * k;
    if k < n {
      SlotsHold(names[..n], k);
      assert names[..n][k] == names[k];
      assert (front + last)[from..][..|names[k]| + 1] == front[from..][..|names[k]| + 1];
    } else {
      assert (front + last)[from..] == last;
    }
  }

  lemma {:induction false} ListPacketExists(names: seq<Name>) returns (f: Frame)
    requires AllNames(names) && |names| <= SLOTS
    ensures IsListPacket(f, names)
  {
    hide HeadPkg, Slot;
    var slots := Slots(names);
    var rest := slots + seq(LIST_SIZE - HEAD_SIZE - 1 - |slots|, _ => 0);
    f := Build(TYPE_FILE, FILE_LIST, [|names|] + rest);
    assert f[HEAD_SIZE] == f[HEAD_SIZE..][0];
    assert f[HEAD_SIZE + 1..] == f[HEAD_SIZE..][1..] == rest;
    forall k | 0 <= k < |names|
      ensures f[SlotAt(k)..SlotAt(k) + |names[k]| + 1] == names[k] + [0]
    {
      assert ValidName(names[k]);
      SlotsHold(names, k);
      var from, n := SLOT_SIZE * k, |names[k]| + 1;
      assert f[SlotAt(k)..SlotAt(k) + n] == f[HEAD_SIZE + 1..][from..][..n];
      assert rest[from..][..n] == slots[from..][..n];
    }
    ReportedIs(f, names);
  }

  ghost predicate FitSlots(batches: seq<seq<Name>>) {
    forall i :: 0 <= i < |batches| ==> AllNames(batches[i]) && |batches[i]| <= SLOTS
  }

  lemma {:induction false} ListPacketsExist(batches: seq<seq<Name>>) returns (resp: seq<Frame>)
    requires FitSlots(batches)
    ensures |resp| == |batches| && forall i :: 0 <= i < |resp| ==> IsListPacket(resp[i], batches[i])
  {
    hide IsListPacket, AllNames;
    resp := [];
    for i := 0 to |batches|
      invariant |resp| == i && forall k :: 0 <= k < i ==> IsListPacket(resp[k], batches[k])
    {
      var f := ListPacketExists(batches[i]);
      resp := resp + [f];
    }
  }

  lemma {:induction false} ListedNames(entries: seq<DirEntry>)
    requires forall i :: 0 <= i < |entries| ==> ValidName(entries[i].name)
    ensures AllNames(Names(entries))
  {
    hide ValidName, Listed;
    if entries != [] {
      var n := |entries| - 1;
      ListedNames(entries[..n]);
      assert ValidName(entries[n].name);
    }
  }

  lemma {:induction false} BatchNames(names: seq<Name>)
    requires AllNames(names)
    ensures FitSlots(Batches(names))
  {
    hide ValidName;
    if |names| >= SLOTS {
      var first, rest := names[..SLOTS], names[SLOTS..];
      assert AllNames(first);
      assert forall k :: 0 <= k < |rest| ==> rest[k] == names[k + SLOTS];
      assert AllNames(rest);
      BatchNames(rest);
      OneMoreFits(first, Batches(rest));
    } else {
      OneMoreFits(names, []);
      assert [names] + [] == [names];
    }
  }

  lemma {:induction false} OneMoreFits(first: seq<Name>, more: seq<seq<Name>>)
    requires AllNames(first) && |first| <= SLOTS && FitSlots(more)
    ensures FitSlots([first] + more)
  {
    hide AllNames;
    var b := [first] + more;
    forall i | 0 <= i < |b|
      ensures AllNames(b[i]) && |b[i]| <= SLOTS
    {
      if i > 0 {
        assert b[i] == more[i - 1];
      }
    }
  }

  lemma {:induction false} ListReplyExists(dir: Option<seq<DirEntry>>) returns (resp: seq<Frame>)
    requires dir.Some? ==> forall i :: 0 <= i < |dir.value| ==> ValidName(dir.value[i].name)
    ensures ListReply(resp, dir)
  {
    hide IsListPacket, ValidName, FitSlots;
    resp := [];
    if dir.Some? {
      ListedNames(dir.value);
      BatchNames(Names(dir.value));
      resp := ListPacketsExist(Batches(Names(dir.value)));
    }
  }

  lemma {:induction false} RequestExists(serial: u32) returns (f: Frame)
    ensures SendRequest(f, serial)
  {
    hide HeadPkg;
    var payload := Le32(Htonl(serial)) + Le16(Htons(CHUNK)) + [0, 0];
    f := Build(TYPE_FILE, FILE_SEND, payload);
    assert payload[0..4] == Le32(Htonl(serial)) && payload[4..6] == Le16(Htons(CHUNK));
    hide Field32, Field16;
    StoredField32(payload, 0, serial);
    StoredField16(payload, 4, CHUNK);
  }

  lemma {:induction false} ReplyExists(d: Download, ack: Frame) returns (reply: seq<Frame>)
    requires d.serial + 1 < 0x1_0000_0000
    ensures X.Replies(d, ack, reply)
  {
    hide X.IsSend, SendRequest;
    reply := [];
    if X.IsSend(ack) && SEND_HEAD + CHUNK <= |ack| {
      var f := RequestExists(d.serial + 1);
      reply := [f];
    }
  }

  lemma {:induction false} StartRequestExists() returns (f: Frame)
    ensures StartRequest(f)
  {
    hide HeadPkg;
    f := Build(TYPE_FILE, FILE_START, seq(NAME_SIZE + 4, _ => 1));
    assert f[HEAD_SIZE] == f[HEAD_SIZE..][0];
  }

  // The handler of any command that fits has an answer in any file system, given that the file is open
  // where it is read.
  lemma {:induction false} Answerable(f: Frame, env: D.Env, file: FileState)
    returns (after: FileState, resp: seq<Frame>)
    requires D.Sized(f) && GoodFile(file) && (X.IsSend(f) ==> file.Open?) && D.Sane(env)
    ensures D.Answers(f, env, file, after, resp)
  {
    hide StateReply, HeartReply, StartReply, SendReply, ListReply, Requested, HeadPkg, LengthOf;
    after, resp := file, [];
    var h := D.Handler(TypeOf(f), SubOf(f));
    if h.Some? {
      D.HandlerCommand(TypeOf(f), SubOf(f), h.value);
      hide D.Handler, TypeOf, SubOf;
      var g;
      match h.value {
        case LogoutAck => g := StateReplyExists(TYPE_CTRL, CTRL_LOGOUT, 2, 1); resp := [g];
        case HeartAck => g := HeartReplyExists(); resp := [g];
        case FileListAck => resp := ListReplyExists(env.dir);
        case FileSendAck => g, after := SendReplyExists(f[HEAD_SIZE..], file); resp := [g];
        case FilePathAck => g := StateReplyExists(TYPE_FILE, FILE_PATH, 4, if env.readable then 1 else 0); resp := [g];
        case FileNameAck =>
        case FileStartAck => g, after := StartReplyExists(Requested(f[HEAD_SIZE..], env.found), file); resp := [g];
        case VidConnectAck => g := StateReplyExists(TYPE_VID, VID_CONNECT, 4, 1); resp := [g];
        case VidStreamAck =>
      }
    }
  }

  lemma {:induction false} LoginAckExists(login: Frame) returns (ack: Frame)
    requires |login| == TcpServer.LOGIN_SIZE
    ensures TcpServer.IsLoginAck(ack, login)
  {
    hide HeadPkg, Htons, Load16;
    var state := if TcpServer.LoginAccepts(login) then TcpServer.LOGIN_SUCCESS else TcpServer.LOGIN_PASSWD_FAILE;
    hide TcpServer.LoginAccepts;
    ack := StateReplyExists(TYPE_CTRL, CTRL_LOGIN, 4, state);
  }
}
