/**
 The server's request handlers (QAntProtocol.cpp). Each builds its packet in memory fresh from
 malloc, so every byte that is not assigned is arbitrary, and appends it to the send window.

 What a handler answers is stated by the `...Reply` predicates, on the packet as a client decodes it.
 The file system is a parameter: whether a directory opens and what it lists, and what content, if
 any, is found under the requested file name.
 */
module AntProtocol {
  import opened Wrappers
  import opened NetProtocol
  import opened Framing
  import opened Transport
  import opened FileList

  const SEND_HEAD := 48  // NET_HEAD_SIZE + sizeof(app_net_file_ack_send)

  const STREAM_HEAD := 64  // NET_HEAD_SIZE + sizeof(app_net_vid_ack_stream)
  const STREAM_FIELDS := 20  // all of it but Rev1 and Rev2

  // The FILE pointer of the handler object. After fclose it is not reset.
  datatype FileState = NoFile | Open(content: seq<byte>, pos: nat) | Closed

  predicate GoodFile(file: FileState) {
    file.Open? ==> file.pos <= |file.content|
  }

  function Field16(f: seq<byte>, off: nat): u16
    requires off + 2 <= |f|
  {
    Htons(Load16(f, off))
  }

  function Field32(f: seq<byte>, off: nat): u32
    requires off + 4 <= |f|
  {
    Htonl(Load32(f, off))
  }

  // An acknowledgement with a 16-bit state in front of `size` bytes of payload.
  predicate StateReply(f: Frame, cmdType: u16, subType: u32, size: nat, state: u16)
    requires 2 <= size < 0x100
  {
    IsPacket(f, cmdType, subType, HEAD_SIZE + size) && Field16(f, HEAD_SIZE) == state
  }

  predicate HeartReply(f: Frame) {
    IsPacket(f, TYPE_CTRL, CTRL_HEART, HEAD_SIZE + 4) && f[HEAD_SIZE] == 1
  }

  // What file_start_ack finds: a non-empty name of an existing file, or nothing.
  function Requested(data: seq<byte>, found: Option<seq<byte>>): Option<seq<byte>>
    requires |data| > 0
  {
    if data[0] != 0 then found else None
  }

  // ftell's result goes through a 32-bit variable.
  predicate StartReply(f: Frame, want: Option<seq<byte>>, file: FileState, after: FileState) {
    && IsPacket(f, TYPE_FILE, FILE_START, HEAD_SIZE + 4)
    && Field32(f, HEAD_SIZE) == (if want.Some? then |want.value| % 0x1_0000_0000 else 0)
    && after == (if want.Some? then Open(want.value, 0) else file)
  }

  function SendSerial(data: seq<byte>): u32
    requires |data| >= 8
  {
    Field32(data, 0)
  }

  function SendLen(data: seq<byte>): u16
    requires |data| >= 8
  {
    Field16(data, 4)
  }

  // The next bytes of the file, as many as asked for or as are left; a short read closes the file.
  predicate SendReply(f: Frame, data: seq<byte>, file: FileState, after: FileState)
    requires |data| >= 8 && GoodFile(file)
  {
    match file
    case NoFile => after == NoFile && IsPacket(f, TYPE_FILE, FILE_SEND, SEND_HEAD)
    case Open(content, pos) =>
      var n := Min(SendLen(data), |content| - pos);
      && IsPacket(f, TYPE_FILE, FILE_SEND, SEND_HEAD + n)
      && Field32(f, HEAD_SIZE) == SendSerial(data)
      && f[SEND_HEAD..] == content[pos..pos + n]
      && after == (if n < SendLen(data) then Closed else Open(content, pos + n))
    case Closed => false
  }

  // Zero packets when the directory does not open, else the batches of what it lists.
  ghost predicate ListReply(resp: seq<Frame>, dir: Option<seq<DirEntry>>) {
    match dir
    case None => resp == []
    case Some(entries) =>
      var batches := Batches(Names(entries));
      |resp| == |batches| && forall k :: 0 <= k < |resp| ==> IsListPacket(resp[k], batches[k])
  }

  // One packet of the video stream thread: stream_id, frame_number, sec, usec and pts are zero, and the
  // two reserved fields can be anything.
  predicate StreamPacket(f: Frame, frameType: u32, data: seq<byte>) {
    && IsPacket(f, TYPE_VID, VID_STREAM, STREAM_HEAD + |data|)
    && Field32(f, HEAD_SIZE + 4) == frameType
    && (forall i :: HEAD_SIZE <= i < HEAD_SIZE + STREAM_FIELDS ==> HEAD_SIZE + 4 <= i < HEAD_SIZE + 8 || f[i] == 0)
    && f[STREAM_HEAD..] == data
  }

  lemma {:induction false} StoredField16(f: seq<byte>, off: nat, v: u16)
    requires off + 2 <= |f| && f[off..off + 2] == Le16(Htons(v))
    ensures Field16(f, off) == v
  {
    NetworkOrder16(v, f, off);
  }

  lemma {:induction false} StoredField32(f: seq<byte>, off: nat, v: u32)
    requires off + 4 <= |f| && f[off..off + 4] == Le32(Htonl(v))
    ensures Field32(f, off) == v
  {
    NetworkOrder32(v, f, off);
  }

  lemma WantedBytes(data: seq<byte>)
    requires |data| >= 8
    ensures SendLen(data) == 256 * (data[4] as int) + data[5]
  {
  }

  lemma {:induction false} SendReplyBytes(f: Frame, data: seq<byte>, file: FileState, after: FileState)
    requires |data| >= 8 && GoodFile(file) && file.Open? && SendReply(f, data, file, after)
    ensures |f| == 48 + Min(256 * (data[4] as int) + data[5], |file.content| - file.pos) && f[40..44] == data[0..4]
  {
    hide HeadPkg, Field16, Field32;
    WantedBytes(data);
    SameNumber(f, HEAD_SIZE, data, 0);
  }

  lemma NoFileReply(f: Frame, data: seq<byte>)
    requires |data| >= 8 && IsPacket(f, TYPE_FILE, FILE_SEND, SEND_HEAD)
    ensures SendReply(f, data, NoFile, NoFile)
  {
  }

  // Numbers are equal if and only if their bytes are.
  lemma {:induction false} SameNumber(a: seq<byte>, at: nat, b: seq<byte>, bt: nat)
    requires at + 4 <= |a| && bt + 4 <= |b|
    ensures Field32(a, at) == Field32(b, bt) <==> a[at..at + 4] == b[bt..bt + 4]
  {
    NetworkOrder32(Field32(a, at), a, at);
    NetworkOrder32(Field32(a, at), b, bt);
  }

  // stream_id, frame_type, frame_number, sec, usec and pts, at the start of app_net_vid_ack_stream;
  // all of them are zero but the given frame_type.
  function StreamFields(frameType: seq<byte>): (s: seq<byte>)
    requires |frameType| == 4
    ensures |s| == STREAM_FIELDS && s[4..8] == frameType
    ensures forall i :: 0 <= i < 4 || 8 <= i < STREAM_FIELDS ==> s[i] == 0
  {
    [0, 0, 0, 0] + frameType + seq(12, _ => 0)
  }

  lemma {:induction false} StreamBody(b: seq<byte>, head: seq<byte>, data: seq<byte>)
    requires |b| == STREAM_HEAD + |data| && |head| == STREAM_HEAD
    ensures var body := Splice(Splice(b, 0, head), STREAM_HEAD, data)[HEAD_SIZE..];
            && body[..STREAM_FIELDS] == head[HEAD_SIZE..][..STREAM_FIELDS]
            && body[STREAM_HEAD - HEAD_SIZE..] == data
  {
    var c := Splice(Splice(b, 0, head), STREAM_HEAD, data);
    assert c == head + data;
    assert c[HEAD_SIZE..][..STREAM_FIELDS] == head[HEAD_SIZE..][..STREAM_FIELDS];
    DropDrop(c, HEAD_SIZE, STREAM_HEAD - HEAD_SIZE);
  }

  class QAntProtocol {
    const sendSliding: SlidingWindow
    var file: FileState
    var path: seq<byte>
    var streamId: int

    constructor (sendSliding: SlidingWindow)
      ensures this.sendSliding == sendSliding && file == NoFile
    {
      this.sendSliding := sendSliding;
      file := NoFile;
      path := [];
    }

    // The common end of the handlers: HEAD_PKG over the first 40 bytes, then the append (under
    // send_buff_mutex) of pkgLen bytes.
    method Finish(buffer: array<byte>, cmdType: u16, subType: u32, pkgLen: nat) returns (ghost f: Frame)
      requires HEAD_SIZE <= pkgLen <= buffer.Length && pkgLen < INT_LIMIT
      modifies buffer, sendSliding
      ensures sendSliding.frames == old(sendSliding.frames) + [f]
      ensures IsPacket(f, cmdType, subType, pkgLen)
      ensures f[HEAD_SIZE..] == old(buffer[HEAD_SIZE..pkgLen])
      ensures buffer[HEAD_SIZE..] == old(buffer[HEAD_SIZE..])
    {
      WriteHead(buffer, cmdType, subType, 0, pkgLen);
      f := buffer[..pkgLen];
      assert f[..HEAD_SIZE] == buffer[..HEAD_SIZE];
      assert f[HEAD_SIZE..] == buffer[HEAD_SIZE..][..pkgLen - HEAD_SIZE];
      sendSliding.WriteDataToBuffer(pkgLen, buffer);
    }

    // ctrl_logout_ack, file_path_ack and vid_connect_ack end in such an acknowledgement.
    method AckState(cmdType: u16, subType: u32, size: nat, state: u16) returns (ghost f: Frame)
      requires 2 <= size < 0x100
      modifies sendSliding
      ensures sendSliding.frames == old(sendSliding.frames) + [f] && StateReply(f, cmdType, subType, size, state)
    {
      var buffer := new byte[HEAD_SIZE + size];
      Store(buffer, HEAD_SIZE, Le16(Htons(state)));
      ghost var payload := buffer[HEAD_SIZE..];
      assert payload[..2] == buffer[..HEAD_SIZE + 2][HEAD_SIZE..] == Le16(Htons(state));
      assert buffer[HEAD_SIZE..HEAD_SIZE + size] == payload;
      f := Finish(buffer, cmdType, subType, HEAD_SIZE + size);
      assert f[HEAD_SIZE..HEAD_SIZE + 2] == f[HEAD_SIZE..][..2];
      StoredField16(f, HEAD_SIZE, state);
    }

    method CtrlLogoutAck() returns (ghost f: Frame)
      modifies sendSliding
      ensures sendSliding.frames == old(sendSliding.frames) + [f] && StateReply(f, TYPE_CTRL, CTRL_LOGOUT, 2, 1)
    {
      f := AckState(TYPE_CTRL, CTRL_LOGOUT, 2, 1);
    }

    method CtrlHeartAck() returns (ghost f: Frame)
      modifies sendSliding
      ensures sendSliding.frames == old(sendSliding.frames) + [f] && HeartReply(f)
    {
      var buffer := new byte[HEAD_SIZE + 4];
      buffer[HEAD_SIZE] := 1;
      assert buffer[HEAD_SIZE..HEAD_SIZE + 4][0] == 1;
      f := Finish(buffer, TYPE_CTRL, CTRL_HEART, HEAD_SIZE + 4);
      assert f[HEAD_SIZE] == f[HEAD_SIZE..][0];
    }

    // The path is copied up to its NUL; `readable` is whether opendir opens it.
    method FilePathAck(data: seq<byte>, readable: bool) returns (ghost f: Frame)
      modifies `path, sendSliding
      ensures path == CString(data)
      ensures sendSliding.frames == old(sendSliding.frames) + [f]
      ensures StateReply(f, TYPE_FILE, FILE_PATH, 4, if readable then 1 else 0)
    {
      path := CString(data);
      f := AckState(TYPE_FILE, FILE_PATH, 4, if readable then 1 else 0);
    }

    method VidConnectAck(data: seq<byte>) returns (ghost f: Frame)
      requires |data| > 0
      modifies `streamId, sendSliding
      ensures streamId == data[0] as int
      ensures sendSliding.frames == old(sendSliding.frames) + [f] && StateReply(f, TYPE_VID, VID_CONNECT, 4, 1)
    {
      streamId := data[0] as int;
      f := AckState(TYPE_VID, VID_CONNECT, 4, 1);
    }

    method FileStartAck(data: seq<byte>, found: Option<seq<byte>>) returns (ghost f: Frame)
      requires |data| > 0
      modifies `file, sendSliding
      ensures sendSliding.frames == old(sendSliding.frames) + [f]
      ensures StartReply(f, Requested(data, found), old(file), file)
    {
      var buffer := new byte[HEAD_SIZE + 4];
      var size: u32 := 0;
      if data[0] != 0 {
        if found.Some? {
          file := Open(found.value, 0);
          size := |found.value| % 0x1_0000_0000;
        }
      }
      f := AckSize(buffer, size);
    }

    method AckSize(buffer: array<byte>, size: u32) returns (ghost f: Frame)
      requires buffer.Length == HEAD_SIZE + 4
      modifies buffer, sendSliding
      ensures sendSliding.frames == old(sendSliding.frames) + [f]
      ensures IsPacket(f, TYPE_FILE, FILE_START, HEAD_SIZE + 4) && Field32(f, HEAD_SIZE) == size
    {
      var bytes := Le32(Htonl(size));
      Store(buffer, HEAD_SIZE, bytes);
      assert buffer[HEAD_SIZE..HEAD_SIZE + 4] == buffer[..HEAD_SIZE + 4][HEAD_SIZE..] == bytes;
      f := Finish(buffer, TYPE_FILE, FILE_START, HEAD_SIZE + 4);
      assert f[HEAD_SIZE..HEAD_SIZE + 4] == f[HEAD_SIZE..];
      StoredField32(f, HEAD_SIZE, size);
    }

    // fread into buffer + off.
    method Fread(buffer: array<byte>, off: nat, want: nat) returns (n: nat)
      requires file.Open? && GoodFile(file) && off + want <= buffer.Length
      modifies `file, buffer
      ensures n == Min(want, |old(file).content| - old(file).pos)
      ensures file == Open(old(file).content, old(file).pos + n)
      ensures buffer[..] == Splice(old(buffer[..]), off, old(file).content[old(file).pos..old(file).pos + n])
    {
      n := Min(want, |file.content| - file.pos);
      Put(buffer, off, file.content[file.pos..file.pos + n]);
      file := Open(file.content, file.pos + n);
    }

    // The file must not have been closed: the pointer still stands, but reading it is undefined.
    method FileSendAck(data: seq<byte>) returns (ghost f: Frame)
      requires |data| >= 8 && file != Closed && GoodFile(file)
      modifies `file, sendSliding
      ensures GoodFile(file)
      ensures sendSliding.frames == old(sendSliding.frames) + [f]
      ensures SendReply(f, data, old(file), file)
      ensures old(file).Open? ==>
                var left := |old(file).content| - old(file).pos;
                |f| == 48 + Min(256 * (data[4] as int) + data[5], left) && f[40..44] == data[0..4]
    {
      hide HeadPkg, Field16, Field32, SendReply, IsPacket;
      var fileDataLen := SendLen(data);
      var buffer := new byte[SEND_HEAD + fileDataLen];
      if file == NoFile {
        f := Finish(buffer, TYPE_FILE, FILE_SEND, SEND_HEAD);
        NoFileReply(f, data);
      } else {
        ghost var before := file;
        f := AnswerChunk(buffer, data);
        SendReplyBytes(f, data, before, file);
      }
    }

    // The rest of file_send_ack when there is a file.
    method AnswerChunk(buffer: array<byte>, data: seq<byte>) returns (ghost f: Frame)
      requires |data| >= 8 && file.Open? && GoodFile(file) && buffer.Length == SEND_HEAD + SendLen(data)
      modifies buffer, `file, sendSliding
      ensures GoodFile(file)
      ensures sendSliding.frames == old(sendSliding.frames) + [f] && SendReply(f, data, old(file), file)
    {
      hide HeadPkg, SendLen, SendSerial, Field32, Htonl, Le32;
      ghost var before := file;
      var serial := SendSerial(data);
      var fileReadLen := FillAnswer(buffer, serial, SendLen(data));
      var pkgLen := SEND_HEAD + fileReadLen;
      f := FinishSend(buffer, serial, pkgLen);
      assert f[SEND_HEAD..] == before.content[before.pos..before.pos + fileReadLen];
      if fileReadLen < SendLen(data) {
        file := Closed;
      }
    }

    // The serial number, and what fread delivers behind it.
    method FillAnswer(buffer: array<byte>, serial: u32, want: nat) returns (n: nat)
      requires file.Open? && GoodFile(file) && buffer.Length == SEND_HEAD + want
      modifies `file, buffer
      ensures n == Min(want, |old(file).content| - old(file).pos)
      ensures file == Open(old(file).content, old(file).pos + n)
      ensures buffer[HEAD_SIZE..HEAD_SIZE + 4] == Le32(Htonl(serial))
      ensures buffer[SEND_HEAD..SEND_HEAD + n] == old(file).content[old(file).pos..old(file).pos + n]
    {
      var bytes := Le32(Htonl(serial));
      Store(buffer, HEAD_SIZE, bytes);
      ghost var b0 := buffer[..];
      assert b0[HEAD_SIZE..HEAD_SIZE + 4] == buffer[..HEAD_SIZE + 4][HEAD_SIZE..] == bytes;
      n := Fread(buffer, SEND_HEAD, want);
      assert buffer[..][HEAD_SIZE..HEAD_SIZE + 4] == b0[HEAD_SIZE..HEAD_SIZE + 4];
      assert buffer[HEAD_SIZE..HEAD_SIZE + 4] == buffer[..][HEAD_SIZE..HEAD_SIZE + 4];
      assert buffer[SEND_HEAD..SEND_HEAD + n] == buffer[..][SEND_HEAD..SEND_HEAD + n];
    }

    method FinishSend(buffer: array<byte>, ghost serial: u32, pkgLen: nat) returns (ghost f: Frame)
      requires SEND_HEAD <= pkgLen <= buffer.Length && pkgLen < INT_LIMIT
      requires buffer[HEAD_SIZE..HEAD_SIZE + 4] == Le32(Htonl(serial))
      modifies buffer, sendSliding
      ensures sendSliding.frames == old(sendSliding.frames) + [f]
      ensures IsPacket(f, TYPE_FILE, FILE_SEND, pkgLen)
      ensures Field32(f, HEAD_SIZE) == serial && f[SEND_HEAD..] == old(buffer[SEND_HEAD..pkgLen])
    {
      ghost var body := buffer[HEAD_SIZE..pkgLen];
      assert body[..4] == buffer[HEAD_SIZE..HEAD_SIZE + 4] && body[8..] == buffer[SEND_HEAD..pkgLen];
      f := Finish(buffer, TYPE_FILE, FILE_SEND, pkgLen);
      assert f[HEAD_SIZE..HEAD_SIZE + 4] == body[..4];
      assert f[SEND_HEAD..] == body[8..];
      StoredField32(f, HEAD_SIZE, serial);
    }

    // One turn of run_send_stream: the fields are set in the thread's buffer, which is copied in
    // front of the stream data. The reserved fields keep whatever the buffer held.
    method RunSendStreamOnce(buffer: array<byte>, frameType: u32, streamData: seq<byte>) returns (ghost f: Frame)
      requires buffer.Length == STREAM_HEAD && STREAM_HEAD + |streamData| < INT_LIMIT
      modifies buffer, sendSliding
      ensures sendSliding.frames == old(sendSliding.frames) + [f] && StreamPacket(f, frameType, streamData)
    {
      var fields := StreamFields(Le32(Htonl(frameType)));
      Put(buffer, HEAD_SIZE, fields);
      var streamBuffer := new byte[STREAM_HEAD + |streamData|];
      ghost var b0, head := streamBuffer[..], buffer[..];
      assert buffer[..STREAM_HEAD] == head && head[HEAD_SIZE..][..STREAM_FIELDS] == fields;
      Memcpy(streamBuffer, buffer, STREAM_HEAD);
      Put(streamBuffer, STREAM_HEAD, streamData);
      StreamBody(b0, head, streamData);
      f := FinishStream(streamBuffer, fields, frameType, streamData);
    }

    method FinishStream(streamBuffer: array<byte>, ghost fields: seq<byte>, ghost frameType: u32,
                        ghost streamData: seq<byte>)
      returns (ghost f: Frame)
      requires streamBuffer.Length == STREAM_HEAD + |streamData| < INT_LIMIT
      requires fields == StreamFields(Le32(Htonl(frameType))) && streamBuffer[HEAD_SIZE..][..STREAM_FIELDS] == fields
      requires streamBuffer[HEAD_SIZE..][STREAM_HEAD - HEAD_SIZE..] == streamData
      modifies streamBuffer, sendSliding
      ensures sendSliding.frames == old(sendSliding.frames) + [f] && StreamPacket(f, frameType, streamData)
    {
      ghost var body := streamBuffer[HEAD_SIZE..];
      assert streamBuffer[HEAD_SIZE..streamBuffer.Length] == body;
      f := Finish(streamBuffer, TYPE_VID, VID_STREAM, streamBuffer.Length);
      assert f[HEAD_SIZE + 4..HEAD_SIZE + 8] == body[4..8] == fields[4..8];
      assert forall i :: HEAD_SIZE <= i < HEAD_SIZE + STREAM_FIELDS ==> f[i] == fields[i - HEAD_SIZE];
      assert f[STREAM_HEAD..] == body[STREAM_HEAD - HEAD_SIZE..];
      StoredField32(f, HEAD_SIZE + 4, frameType);
    }

    /* The directory listing */

    // strcpy(&list_ack->file[i][0], name)
    method CopyName(buffer: array<byte>, i: nat, name: Name)
      requires buffer.Length == LIST_SIZE && i < SLOTS && ValidName(name)
      modifies buffer
      ensures buffer[..] == Splice(old(buffer[..]), SlotAt(i), name + [0])
    {
      Put(buffer, SlotAt(i), name + [0]);
    }

    // A name into the next free slot, and file_number++.
    method AddName(buffer: array<byte>, name: Name, ghost cur: seq<Name>)
      requires buffer.Length == LIST_SIZE && |cur| < SLOTS && ValidName(name) && Holds(buffer[..], cur)
      modifies buffer
      ensures Holds(buffer[..], cur + [name])
    {
      var i: nat := buffer[HEAD_SIZE];
      ghost var b0 := buffer[..];
      CopyName(buffer, i, name);
      ghost var b1 := buffer[..];
      NameAdded(b0, cur, name);
      buffer[HEAD_SIZE] := buffer[HEAD_SIZE] + 1;
      NumberBumped(b1, cur + [name], buffer[..]);
    }

    method SendNames(buffer: array<byte>, ghost cur: seq<Name>) returns (ghost f: Frame)
      requires buffer.Length == LIST_SIZE && |cur| <= SLOTS && Holds(buffer[..], cur) && AllNames(cur)
      modifies buffer, sendSliding
      ensures sendSliding.frames == old(sendSliding.frames) + [f] && IsListPacket(f, cur)
    {
      ghost var b0 := buffer[..];
      assert buffer[HEAD_SIZE..LIST_SIZE] == b0[HEAD_SIZE..];
      f := Finish(buffer, TYPE_FILE, FILE_LIST, LIST_SIZE);
      HoldsPayload(b0, f, cur);
      ReportedIs(f, cur);
    }

    // file_list_ack
    method FileListAck(dir: Option<seq<DirEntry>>) returns (ghost resp: seq<Frame>)
      requires dir.Some? ==> forall i :: 0 <= i < |dir.value| ==> ValidName(dir.value[i].name)
      modifies sendSliding
      ensures sendSliding.frames == old(sendSliding.frames) + resp && ListReply(resp, dir)
    {
      hide HoldsNames, AllNames;
      resp := [];
      var buffer := new byte[LIST_SIZE];
      buffer[HEAD_SIZE] := 0;
      NoneHeld(buffer[..]);
      if dir.Some? {
        var entries := dir.value;
        ghost var done: seq<seq<Name>>, cur: seq<Name> := [], [];
        assert entries[..0] == [];
        NoneListed();
        for i := 0 to |entries|
          invariant sendSliding.frames == old(sendSliding.frames) + resp
          invariant Listing(entries[..i], done, cur, resp)
          invariant Holds(buffer[..], cur)
        {
          ListingNext(entries, i, done, cur, resp);
          if |entries[i].name| > 0 && entries[i].name[0] == 46 {
            continue;
          }
          if entries[i].isDir {
            continue;
          }
          AddName(buffer, entries[i].name, cur);
          cur := cur + [entries[i].name];
          if buffer[HEAD_SIZE] as int >= SLOTS {
            ghost var f := SendNames(buffer, cur);
            ListingSent(entries[..i + 1], done, cur, resp, f);
            done, cur, resp := done + [cur], [], resp + [f];
            buffer[HEAD_SIZE] := 0;
            NoneHeld(buffer[..]);
          }
        }
        assert entries[..|entries|] == entries;
        ghost var f := SendNames(buffer, cur);
        ListingDone(entries, done, cur, resp, f);
        resp := resp + [f];
      }
    }
  }

  predicate AllNames(cur: seq<Name>) {
    forall k :: 0 <= k < |cur| ==> ValidName(cur[k])
  }

  // Memory holds the names of `cur` in its first slots, and their number in file_number.
  ghost predicate Holds(b: seq<byte>, cur: seq<Name>) {
    && |b| == LIST_SIZE && |cur| <= SLOTS && AllNames(cur)
    && b[HEAD_SIZE] as int == |cur|
    && HoldsNames(b, cur)
  }

  ghost predicate HoldsNames(b: seq<byte>, cur: seq<Name>)
    requires |b| == LIST_SIZE && |cur| <= SLOTS && AllNames(cur)
  {
    forall k :: 0 <= k < |cur| ==> b[SlotAt(k)..SlotAt(k) + |cur[k]| + 1] == cur[k] + [0]
  }

  lemma {:induction false} SliceOfTake(s: seq<byte>, n: nat, from: nat, to: nat)
    requires from <= to <= n <= |s|
    ensures s[..n][from..to] == s[from..to]
  {
  }

  lemma {:induction false} SplicedBehind(b: seq<byte>, off: nat, s: seq<byte>, from: nat, to: nat)
    requires from <= to <= off && off + |s| <= |b|
    ensures Splice(b, off, s)[from..to] == b[from..to]
  {
    var c := Splice(b, off, s);
    assert c[..off] == b[..off];
    SliceOfTake(c, off, from, to);
    SliceOfTake(b, off, from, to);
  }

  lemma {:induction false} NameAdded(b: seq<byte>, cur: seq<Name>, name: Name)
    requires Holds(b, cur) && |cur| < SLOTS && ValidName(name)
    ensures var b1 := Splice(b, SlotAt(|cur|), name + [0]);
            b1[HEAD_SIZE] as int == |cur| && HoldsNames(b1, cur + [name])
  {
    var b1 := Splice(b, SlotAt(|cur|), name + [0]);
    var next := cur + [name];
    forall k | 0 <= k < |next|
      ensures b1[SlotAt(k)..SlotAt(k) + |next[k]| + 1] == next[k] + [0]
    {
      if k < |cur| {
        assert ValidName(cur[k]);
        SplicedBehind(b, SlotAt(|cur|), name + [0], SlotAt(k), SlotAt(k) + |cur[k]| + 1);
      }
    }
  }

  lemma {:induction false} NumberBumped(b: seq<byte>, cur: seq<Name>, b1: seq<byte>)
    requires |b| == |b1| == LIST_SIZE && |cur| <= SLOTS && AllNames(cur) && HoldsNames(b, cur)
    requires b1[HEAD_SIZE] as int == |cur| && b1[HEAD_SIZE + 1..] == b[HEAD_SIZE + 1..]
    ensures Holds(b1, cur)
  {
    forall k | 0 <= k < |cur|
      ensures b1[SlotAt(k)..SlotAt(k) + |cur[k]| + 1] == cur[k] + [0]
    {
      assert ValidName(cur[k]);
      var from, to := SlotAt(k), SlotAt(k) + |cur[k]| + 1;
      assert b1[from..to] == b1[HEAD_SIZE + 1..][from - HEAD_SIZE - 1..to - HEAD_SIZE - 1];
      assert b[from..to] == b[HEAD_SIZE + 1..][from - HEAD_SIZE - 1..to - HEAD_SIZE - 1];
    }
  }

  // The header does not matter.
  lemma {:induction false} HoldsPayload(b: seq<byte>, f: seq<byte>, cur: seq<Name>)
    requires Holds(b, cur) && |f| == LIST_SIZE && f[HEAD_SIZE..] == b[HEAD_SIZE..]
    ensures Holds(f, cur)
  {
    assert f[HEAD_SIZE] == f[HEAD_SIZE..][0] && b[HEAD_SIZE] == b[HEAD_SIZE..][0];
    assert f[HEAD_SIZE + 1..] == f[HEAD_SIZE..][1..] && b[HEAD_SIZE + 1..] == b[HEAD_SIZE..][1..];
    NumberBumped(b, cur, f);
  }

  lemma {:induction false} ReportedIs(f: Frame, cur: seq<Name>)
    requires Holds(f, cur)
    ensures Reported(f) == cur
  {
    forall k | 0 <= k < |cur|
      ensures Reported(f)[k] == cur[k]
    {
      assert ValidName(cur[k]);
      var slot := f[SlotAt(k)..SlotAt(k) + SLOT_SIZE];
      assert slot[..|cur[k]| + 1] == f[SlotAt(k)..SlotAt(k) + |cur[k]| + 1];
      CStringIs(slot, cur[k]);
    }
  }

  // What the loop has done after the entries `dir`: full packets sent, the rest in memory.
  ghost predicate Listing(dir: seq<DirEntry>, done: seq<seq<Name>>, cur: seq<Name>, resp: seq<Frame>) {
    && Names(dir) == Concat(done) + cur
    && |cur| < SLOTS && AllNames(cur)
    && Full(done) && Sent(done, resp)
  }

  ghost predicate Full(done: seq<seq<Name>>) {
    forall i :: 0 <= i < |done| ==> |done[i]| == SLOTS
  }

  ghost predicate Sent(done: seq<seq<Name>>, resp: seq<Frame>) {
    |resp| == |done| && forall k :: 0 <= k < |resp| ==> IsListPacket(resp[k], done[k])
  }

  lemma NoneListed()
    ensures Listing([], [], [], [])
  {
  }

  lemma NoneHeld(b: seq<byte>)
    requires |b| == LIST_SIZE && b[HEAD_SIZE] == 0
    ensures Holds(b, [])
  {
  }

  lemma {:induction false} ListingNext(dir: seq<DirEntry>, i: nat, done: seq<seq<Name>>, cur: seq<Name>,
                                       resp: seq<Frame>)
    requires i < |dir| && Listing(dir[..i], done, cur, resp) && ValidName(dir[i].name)
    ensures !Listed(dir[i]) ==> Listing(dir[..i + 1], done, cur, resp)
    ensures Listed(dir[i]) ==>
              Names(dir[..i + 1]) == Concat(done) + (cur + [dir[i].name]) && AllNames(cur + [dir[i].name])
  {
    assert dir[..i + 1][..i] == dir[..i];
    assert (Concat(done) + cur) + [dir[i].name] == Concat(done) + (cur + [dir[i].name]);
  }

  lemma {:induction false} ListingSent(dir: seq<DirEntry>, done: seq<seq<Name>>, cur: seq<Name>, resp: seq<Frame>,
                                       f: Frame)
    requires Names(dir) == Concat(done) + cur && |cur| == SLOTS
    requires Full(done) && Sent(done, resp) && IsListPacket(f, cur)
    ensures Listing(dir, done + [cur], [], resp + [f])
  {
    ConcatAppend(done, cur);
    assert Concat(done + [cur]) + [] == Concat(done + [cur]);
  }

  lemma {:induction false} ListingDone(dir: seq<DirEntry>, done: seq<seq<Name>>, cur: seq<Name>, resp: seq<Frame>,
                                       f: Frame)
    requires Listing(dir, done, cur, resp) && IsListPacket(f, cur)
    ensures ListReply(resp + [f], Some(dir))
  {
    BatchesAre(done, cur);
  }
}
