/**
 The client half of a file download: the sample client's globals, its acknowledgement callbacks and
 the commands that start a transfer (test_client.c:5-10, 42-73, 116-145, 172-177).
 */
module FileClient {
  import opened NetProtocol
  import opened Framing
  import opened TcpClient
  import AntProtocol

  const CHUNK := 1024
  const NAME_SIZE := 1024

  // The globals of a transfer. The local file is what has been written to it.
  datatype Download = Download(serial: nat, count: u32, viewinfo: nat, fileLen: u32, written: seq<byte>, isOpen: bool)

  // (file_len / 100) * (viewinfo * 10), in 32-bit unsigned arithmetic.
  function Threshold(fileLen: u32, viewinfo: nat): u32 {
    (fileLen / 100) * (viewinfo * 10) % 0x1_0000_0000
  }

  // A chunk arrives: it is written and counted, the meter moves up by one when the count is past
  // the threshold, and a short chunk closes the file.
  function AfterChunk(d: Download, chunk: seq<byte>): Download {
    var count := (d.count + |chunk|) % 0x1_0000_0000;
    var viewinfo := if count > Threshold(d.fileLen, d.viewinfo) then d.viewinfo + 1 else d.viewinfo;
    if |chunk| < CHUNK then
      d.(count := count, viewinfo := viewinfo, written := d.written + chunk, isOpen := false)
    else
      d.(count := count, viewinfo := viewinfo, written := d.written + chunk, serial := d.serial + 1)
  }

  function Begun(fileLen: u32): Download {
    Download(0, 0, 1, fileLen, [], true)
  }

  // The request for chunk number `serial`.
  predicate SendRequest(f: Frame, serial: nat) {
    && IsPacket(f, TYPE_FILE, FILE_SEND, HEAD_SIZE + 8)
    && AntProtocol.SendSerial(f[HEAD_SIZE..]) == serial
    && AntProtocol.SendLen(f[HEAD_SIZE..]) == CHUNK
  }

  // In bytes: serial, len == 1024, Rev.
  predicate IsChunkRequest(f: Frame, serial: u32) {
    && |f| == 48 && f[44..46] == [4, 0]
    && f[40..44] == [serial / 16777216, serial / 65536 % 256, serial / 256 % 256, serial % 256]
  }

  // The request to open a file by name.
  predicate StartRequest(f: Frame) {
    && IsPacket(f, TYPE_FILE, FILE_START, HEAD_SIZE + NAME_SIZE + 4)
    && f[HEAD_SIZE] != 0
  }

  // strcpy of "admin" and of "123456"
  function LoginName(): (s: seq<byte>) {
    ['a' as int, 'd' as int, 'm' as int, 'i' as int, 'n' as int, 0]
  }

  function LoginPasswd(): (s: seq<byte>) {
    ['1' as int, '2' as int, '3' as int, '4' as int, '5' as int, '6' as int, 0]
  }

  lemma {:induction false} LoginLaidOut(f: Frame, a: seq<byte>, b: seq<byte>, rev: seq<byte>)
    requires |f| >= 40 && f[40..] == LoginName() + a + (LoginPasswd() + b) + rev && |a| == 10 && |b| == 9
    ensures |f| == 72 + |rev|
    ensures f[40..46] == [97, 100, 109, 105, 110, 0] && f[56..63] == [49, 50, 51, 52, 53, 54, 0]
  {
    assert f[40..46] == f[40..][..6] == LoginName();
    assert f[56..63] == f[40..][16..23] == LoginPasswd();
  }

  lemma {:induction false} RequestLaidOut(f: Frame, serial: u32, rev: seq<byte>)
    requires |rev| == 2 && IsPacket(f, TYPE_FILE, FILE_SEND, 48)
    requires f[40..] == Le32(Htonl(serial)) + Le16(Htons(CHUNK)) + rev
    ensures SendRequest(f, serial) && IsChunkRequest(f, serial)
  {
    SerialBytes(serial);
    hide HeadPkg, AntProtocol.Field16, AntProtocol.Field32, Htonl, Htons, Le16, Le32;
    var data := f[40..];
    assert data[0..4] == Le32(Htonl(serial)) && data[4..6] == Le16(Htons(CHUNK));
    assert f[40..44] == data[0..4] && f[44..46] == data[4..6];
    AntProtocol.StoredField32(data, 0, serial);
    AntProtocol.StoredField16(data, 4, CHUNK);
  }

  lemma SerialBytes(v: u32)
    ensures Le32(Htonl(v)) == [v / 16777216, v / 65536 % 256, v / 256 % 256, v % 256]
    ensures Le16(Htons(CHUNK)) == [4, 0]
  {
    BigEndian32(v);
  }

  class TestClient {
    const client: QNetClient
    var fileSerial: int
    var readFileCount: u32
    var viewinfo: int
    var fileLen: u32
    var file: seq<byte>
    var fileOpen: bool

    constructor (client: QNetClient)
      ensures this.client == client
      ensures fileSerial == 0 && readFileCount == 0 && viewinfo == 0 && fileLen == 0 && file == [] && !fileOpen
    {
      this.client := client;
      fileSerial, readFileCount, viewinfo, fileLen := 0, 0, 0, 0;
      file, fileOpen := [], false;
    }

    ghost predicate Valid()
      reads this
    {
      0 <= fileSerial < INT_LIMIT && 0 <= viewinfo
    }

    ghost function State(): Download
      requires Valid()
      reads this
    {
      Download(fileSerial, readFileCount, viewinfo, fileLen, file, fileOpen)
    }

    // Build the request for the chunk `fileSerial` and hand it to main_cmd_process.
    method Request() returns (ghost f: Frame)
      requires Valid()
      modifies client.sendWindow
      ensures client.sendWindow.frames == old(client.sendWindow.frames) + [f]
      ensures SendRequest(f, fileSerial) && IsChunkRequest(f, fileSerial)
    {
      hide HeadPkg, SendRequest, IsChunkRequest, Le16, Le32, Htons, Htonl;
      var serial: u32 := fileSerial;
      var rev := Garbage(2);
      f := client.Command(TYPE_FILE, FILE_SEND, Le32(Htonl(serial)) + Le16(Htons(CHUNK)) + rev);
      RequestLaidOut(f, serial, rev);
    }

    // send_command, case 4
    method BeginTransfer() returns (ghost f: Frame)
      modifies this`fileSerial, this`readFileCount, this`viewinfo, this`file, this`fileOpen, client.sendWindow
      ensures Valid() && State() == Begun(fileLen)
      ensures fileSerial == 0 && readFileCount == 0 && viewinfo == 1 && file == [] && fileOpen
      ensures client.sendWindow.frames == old(client.sendWindow.frames) + [f]
      ensures SendRequest(f, 0) && IsChunkRequest(f, 0)
    {
      fileSerial := 0;
      readFileCount := 0;
      viewinfo := 1;
      file, fileOpen := [], true;
      f := Request();
    }

    // send_command, case 5: the name, its NUL, and what the buffer holds behind it.
    method AskForFile(name: seq<byte>, rest: seq<byte>) returns (ghost f: Frame)
      requires 0 < |name| < NAME_SIZE && 0 !in name && |name| + 1 + |rest| == NAME_SIZE + 4
      modifies client.sendWindow
      ensures client.sendWindow.frames == old(client.sendWindow.frames) + [f] && StartRequest(f)
      ensures |f| == 40 + 1024 + 4 && f[40..40 + |name| + 1] == name + [0]
    {
      var data := name + [0] + rest;
      assert data[0] == name[0] && name[0] in name;
      f := client.Command(TYPE_FILE, FILE_START, data);
      assert f[HEAD_SIZE] == f[HEAD_SIZE..][0];
      assert f[40..40 + |name| + 1] == f[HEAD_SIZE..][..|name| + 1] == data[..|name| + 1];
    }

    // The login that connect() sends: name[16], passwd[16] and Rev1, with what malloc left behind the
    // NULs and in Rev1.
    method LogIn() returns (ghost f: Frame)
      modifies client.sendWindow
      ensures client.sendWindow.frames == old(client.sendWindow.frames) + [f]
      ensures |f| == 40 + 16 + 16 + 4 && IsPacket(f, 1, 1, |f|)
      ensures f[40..46] == [97, 100, 109, 105, 110, 0] && f[56..63] == [49, 50, 51, 52, 53, 54, 0]
    {
      hide HeadPkg;
      var behindName := Garbage(10);
      var behindPasswd := Garbage(9);
      var rev := Garbage(4);
      f := client.Command(TYPE_CTRL, CTRL_LOGIN, LoginName() + behindName + (LoginPasswd() + behindPasswd) + rev);
      LoginLaidOut(f, behindName, behindPasswd, rev);
    }

    // Memory fresh from malloc.
    method Garbage(n: nat) returns (s: seq<byte>)
      ensures |s| == n
    {
      s := [];
      while |s| < n
        invariant |s| <= n
      {
        var b: byte := *;
        s := s + [b];
      }
    }

    method FilestartAck(data: seq<byte>)
      requires |data| >= 4 && Valid()
      modifies this`fileLen
      ensures Valid() && State() == old(State()).(fileLen := AntProtocol.Field32(data, 0))
    {
      fileLen := AntProtocol.Field32(data, 0);
    }

    // The local file is open while a transfer runs; fwrite takes all it is given, and the serial
    // number, a signed int, must not overflow.
    method FilesendAck(data: seq<byte>) returns (ghost sent: seq<Frame>)
      requires Valid() && fileOpen && 8 <= |data| < INT_LIMIT && fileSerial + 1 < INT_LIMIT
      modifies this`fileSerial, this`readFileCount, this`viewinfo, this`file, this`fileOpen, client.sendWindow
      ensures Valid() && State() == AfterChunk(old(State()), data[8..])
      ensures client.sendWindow.frames == old(client.sendWindow.frames) + sent
      ensures if |data| - 8 < CHUNK then sent == [] else |sent| == 1 && SendRequest(sent[0], fileSerial)
      ensures |data| - 8 < 1024 ==> sent == [] && fileSerial == old(fileSerial) && !fileOpen
      ensures |data| - 8 >= 1024 ==>
                |sent| == 1 && IsChunkRequest(sent[0], fileSerial) && fileSerial == old(fileSerial) + 1 && fileOpen
    {
      var dataLen := |data| - 8;
      file := file + data[8..];
      readFileCount := (readFileCount + dataLen) % 0x1_0000_0000;
      if readFileCount > Threshold(fileLen, viewinfo) {
        viewinfo := viewinfo + 1;
      }
      sent := [];
      if dataLen < CHUNK {
        fileOpen := false;
      } else {
        fileSerial := fileSerial + 1;
        ghost var f := Request();
        sent := [f];
      }
    }
  }
}
