/**
 What a failed READ of the client can do. Its receive thread ignores the result and appends the frame
 that was cut off, filled up with bytes that never were on the wire (QNetClient.cpp:517-522), and a
 dispatcher that is past its test of `quit` takes it (QNetClient.cpp:550-552). Safety of the download
 and totality of dispatch, which hold until then, do not survive it, and this says when exactly.
 */
module Strays {
  import opened Wrappers
  import opened NetProtocol
  import opened Framing
  import opened AntProtocol
  import opened FileClient
  import opened Session
  import opened Answerability
  import P = Pipe
  import X = Exchange
  import Registry = ClientRegistry
  import CommandLists
  import ClientDispatch
  import TcpClient

  /* What has arrived of a header */

  function Big16(v: u16): seq<byte> {
    [v / 0x100, v % 0x100]
  }

  function Big32(v: u32): seq<byte> {
    [High(v), Third(v), Second(v), Low(v)]
  }

  // The bytes of a field that have arrived are those of this value.
  predicate Agrees(rx: seq<byte>, off: nat, field: seq<byte>) {
    forall i :: off <= i < off + |field| && i < |rx| ==> rx[i] == field[i - off]
  }

  predicate SizeAgrees(rx: seq<byte>, n: u32) {
    Agrees(rx, LENGTH_AT, Big32(n))
  }

  predicate PairAgrees(rx: seq<byte>, t: u16, u: u32) {
    Agrees(rx, TYPE_AT, Big16(t)) && Agrees(rx, SUBTYPE_AT, Big32(u))
  }

  const LENGTH_AT := 4
  const TYPE_AT := 8
  const SUBTYPE_AT := 12
  const FIELDS_END := 16

  // The Length that has arrived.
  function Announced(rx: seq<byte>): u32
    requires TYPE_AT <= |rx|
  {
    Htonl(Load32(rx, LENGTH_AT))
  }

  lemma {:induction false} HeadBytes(f: Frame)
    requires HEAD_SIZE <= |f|
    ensures f[4..8] == Big32(LengthOf(f)) && f[8..10] == Big16(TypeOf(f)) && f[12..16] == Big32(SubOf(f))
  {
    hide Le16, Le32, Htonl, Htons, Load16, Load32, Number;
    NetworkOrder32(LengthOf(f), f, 4);
    BigEndian32(LengthOf(f));
    NetworkOrder16(TypeOf(f), f, 8);
    BigEndian16(TypeOf(f));
    NetworkOrder32(SubOf(f), f, 12);
    BigEndian32(SubOf(f));
  }

  lemma BigEndian16(v: u16)
    ensures Le16(Htons(v)) == Big16(v)
  {
    assert Htons(v) / 0x100 == v % 0x100 && Htons(v) % 0x100 == v / 0x100;
  }

  lemma {:induction false} SameFields(f: Frame, g: Frame)
    requires HEAD_SIZE <= |f| && HEAD_SIZE <= |g|
    requires forall i :: LENGTH_AT <= i < 10 || SUBTYPE_AT <= i < FIELDS_END ==> f[i] == g[i]
    ensures LengthOf(f) == LengthOf(g) && TypeOf(f) == TypeOf(g) && SubOf(f) == SubOf(g)
  {
    hide Htonl, Htons, Number;
    assert f[4] == g[4] && f[5] == g[5] && f[6] == g[6] && f[7] == g[7] && f[8] == g[8] && f[9] == g[9];
    assert f[12] == g[12] && f[13] == g[13] && f[14] == g[14] && f[15] == g[15];
  }

  // The bytes that have arrived agree with the frame that they begin.
  lemma {:induction false} BeginningAgrees(rx: seq<byte>, f: Frame)
    requires HEAD_SIZE <= |f| && rx <= f
    ensures SizeAgrees(rx, LengthOf(f)) && PairAgrees(rx, TypeOf(f), SubOf(f))
    ensures TYPE_AT <= |rx| ==> Announced(rx) == LengthOf(f)
  {
    hide LengthOf, TypeOf, SubOf, Big16, Big32;
    HeadBytes(f);
    assert forall i :: 4 <= i < 8 ==> f[i] == f[4..8][i - 4];
    assert forall i :: 8 <= i < 10 ==> f[i] == f[8..10][i - 8];
    assert forall i :: 12 <= i < 16 ==> f[i] == f[12..16][i - 12];
    if TYPE_AT <= |rx| {
      AnnouncedIs(rx, f);
    }
  }

  lemma {:induction false} AnnouncedIs(rx: seq<byte>, f: Frame)
    requires HEAD_SIZE <= |f| && rx <= f && TYPE_AT <= |rx|
    ensures Announced(rx) == LengthOf(f)
  {
    hide Htonl, Number;
    assert f[4] == rx[4] && f[5] == rx[5] && f[6] == rx[6] && f[7] == rx[7];
  }

  // And whatever frame agrees with them in size and pair can be what they are filled up to.
  lemma {:induction false} Overlay(rx: seq<byte>, f: Frame) returns (stray: Frame)
    requires WellFormed(f) && |rx| <= |f| && SizeAgrees(rx, |f|) && PairAgrees(rx, TypeOf(f), SubOf(f))
    ensures TcpClient.IsStray(stray, rx) && stray == rx + f[|rx|..]
    ensures |stray| == |f| && TypeOf(stray) == TypeOf(f) && SubOf(stray) == SubOf(f)
  {
    hide LengthOf, TypeOf, SubOf, Big16, Big32;
    HeadBytes(f);
    stray := rx + f[|rx|..];
    forall i | LENGTH_AT <= i < 10 || SUBTYPE_AT <= i < FIELDS_END
      ensures stray[i] == f[i]
    {
      assert i < 8 ==> f[i] == f[4..8][i - 4];
      assert 8 <= i < 10 ==> f[i] == f[8..10][i - 8];
      assert 12 <= i ==> f[i] == f[12..16][i - 12];
    }
    SameFields(stray, f);
  }

  // What is known of a frame that has arrived in part: the size of what it is filled up to can be its
  // own, and as long as the last byte of Length is missing any other below 256 if its own is.
  lemma {:induction false} SizesOpen(rx: seq<byte>, cut: Frame, n: u32)
    requires WellFormed(cut) && rx <= cut
    requires n == |cut| || (|rx| < TYPE_AT && n < 0x100 && |cut| < 0x100)
    ensures SizeAgrees(rx, n)
  {
    BeginningAgrees(rx, cut);
  }

  // The frame in front of a reader that has read a part of it.
  lemma {:induction false} CutOff(p: P.Pipe) returns (cut: Frame)
    requires P.PipeInv(p) && !Complete(p.rx)
    ensures WellFormed(cut) && p.rx < cut
    ensures p.rx != [] ==> P.Between(p) != [] && cut == P.Between(p)[0] && cut in p.appended
  {
    hide LengthOf, HeadPkg;
    var mid := P.Between(p);
    if mid == [] {
      assert p.rx == [];
      cut := Build(TYPE_CTRL, CTRL_LOGIN, []);
      PacketDecodes(cut, TYPE_CTRL, CTRL_LOGIN, |cut|);
    } else {
      cut := mid[0];
      assert cut == p.appended[P.Delivered(p)];
      ReaderAligned(mid, p.rx, p.wire + p.out);
    }
  }

  /* The download */

  // A byte that is not the one that stands there in the file.
  function WrongByte(content: seq<byte>, k: nat): byte {
    if k < |content| then (255 - content[k] as int) as byte else 0
  }

  lemma {:induction false} Differs(a: seq<byte>, content: seq<byte>, k: nat)
    requires k < |a| && a[k] == WrongByte(content, k)
    ensures !(a <= content)
  {
  }

  // What arrived can become a chunk that brings bytes, or one on which the callback is not defined.
  predicate CanSpoil(rx: seq<byte>, d: Download) {
    PairAgrees(rx, TYPE_FILE, FILE_SEND) && (TYPE_AT <= |rx| && Announced(rx) == SEND_HEAD ==> !d.isOpen)
  }

  // The callback of a chunk is defined, and what has been written is a beginning of the file when the
  // callback of the frame has run.
  predicate WritesWell(d: Download, ack: Frame, content: X.Content) {
    (X.IsSend(ack) ==> X.Defined(d, ack)) && X.Taken(d, ack).written <= content
  }

  // A chunk of this size that rx begins, with a wrong byte where the next byte of its data belongs.
  lemma {:induction false} SpoiledChunk(rx: seq<byte>, n: nat, d: Download, content: X.Content) returns (stray: Frame)
    requires HEAD_SIZE <= n < INT_LIMIT && n != SEND_HEAD && |rx| < n
    requires SizeAgrees(rx, n) && PairAgrees(rx, TYPE_FILE, FILE_SEND)
    ensures TcpClient.IsStray(stray, rx) && X.IsSend(stray) && |stray| == n
    ensures SEND_HEAD < n ==> !(X.Taken(d, stray).written <= content)
  {
    hide LengthOf, TypeOf, SubOf, HeadPkg, SizeAgrees, PairAgrees;
    var at := if |rx| < SEND_HEAD then SEND_HEAD else |rx|;
    var wrong := WrongByte(content, |d.written| + at - SEND_HEAD);
    var f := Build(TYPE_FILE, FILE_SEND, seq(n - HEAD_SIZE, i => wrong));
    PacketDecodes(f, TYPE_FILE, FILE_SEND, n);
    stray := Overlay(rx, f);
    if SEND_HEAD < n {
      assert stray[at] == f[at] == f[HEAD_SIZE..][at - HEAD_SIZE] == wrong;
      Spoils(d, stray, at, content);
    }
  }

  lemma {:induction false} Spoils(d: Download, stray: Frame, n: nat, content: X.Content)
    requires X.IsSend(stray) && SEND_HEAD <= n < |stray|
    requires stray[n] == WrongByte(content, |d.written| + n - SEND_HEAD)
    ensures !(X.Taken(d, stray).written <= content)
  {
    hide TypeOf, SubOf;
    var e, k := X.Taken(d, stray), |d.written| + n - SEND_HEAD;
    assert e.written == d.written + stray[SEND_HEAD..];
    assert e.written[k] == stray[SEND_HEAD..][n - SEND_HEAD] == stray[n];
    Differs(e.written, content, k);
  }

  // A frame of the pair and of the size of the one that was cut off.
  lemma {:induction false} SameSize(rx: seq<byte>, cut: Frame, t: u16, u: u32, b: byte) returns (stray: Frame)
    requires WellFormed(cut) && rx < cut && PairAgrees(rx, t, u)
    ensures TcpClient.IsStray(stray, rx) && |stray| == |cut| && TypeOf(stray) == t && SubOf(stray) == u
    ensures forall i :: HEAD_SIZE <= i && |rx| <= i < |cut| ==> stray[i] == b
  {
    hide LengthOf, TypeOf, SubOf, HeadPkg, SizeAgrees, PairAgrees;
    var f := Build(t, u, seq(|cut| - HEAD_SIZE, _ => b));
    PacketDecodes(f, t, u, |cut|);
    SizesOpen(rx, cut, |cut|);
    stray := Overlay(rx, f);
    assert forall i :: HEAD_SIZE <= i < |f| ==> f[i] == f[HEAD_SIZE..][i - HEAD_SIZE];
  }

  // Where it can spoil, it does for some rest.
  lemma {:induction false} SpoilExists(p: P.Pipe, d: Download, content: X.Content) returns (stray: Frame)
    requires P.PipeInv(p) && !Complete(p.rx) && CanSpoil(p.rx, d)
    ensures TcpClient.IsStray(stray, p.rx) && X.IsSend(stray)
    ensures X.Defined(d, stray) ==> !(X.Taken(d, stray).written <= content)
  {
    hide LengthOf, TypeOf, SubOf, PairAgrees, SizeAgrees, X.Taken;
    var cut := CutOff(p);
    BeginningAgrees(p.rx, cut);
    if TYPE_AT <= |p.rx| && Announced(p.rx) == SEND_HEAD {
      stray := SameSize(p.rx, cut, TYPE_FILE, FILE_SEND, 0);
    } else {
      var n := if |p.rx| < TYPE_AT && |cut| <= SEND_HEAD then 0xff else |cut|;
      SizesOpen(p.rx, cut, n);
      stray := SpoiledChunk(p.rx, n, d, content);
    }
  }

  // Whatever a failed READ leaves, what the client has written is still a beginning of the file when
  // it has taken that, if and only if the bytes that had arrived exclude a chunk, or announce one
  // without data for a file that is open.
  lemma {:induction false} DownloadSurvives(s: Session, content: X.Content)
    requires Pipes(s) && s.d.written <= content && !Complete(s.s2c.rx)
    ensures (forall stray :: TcpClient.IsStray(stray, s.s2c.rx) ==> WritesWell(s.d, stray, content))
            <==> !CanSpoil(s.s2c.rx, s.d)
  {
    hide LengthOf, TypeOf, SubOf, P.PipeInv, PairAgrees, SizeAgrees;
    var rx := s.s2c.rx;
    if CanSpoil(rx, s.d) {
      var stray := SpoilExists(s.s2c, s.d, content);
      assert !WritesWell(s.d, stray, content);
    } else {
      forall stray | TcpClient.IsStray(stray, rx)
        ensures WritesWell(s.d, stray, content)
      {
        BeginningAgrees(rx, stray);
        if X.IsSend(stray) {
          assert |stray| == SEND_HEAD;
          assert stray[SEND_HEAD..] == [] && s.d.written + [] == s.d.written;
        }
      }
    }
  }

  /* The client's other variables */

  // What arrived can become a chunk, or a file length that is not the one the client has.
  predicate CanDisturb(rx: seq<byte>, d: Download) {
    || PairAgrees(rx, TYPE_FILE, FILE_SEND)
    || (PairAgrees(rx, TYPE_FILE, FILE_START)
        && (HEAD_SIZE + 4 <= |rx| ==> Field32(rx, HEAD_SIZE) != d.fileLen))
  }

  predicate LeavesAlone(d: Download, ack: Frame) {
    X.Defined(d, ack) && X.Taken(d, ack) == d
  }

  lemma {:induction false} LastDigit(f: Frame, off: nat)
    requires off + 4 <= |f|
    ensures Low(Field32(f, off)) == f[off + 3]
  {
    NumberDigits(f[off], f[off + 1], f[off + 2], f[off + 3]);
    NumberDigits(f[off + 3], f[off + 2], f[off + 1], f[off]);
  }

  // Some rest of the frame disturbs the client.
  lemma {:induction false} DisturbExists(p: P.Pipe, d: Download) returns (stray: Frame)
    requires P.PipeInv(p) && !Complete(p.rx) && CanDisturb(p.rx, d)
    ensures TcpClient.IsStray(stray, p.rx) && !LeavesAlone(d, stray)
  {
    hide LengthOf, TypeOf, SubOf, PairAgrees, SizeAgrees, Field32;
    var cut := CutOff(p);
    if PairAgrees(p.rx, TYPE_FILE, FILE_SEND) {
      stray := SameSize(p.rx, cut, TYPE_FILE, FILE_SEND, 0);
      ChunkDisturbs(d, stray);
    } else {
      stray := SameSize(p.rx, cut, TYPE_FILE, FILE_START, if Low(d.fileLen) == 0 then 1 else 0);
      if HEAD_SIZE + 4 <= |stray| {
        LengthDiffers(p.rx, stray, d.fileLen);
      }
    }
  }

  // A chunk always changes something: its bytes are counted, or it closes the file.
  lemma {:induction false} ChunkDisturbs(d: Download, stray: Frame)
    requires X.IsSend(stray)
    ensures !LeavesAlone(d, stray)
  {
    hide TypeOf, SubOf;
    var e := X.Taken(d, stray);
    if X.Defined(d, stray) && |stray| > SEND_HEAD {
      assert |e.written| == |d.written| + (|stray| - SEND_HEAD);
    }
  }

  lemma {:induction false} LengthDiffers(rx: seq<byte>, stray: Frame, len: u32)
    requires HEAD_SIZE + 4 <= |stray| && rx <= stray
    requires if HEAD_SIZE + 4 <= |rx| then Field32(rx, HEAD_SIZE) != len else stray[HEAD_SIZE + 3] != Low(len)
    ensures Field32(stray, HEAD_SIZE) != len
  {
    if HEAD_SIZE + 4 <= |rx| {
      SameField(rx, stray);
    } else {
      LastDigit(stray, HEAD_SIZE);
    }
  }

  lemma {:induction false} SameField(rx: seq<byte>, f: Frame)
    requires HEAD_SIZE + 4 <= |rx| && rx <= f
    ensures Field32(rx, HEAD_SIZE) == Field32(f, HEAD_SIZE)
  {
    hide Htonl, Number;
    assert rx[40] == f[40] && rx[41] == f[41] && rx[42] == f[42] && rx[43] == f[43];
  }

  // All the client's variables, the meter and the announced length among them, are left as they were
  // by whatever a failed READ leaves, if and only if the bytes that had arrived exclude a chunk and a
  // file length, or give the length that the client has already. Then the session's theorems go on.
  lemma {:induction false} ClientSurvives(s: Session)
    requires Pipes(s) && !Complete(s.s2c.rx)
    ensures (forall stray :: TcpClient.IsStray(stray, s.s2c.rx) ==> LeavesAlone(s.d, stray))
            <==> !CanDisturb(s.s2c.rx, s.d)
  {
    hide LengthOf, TypeOf, SubOf, P.PipeInv, PairAgrees, SizeAgrees, Field32;
    var rx := s.s2c.rx;
    if CanDisturb(rx, s.d) {
      var stray := DisturbExists(s.s2c, s.d);
    } else {
      forall stray | TcpClient.IsStray(stray, rx)
        ensures LeavesAlone(s.d, stray)
      {
        BeginningAgrees(rx, stray);
        if X.IsStart(stray) {
          SameField(rx, stray);
        }
      }
    }
  }

  // The session counts such a packet as not having struck.
  lemma {:induction false} LeftAlone(s: Session, reply: seq<Frame>, t: Session, content: X.Content)
    requires IsStep(s, DispatchStray(reply), t, content) && LeavesAlone(s.d, s.stray[0])
    ensures t.d == s.d && t.struck == s.struck && reply == []
  {
    hide X.IsSend, X.IsStart;
    TakenNothing(s.d, s.stray[0], reply);
  }

  /* Dispatch */

  ghost predicate HasNode(calls: seq<Registry.Call>, f: Frame) {
    HEAD_SIZE <= |f| && CommandLists.Lookup(Registry.After(calls), TypeOf(f), SubOf(f)) != None
  }

  // Over any history of the table, the dispatcher finds a node for whatever a failed READ left if and
  // only if every pair that agrees with the bytes that had arrived has a node.
  lemma {:induction false} NodeForEveryPair(s: Session, calls: seq<Registry.Call>)
    requires Pipes(s) && !Complete(s.s2c.rx)
    ensures (forall stray :: TcpClient.IsStray(stray, s.s2c.rx) ==> HasNode(calls, stray)) <==>
            (forall t: u16, u: u32 :: PairAgrees(s.s2c.rx, t, u) ==>
                                        CommandLists.Lookup(Registry.After(calls), t, u) != None)
  {
    hide LengthOf, TypeOf, SubOf, P.PipeInv, PairAgrees, SizeAgrees, Registry.After, CommandLists.Lookup;
    var rx := s.s2c.rx;
    var cut := CutOff(s.s2c);
    if forall stray :: TcpClient.IsStray(stray, rx) ==> HasNode(calls, stray) {
      forall t: u16, u: u32 | PairAgrees(rx, t, u)
        ensures CommandLists.Lookup(Registry.After(calls), t, u) != None
      {
        var stray := SameSize(rx, cut, t, u, 0);
      }
    } else {
      var stray: Frame :| TcpClient.IsStray(stray, rx) && !HasNode(calls, stray);
      BeginningAgrees(rx, stray);
    }
  }

  // When the application has set callbacks for the constructor's pairs only, that is the case if and
  // only if all the fields had arrived.
  lemma {:induction false} DispatchSurvives(s: Session, content: X.Content, login: Frame, calls: seq<Registry.Call>)
    requires Inv(s, content, login) && !Complete(s.s2c.rx)
    requires Registry.Legal(calls) && ClientDispatch.CONSTRUCTOR_CALLS <= calls
    requires forall i :: 0 <= i < |calls| && calls[i].SetCallback? ==>
                           ClientDispatch.Emittable(calls[i].cmdType, calls[i].subType)
    ensures (forall stray :: TcpClient.IsStray(stray, s.s2c.rx) ==> HasNode(calls, stray))
            <==> FIELDS_END <= |s.s2c.rx|
  {
    hide LengthOf, TypeOf, SubOf, P.PipeInv, X.Inv, PairAgrees, SizeAgrees, Base;
    var rx := s.s2c.rx;
    var cut := CutOff(s.s2c);
    if FIELDS_END <= |rx| {
      CutIsSent(s, cut, login);
      ClientDispatch.SentIsEmittable(cut);
      ClientDispatch.DispatchTotal(calls, TypeOf(cut), SubOf(cut));
      forall stray | TcpClient.IsStray(stray, rx)
        ensures HasNode(calls, stray)
      {
        PairArrived(rx, stray, cut);
      }
    } else {
      var u := OtherPair(rx, cut);
      NotSet(calls, TypeOf(cut), u);
      var stray := SameSize(rx, cut, TypeOf(cut), u, 0);
    }
  }

  lemma {:induction false} PairArrived(rx: seq<byte>, f: Frame, g: Frame)
    requires HEAD_SIZE <= |f| && HEAD_SIZE <= |g| && rx <= f && rx <= g && FIELDS_END <= |rx|
    ensures TypeOf(f) == TypeOf(g) && SubOf(f) == SubOf(g)
  {
    hide LengthOf, TypeOf, SubOf;
    assert forall i :: 0 <= i < FIELDS_END ==> f[i] == rx[i] == g[i];
    SameFields(f, g);
  }

  // As long as the last byte of CmdSubType is missing it can still be one that no command has.
  lemma {:induction false} OtherPair(rx: seq<byte>, cut: Frame) returns (u: u32)
    requires HEAD_SIZE <= |cut| && rx <= cut && |rx| < FIELDS_END
    ensures PairAgrees(rx, TypeOf(cut), u) && u % 0x100 == 0xff
  {
    hide LengthOf, TypeOf, SubOf;
    BeginningAgrees(rx, cut);
    var v := SubOf(cut);
    u := Number(0xff, Second(v), Third(v), High(v));
    NumberDigits(0xff, Second(v), Third(v), High(v));
  }

  lemma {:induction false} NotSet(calls: seq<Registry.Call>, t: u16, u: u32)
    requires Registry.Legal(calls) && u % 0x100 == 0xff
    requires forall i :: 0 <= i < |calls| && calls[i].SetCallback? ==>
                           ClientDispatch.Emittable(calls[i].cmdType, calls[i].subType)
    ensures CommandLists.Lookup(Registry.After(calls), t, u) == None
  {
    hide Registry.After, CommandLists.Lookup, Registry.LastSet;
    Registry.RefinesMap(calls, t, u);
    ClientDispatch.LastSetExists(calls, t, u);
  }

  lemma {:induction false} CutIsSent(s: Session, cut: Frame, login: Frame)
    requires Base(s, login) && cut in s.s2c.appended
    ensures ClientDispatch.Sent(cut)
  {
    hide LoginOrder, AllSized, Discipline, Interleaved, ClientDispatch.Sent;
    var k :| 0 <= k < |s.s2c.appended| && s.s2c.appended[k] == cut;
    assert (s.s2c.appended + s.outbox)[k] == cut;
  }

  /* On runs */

  lemma {:induction false} RunOn(ss: seq<Session>, acts: seq<Action>, a: Action, t: Session, content: X.Content,
                                 login: Frame)
    requires IsRun(ss, acts, content, login) && IsStep(ss[|acts|], a, t, content)
    ensures IsRun(ss + [t], acts + [a], content, login)
  {
    hide IsStep, Start, FirstPacket;
    var tt, bcts := ss + [t], acts + [a];
    forall i | 0 <= i < |bcts|
      ensures StepAt(tt, bcts, content, i)
    {
      if i < |acts| {
        assert StepAt(ss, acts, content, i);
      }
    }
  }

  lemma {:induction false} SerialBound(s: Session, content: X.Content, login: Frame)
    requires Inv(s, content, login) && !s.struck
    ensures s.d.serial + 1 < 0x1_0000_0000 && s.d.written <= content
  {
    hide Base, P.PipeInv, Files, X.UnderWay, X.ServerGood;
  }

  // The client's READ can fail where the frame at hand can still become a chunk that spoils.
  predicate Exposed(s: Session) {
    && !s.struck && !s.s2c.recvDead && s.s2c.recvWin == []
    && !Complete(s.s2c.rx) && CanSpoil(s.s2c.rx, s.d)
  }

  // The dispatcher is at a frame on which its callback is not defined.
  predicate AtUndefined(s: Session) {
    s.s2c.recvWin == [] && s.stray != [] && !X.Defined(s.d, s.stray[0])
  }

  lemma {:induction false} StrayTaken(s: Session, stray: Frame, content: X.Content, login: Frame)
    returns (reply: seq<Frame>, failed: Session, broken: Session)
    requires Inv(s, content, login) && Exposed(s)
    requires TcpClient.IsStray(stray, s.s2c.rx) && X.Defined(s.d, stray)
    ensures IsStep(s, ReadFail(stray), failed, content) && IsStep(failed, DispatchStray(reply), broken, content)
    ensures broken.d == X.Taken(s.d, stray)
  {
    hide P.PipeInv, Base, X.Inv, X.Taken, X.Replies, X.Defined, Complete, CanSpoil,
      TcpClient.IsStray;
    SerialBound(s, content, login);
    reply := ReplyExists(s.d, stray);
    failed := Do(s, ReadFail(stray));
    broken := Do(failed, DispatchStray(reply));
  }

  lemma {:induction false} StrayLeft(s: Session, stray: Frame, content: X.Content) returns (failed: Session)
    requires !s.s2c.recvDead && s.s2c.recvWin == [] && !Complete(s.s2c.rx) && TcpClient.IsStray(stray, s.s2c.rx)
    ensures IsStep(s, ReadFail(stray), failed, content)
    ensures failed.s2c.recvWin == [] && failed.stray == [stray] && failed.d == s.d
  {
    hide Complete, TcpClient.IsStray;
    failed := Do(s, ReadFail(stray));
  }

  // Every run that ends in such a state goes on to one in which what has been written is not a
  // beginning of the file, or the next callback is not defined.
  lemma {:induction false} StrayBreaksDownload(ss: seq<Session>, acts: seq<Action>, content: X.Content, login: Frame)
    returns (tt: seq<Session>, bcts: seq<Action>)
    requires IsRun(ss, acts, content, login) && Exposed(ss[|acts|])
    ensures IsRun(tt, bcts, content, login) && ss <= tt && acts <= bcts && |acts| < |bcts| <= |acts| + 2
    ensures !(tt[|bcts|].d.written <= content) || AtUndefined(tt[|bcts|])
  {
    hide IsStep, Start, FirstPacket, Base, X.Inv, P.PipeInv, CanSpoil, X.Defined, X.Taken, TcpClient.IsStray,
      Complete;
    RunInv(ss, acts, content, login, |acts|);
    var s := ss[|acts|];
    var stray := SpoilExists(s.s2c, s.d, content);
    if !X.Defined(s.d, stray) {
      var failed := StrayLeft(s, stray, content);
      RunOn(ss, acts, ReadFail(stray), failed, content, login);
      tt, bcts := ss + [failed], acts + [ReadFail(stray)];
    } else {
      var reply, failed, broken := StrayTaken(s, stray, content, login);
      RunOn(ss, acts, ReadFail(stray), failed, content, login);
      RunOn(ss + [failed], acts + [ReadFail(stray)], DispatchStray(reply), broken, content, login);
      tt, bcts := ss + [failed] + [broken], acts + [ReadFail(stray)] + [DispatchStray(reply)];
    }
  }

  // And every run in which READ can fail while some pair without a node agrees with what has arrived
  // goes on to one in which the dispatcher is about to take a frame that has no node.
  lemma {:induction false} StrayBreaksDispatch(ss: seq<Session>, acts: seq<Action>, content: X.Content, login: Frame,
                                               calls: seq<Registry.Call>, t: u16, u: u32)
    returns (tt: seq<Session>, bcts: seq<Action>)
    requires IsRun(ss, acts, content, login)
    requires var s := ss[|acts|];
             !s.s2c.recvDead && s.s2c.recvWin == [] && !Complete(s.s2c.rx) && PairAgrees(s.s2c.rx, t, u)
    requires CommandLists.Lookup(Registry.After(calls), t, u) == None
    ensures IsRun(tt, bcts, content, login) && ss <= tt && acts <= bcts && |bcts| == |acts| + 1
    ensures var s := tt[|bcts|]; s.s2c.recvWin == [] && s.stray != [] && !HasNode(calls, s.stray[0])
  {
    hide Start, FirstPacket, IsStep, TypeOf, SubOf, Registry.After, CommandLists.Lookup, TcpClient.IsStray,
      PairAgrees, Complete, P.PipeInv;
    var s := ss[|acts|];
    RunPipes(ss, acts, content, login);
    var cut := CutOff(s.s2c);
    var stray := SameSize(s.s2c.rx, cut, t, u, 0);
    var failed := StrayLeft(s, stray, content);
    RunOn(ss, acts, ReadFail(stray), failed, content, login);
    tt, bcts := ss + [failed], acts + [ReadFail(stray)];
  }

  lemma {:induction false} FirstSteps(content: X.Content, login: Frame, f: Frame, g: Frame)
    returns (s1: Session, s2: Session)
    requires StartRequest(f) && SendRequest(g, 0)
    ensures IsStep(Start(login), Ask(f), s1, content) && IsStep(s1, Begin(g), s2, content)
    ensures Exposed(s2)
    ensures s2.sends == 1 && s2.d.isOpen
  {
    hide StartRequest, SendRequest, P.PipeInv;
    s1 := Do(Start(login), Ask(f));
    s2 := Do(s1, Begin(g));
  }

  // There are such runs: the transfer has begun and nothing has arrived.
  lemma {:induction false} TransferBegins(content: X.Content, login: Frame)
    returns (ss: seq<Session>, acts: seq<Action>)
    requires FirstPacket(login)
    ensures IsRun(ss, acts, content, login)
    ensures Exposed(ss[|acts|]) && ss[|acts|].sends == 1 && ss[|acts|].d.isOpen
  {
    hide StartRequest, SendRequest, FirstPacket, Start, IsStep, Exposed;
    var f := StartRequestExists();
    var g := RequestExists(0);
    var s1, s2 := FirstSteps(content, login, f, g);
    RunOn([Start(login)], [], Ask(f), s1, content, login);
    RunOn([Start(login)] + [s1], [] + [Ask(f)], Begin(g), s2, content, login);
    ss, acts := [Start(login)] + [s1] + [s2], [] + [Ask(f)] + [Begin(g)];
  }

  lemma {:induction false} RunPipes(ss: seq<Session>, acts: seq<Action>, content: X.Content, login: Frame)
    requires IsRun(ss, acts, content, login)
    ensures Pipes(ss[|acts|])
  {
    hide StepAt, Start, FirstPacket, Base, X.Inv;
    RunInv(ss, acts, content, login, |acts|);
  }
}
