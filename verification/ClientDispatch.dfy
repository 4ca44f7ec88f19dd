/**
 The client's end of dispatch: the table that the constructor of QNetClient fills
 (QNetClient.cpp:15-50), and a turn of the dispatching thread, which follows the node it finds
 without checking for NULL (QNetClient.cpp:552-563).
 */
module ClientDispatch {
  import opened Wrappers
  import opened NetProtocol
  import opened Framing
  import opened Transport
  import opened CommandLists
  import opened ClientRegistry
  import Dispatch
  import AntProtocol
  import TcpServer

  const CONSTRUCTOR_CALLS: seq<Call> := [
    AppendType(TYPE_CTRL), AppendType(TYPE_FILE), AppendType(TYPE_VID), AppendType(TYPE_FILE),
    SetCallback(TYPE_CTRL, CTRL_HEART, Null), SetCallback(TYPE_CTRL, CTRL_LOGIN, Null),
    SetCallback(TYPE_CTRL, CTRL_LOGOUT, Null),
    SetCallback(TYPE_FILE, FILE_START, Null), SetCallback(TYPE_FILE, FILE_SEND, Null),
    SetCallback(TYPE_FILE, FILE_PATH, Null), SetCallback(TYPE_FILE, FILE_LIST, Null),
    SetCallback(TYPE_VID, VID_CONNECT, Null), SetCallback(TYPE_VID, VID_STREAM, Null)]

  // The pairs on the packets that a server sends.
  predicate Emittable(t: u16, s: u32) {
    || (t == TYPE_CTRL && (s == CTRL_LOGIN || s == CTRL_LOGOUT || s == CTRL_HEART))
    || (t == TYPE_FILE && (s == FILE_LIST || s == FILE_START || s == FILE_PATH || s == FILE_SEND))
    || (t == TYPE_VID && (s == VID_CONNECT || s == VID_STREAM))
  }

  // Where the constructor sets the callback of a pair.
  function Position(t: u16, s: u32): (k: nat)
    ensures k <= |CONSTRUCTOR_CALLS|
    ensures k < |CONSTRUCTOR_CALLS| ==> CONSTRUCTOR_CALLS[k] == SetCallback(t, s, Null)
    ensures k < |CONSTRUCTOR_CALLS| <==> Emittable(t, s)
    ensures k == |CONSTRUCTOR_CALLS| ==>
              forall j :: 0 <= j < |CONSTRUCTOR_CALLS| ==> !SetsPair(CONSTRUCTOR_CALLS[j], t, s)
  {
    if t == TYPE_CTRL && s == CTRL_HEART then 4
    else if t == TYPE_CTRL && s == CTRL_LOGIN then 5
    else if t == TYPE_CTRL && s == CTRL_LOGOUT then 6
    else if t == TYPE_FILE && s == FILE_START then 7
    else if t == TYPE_FILE && s == FILE_SEND then 8
    else if t == TYPE_FILE && s == FILE_PATH then 9
    else if t == TYPE_FILE && s == FILE_LIST then 10
    else if t == TYPE_VID && s == VID_CONNECT then 11
    else if t == TYPE_VID && s == VID_STREAM then 12
    else 13
  }

  lemma ConstructorLegal()
    ensures Legal(CONSTRUCTOR_CALLS)
  {
    var calls := CONSTRUCTOR_CALLS;
    forall i | 0 <= i < |calls| && calls[i].SetCallback?
      ensures AppendType(calls[i].cmdType) in calls[..i]
    {
      assert calls[..i][0] == calls[0] && calls[..i][1] == calls[1] && calls[..i][2] == calls[2];
    }
  }

  predicate SetsPair(c: Call, t: u16, s: u32) {
    c.SetCallback? && c.cmdType == t && c.subType == s
  }

  lemma {:induction false} LastSetExists(calls: seq<Call>, t: u16, s: u32)
    ensures LastSet(calls, t, s) != None <==> exists i :: 0 <= i < |calls| && SetsPair(calls[i], t, s)
  {
    if calls != [] {
      var n := |calls| - 1;
      var before := calls[..n];
      LastSetExists(before, t, s);
      assert forall i :: 0 <= i < n ==> calls[i] == before[i];
      if i :| 0 <= i < n && SetsPair(calls[i], t, s) {
        assert SetsPair(before[i], t, s);
      }
    }
  }

  // Whatever callbacks are set after construction, the pairs a search finds include every pair the
  // server can send.
  lemma {:induction false} DispatchTotal(calls: seq<Call>, t: u16, s: u32)
    requires Legal(calls) && CONSTRUCTOR_CALLS <= calls && Emittable(t, s)
    ensures Registered(After(calls), t) && Lookup(After(calls), t, s) != None
  {
    var k := Position(t, s);
    assert calls[k] == CONSTRUCTOR_CALLS[k] && SetsPair(calls[k], t, s);
    RefinesMap(calls, t, s);
    LastSetExists(calls, t, s);
    TypesAppended(calls, t);
  }

  lemma {:induction false} TypesAppended(calls: seq<Call>, t: u16)
    requires CONSTRUCTOR_CALLS <= calls && t in {TYPE_CTRL, TYPE_FILE, TYPE_VID}
    ensures AppendType(t) in calls
  {
    var i := if t == TYPE_CTRL then 0 else if t == TYPE_FILE then 1 else 2;
    assert calls[i] == CONSTRUCTOR_CALLS[i] == AppendType(t);
  }

  // The constructor registers exactly those pairs.
  lemma ConstructorRegisters(t: u16, s: u32)
    ensures Lookup(After(CONSTRUCTOR_CALLS), t, s) != None <==> Emittable(t, s)
    ensures Emittable(t, s) <==> (t == 1 && s in {1, 2, 3}) || (t == 2 && s in {1, 2, 3, 4}) || (t == 3 && s in {1, 2})
  {
    ConstructorLegal();
    var calls := CONSTRUCTOR_CALLS;
    if Emittable(t, s) {
      DispatchTotal(calls, t, s);
    } else {
      RefinesMap(calls, t, s);
      LastSetExists(calls, t, s);
      var _ := Position(t, s);
    }
  }

  // What a server sends: answers of the handlers, the login acknowledgement, stream packets.
  ghost predicate Sent(f: Frame) {
    || (exists ack: Frame, login :: |login| == TcpServer.LOGIN_SIZE && TcpServer.IsLoginAck(ack, login) && f == ack)
    || (exists frameType, data :: AntProtocol.StreamPacket(f, frameType, data))
    || (exists t, s, env, resp :: Dispatch.AnswersMatch(t, s, env, resp) && f in resp)
  }

  lemma {:induction false} SentIsEmittable(f: Frame)
    requires Sent(f)
    ensures WellFormed(f) && Emittable(TypeOf(f), SubOf(f))
  {
    if ack: Frame, login :| |login| == TcpServer.LOGIN_SIZE && TcpServer.IsLoginAck(ack, login) && f == ack {
      PacketDecodes(f, TYPE_CTRL, CTRL_LOGIN, |f|);
    } else if frameType, data :| AntProtocol.StreamPacket(f, frameType, data) {
      PacketDecodes(f, TYPE_VID, VID_STREAM, |f|);
    } else {
      var t, s, env, resp :| Dispatch.AnswersMatch(t, s, env, resp) && f in resp;
      PacketDecodes(f, t, s, |f|);
    }
  }

  class Dispatcher {
    const registry: Registry
    const recvWindow: SlidingWindow
    ghost var calls: seq<Call>  // history

    constructor (recvWindow: SlidingWindow)
      ensures this.recvWindow == recvWindow && calls == CONSTRUCTOR_CALLS
      ensures fresh(registry) && fresh(registry.sh.cmds.Keys) && fresh(registry.sh.subs.Keys) && Valid()
    {
      var table := BuildTable();
      this.recvWindow := recvWindow;
      registry := table;
      calls := CONSTRUCTOR_CALLS;
      new;
      ConstructorLegal();
    }

    ghost predicate Valid()
      reads this, registry, registry.sh.cmds.Keys, registry.sh.subs.Keys
    {
      && CONSTRUCTOR_CALLS <= calls && Legal(calls)
      && registry.Valid() && registry.Table() == After(calls)
    }

    // The application sets a callback, for one of the types that the constructor appended.
    method SetProtocolAckCallback(t: u16, s: u32, callback: Callback)
      requires Valid() && t in {TYPE_CTRL, TYPE_FILE, TYPE_VID}
      modifies `calls, registry, registry.sh.subs.Keys
      ensures Valid() && calls == old(calls) + [SetCallback(t, s, callback)]
    {
      TypesAppended(calls, t);
      RefinesMap(calls, t, s);
      LegalMore(calls, SetCallback(t, s, callback));
      registry.SetProtocolAckCallback(t, s, callback);
      assert (calls + [SetCallback(t, s, callback)])[..|calls|] == calls;
      calls := calls + [SetCallback(t, s, callback)];
    }

    // One turn of the thread on a packet that a server sent: the search finds a node, and what is
    // called is the callback set last for the packet's pair.
    method RunTreasmitOnce(buffer: array<byte>) returns (called: Callback)
      requires Valid()
      requires recvWindow.frames != [] ==> |recvWindow.frames[0]| <= buffer.Length && Sent(recvWindow.frames[0])
      modifies recvWindow, buffer
      ensures old(recvWindow.frames) == [] ==> called == Null && recvWindow.frames == []
      ensures old(recvWindow.frames) != [] ==>
                var f := old(recvWindow.frames)[0];
                && recvWindow.frames == old(recvWindow.frames)[1..]
                && WellFormed(f) && LastSet(calls, TypeOf(f), SubOf(f)) == Some(called)
                && buffer[..|f|] == f
    {
      ghost var window := recvWindow.frames;
      var len := recvWindow.ReadDataToBuffer(buffer);
      called := Null;
      if window != [] {
        SentIsEmittable(window[0]);
      }
      if len > 0 {
        var pkg := buffer[..len];
        assert pkg == window[0];
        DispatchTotal(calls, TypeOf(pkg), SubOf(pkg));
        RefinesMap(calls, TypeOf(pkg), SubOf(pkg));
        var node := registry.SearchSubcmdNode(TypeOf(pkg), SubOf(pkg));
        if node.callback != Null {
          called := node.callback;
        }
      }
    }
  }

  lemma {:induction false} LegalMore(calls: seq<Call>, c: Call)
    requires Legal(calls) && (c.SetCallback? ==> AppendType(c.cmdType) in calls)
    ensures Legal(calls + [c])
  {
    var more := calls + [c];
    forall i | 0 <= i < |more| && more[i].SetCallback?
      ensures AppendType(more[i].cmdType) in more[..i]
    {
      assert more[..i] == calls[..i];
      assert calls[..|calls|] == calls;
    }
  }

  // The calls in the constructor, one after the other.
  method BuildTable() returns (r: Registry)
    ensures fresh(r) && r.Valid() && r.Table() == After(CONSTRUCTOR_CALLS)
    ensures fresh(r.sh.cmds.Keys) && fresh(r.sh.subs.Keys)
  {
    r := new Registry();
    assert CONSTRUCTOR_CALLS[..0] == [];
    for k := 0 to |CONSTRUCTOR_CALLS|
      invariant Built(r, k)
      invariant fresh(r) && fresh(r.sh.cmds.Keys) && fresh(r.sh.subs.Keys)
    {
      Perform(r, k, CONSTRUCTOR_CALLS[k]);
    }
    assert CONSTRUCTOR_CALLS[..|CONSTRUCTOR_CALLS|] == CONSTRUCTOR_CALLS;
  }

  ghost predicate Built(r: Registry, k: nat)
    requires k <= |CONSTRUCTOR_CALLS|
    reads r, r.sh.cmds.Keys, r.sh.subs.Keys
  {
    r.Valid() && r.Table() == After(CONSTRUCTOR_CALLS[..k])
  }

  method Perform(r: Registry, ghost k: nat, c: Call)
    requires k < |CONSTRUCTOR_CALLS| && c == CONSTRUCTOR_CALLS[k] && Built(r, k)
    modifies r, r.sh.cmds.Keys, r.sh.subs.Keys
    ensures Built(r, k + 1)
    ensures fresh(r.sh.cmds.Keys - old(r.sh.cmds.Keys)) && fresh(r.sh.subs.Keys - old(r.sh.subs.Keys))
  {
    ConstructorLegal();
    AfterNext(CONSTRUCTOR_CALLS, k);
    match c {
      case AppendType(t) => r.AppendCmdLinkNode(t);
      case SetCallback(t, s, cb) => r.SetProtocolAckCallback(t, s, cb);
    }
  }
}
