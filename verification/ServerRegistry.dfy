/**
 QNetTcpServer's command table: appending is blind and counts in the head nodes, and lookups walk
 as many nodes as the head counts without looking for the end (QNetTcpServer.cpp:499-574).
 */
module ServerRegistry {
  import opened Wrappers
  import opened NetProtocol
  import opened CommandLists

  datatype Callback =
    | Null
    | LogoutAck | HeartAck
    | FileListAck | FileSendAck | FilePathAck | FileNameAck | FileStartAck
    | VidConnectAck | VidStreamAck

  /* Histories */

  datatype Call = AppendType(cmdType: u16) | AppendSub(cmdType: u16, subType: u32, callback: Callback)

  predicate SamePair(c: Call, t: u16, s: u32) {
    c.AppendSub? && c.cmdType == t && c.subType == s
  }

  // Callbacks are appended for main types that were appended before.
  predicate Legal(calls: seq<Call>) {
    forall i :: 0 <= i < |calls| && calls[i].AppendSub? ==> AppendType(calls[i].cmdType) in calls[..i]
  }

  lemma {:induction false} LegalPrefix(calls: seq<Call>, k: nat)
    requires Legal(calls) && k < |calls|
    ensures Legal(calls[..k])
    ensures calls[k].AppendSub? ==> AppendType(calls[k].cmdType) in calls[..k]
  {
    forall i | 0 <= i < k && calls[i].AppendSub?
      ensures AppendType(calls[i].cmdType) in calls[..k][..i]
    {
      assert calls[..k][..i] == calls[..i];
    }
  }

  function Grow(table: seq<Entry<Callback>>, t: u16, s: u32, cb: Callback): seq<Entry<Callback>>
    requires Registered(table, t)
  {
    var i := Find(table, t);
    table[i := Entry(t, table[i].subs + [SubEntry(s, cb)])]
  }

  function After(calls: seq<Call>): seq<Entry<Callback>> {
    if calls == [] then []
    else
      var table := After(calls[..|calls| - 1]);
      match calls[|calls| - 1]
      case AppendType(t) => table + [Entry(t, [])]
      case AppendSub(t, s, cb) => if Registered(table, t) then Grow(table, t, s, cb) else table
  }

  lemma {:induction false} FindSubGrown(subs: seq<SubEntry<Callback>>, e: SubEntry<Callback>, s: u32)
    ensures FindSub(subs + [e], s) ==
            if FindSub(subs, s) < |subs| then FindSub(subs, s) else if e.subType == s then |subs| else |subs| + 1
  {
    var i := FindSub(subs, s);
    FindSubIs(subs + [e], s, if i < |subs| || e.subType == s then i else |subs| + 1);
  }

  lemma {:induction false} GrowLookup(table: seq<Entry<Callback>>, t: u16, s: u32, cb: Callback, t1: u16, s1: u32)
    requires Registered(table, t)
    ensures Registered(Grow(table, t, s, cb), t1) <==> Registered(table, t1)
    ensures Lookup(Grow(table, t, s, cb), t1, s1) ==
            if t1 == t && s1 == s && Lookup(table, t, s) == None then Some(cb) else Lookup(table, t1, s1)
  {
    FindIs(Grow(table, t, s, cb), t1, Find(table, t1));
    FindSubGrown(table[Find(table, t)].subs, SubEntry(s, cb), s1);
  }

  lemma {:induction false} AddedLookup(table: seq<Entry<Callback>>, t: u16, t1: u16, s1: u32)
    ensures Registered(table + [Entry(t, [])], t1) <==> t1 == t || Registered(table, t1)
    ensures Lookup(table + [Entry(t, [])], t1, s1) == Lookup(table, t1, s1)
  {
    FindIs(table + [Entry(t, [])], t1,
           if Registered(table, t1) || t1 == t then Find(table, t1) else |table| + 1);
  }

  // The callback that was appended first for a pair.
  function FirstSet(calls: seq<Call>, t: u16, s: u32): Option<Callback> {
    if calls == [] then None
    else
      var r, c := FirstSet(calls[..|calls| - 1], t, s), calls[|calls| - 1];
      if r == None && SamePair(c, t, s) then Some(c.callback) else r
  }

  // Over any history, appended duplicates included: a pair finds the first callback appended for
  // it, and exactly the appended types are registered.
  lemma {:induction false} FirstAppended(calls: seq<Call>, t: u16, s: u32)
    requires Legal(calls)
    ensures Registered(After(calls), t) <==> AppendType(t) in calls
    ensures Lookup(After(calls), t, s) == FirstSet(calls, t, s)
  {
    if calls != [] {
      var before, c := calls[..|calls| - 1], calls[|calls| - 1];
      assert calls == before + [c];
      LegalPrefix(calls, |calls| - 1);
      FirstAppended(before, t, s);
      match c {
        case AppendType(t0) =>
          AddedLookup(After(before), t0, t, s);
        case AppendSub(t0, s0, cb) =>
          FirstAppended(before, t0, s0);
          GrowLookup(After(before), t0, s0, cb, t, s);
      }
    }
  }

  // The first call for the pair is the i-th; i == |calls| when there is none.
  lemma {:induction false} FirstSetIs(calls: seq<Call>, t: u16, s: u32, i: nat)
    requires i <= |calls| && (i < |calls| ==> SamePair(calls[i], t, s))
    requires forall j :: 0 <= j < i ==> !SamePair(calls[j], t, s)
    ensures FirstSet(calls, t, s) == if i < |calls| then Some(calls[i].callback) else None
  {
    if calls != [] {
      FirstSetIs(calls[..|calls| - 1], t, s, if i < |calls| then i else i - 1);
    }
  }

  // One more call is one more operation on the table.
  lemma {:induction false} AfterNext(calls: seq<Call>, k: nat)
    requires Legal(calls) && k < |calls|
    ensures var (table, c) := (After(calls[..k]), calls[k]);
            && (c.AppendSub? ==> Registered(table, c.cmdType))
            && After(calls[..k + 1]) == match c case AppendType(t) => table + [Entry(t, [])]
                                        case AppendSub(t, s, cb) => Grow(table, t, s, cb)
  {
    var before, c := calls[..k], calls[k];
    assert calls[..k + 1][..k] == before;
    LegalPrefix(calls, k);
    if c.AppendSub? {
      FirstAppended(before, c.cmdType, c.subType);
    }
  }

  class Registry {
    const head: CmdNode<Callback>
    ghost var sh: Shape<Callback>

    ghost function Table(): seq<Entry<Callback>>
      reads this
    {
      sh.table
    }

    ghost predicate Valid()
      reads this, sh.cmds.Keys, sh.subs.Keys
    {
      Good(head, sh, true) && CmdsMirror(sh.cmds) && SubsMirror(sh.subs)
    }

    constructor ()
      ensures Valid() && Table() == []
      ensures fresh(sh.cmds.Keys) && fresh(sh.subs.Keys)
    {
      var h := new CmdNode<Callback>(0, 0, null);
      head := h;
      sh := Single(h);
    }

    // The scan to the end of the list with which append_cmd_node starts.
    method LastCmdNode() returns (p1: CmdNode<Callback>)
      requires Valid()
      ensures p1 == sh.mains[|sh.mains| - 1]
    {
      p1 := head;
      ghost var i := 0;
      while p1.next != null
        invariant i < |sh.mains| && p1 == sh.mains[i]
        invariant i + 1 < |sh.mains| ==> p1.next == sh.mains[i + 1]
        decreases |sh.mains| - i
      {
        p1 := p1.next;
        i := i + 1;
        assert i + 1 < |sh.mains| ==> sh.cmds[sh.mains[i]].next == sh.mains[i + 1];
      }
    }

    // append_cmd_node
    method AppendCmdNode(cmdType: u16)
      requires Valid()
      modifies this, sh.cmds.Keys
      ensures Valid() && Table() == old(Table()) + [Entry(cmdType, [])]
      ensures fresh(sh.cmds.Keys - old(sh.cmds.Keys)) && fresh(sh.subs.Keys - old(sh.subs.Keys))
    {
      hide Good, CmdsMirror, SubsMirror;
      var subHead := new SubNode<Callback>(0, 0, Null);
      var node := new CmdNode<Callback>(cmdType, cmdType, subHead);
      var p1 := LastCmdNode();
      HookCmdNode(p1, node, subHead);
    }

    // The rest of append_cmd_node: hook the node behind the last one and count it.
    method HookCmdNode(p1: CmdNode<Callback>, node: CmdNode<Callback>, subHead: SubNode<Callback>)
      requires Valid() && p1 == sh.mains[|sh.mains| - 1]
      requires node !in sh.cmds && subHead !in sh.subs
      requires node.no == node.cmdType && node.subHead == subHead && node.next == null
      requires subHead.no == 0 && subHead.subType == 0 && subHead.callback == Null && subHead.next == null
      modifies this, sh.cmds.Keys
      ensures Valid() && Table() == old(Table()) + [Entry(node.cmdType, [])]
      ensures sh.cmds.Keys == old(sh.cmds.Keys) + {node} && sh.subs.Keys == old(sh.subs.Keys) + {subHead}
    {
      AddMainGood(head, sh, true, node, subHead, node.cmdType, Null, head.no + 1);
      ghost var grown := AddMain(sh, node, subHead, node.cmdType, Null, head.no + 1);
      LinkCmd(p1, node, head, head.no + 1, sh.cmds, grown.cmds[node]);
      sh := grown;
    }

    // search_subcmd_head: NULL exactly for a main type that was never appended.
    method SearchSubcmdHead(cmdType: u16) returns (found: SubNode?<Callback>)
      requires Valid()
      ensures var i := Find(Table(), cmdType);
              if i < |sh.table| then |sh.lists[i]| > 0 && found == sh.lists[i][0] else found == null
    {
      var p1 := head.next;
      FirstMain(head, sh, true);
      for i := 0 to head.no
        invariant p1 == if i < |sh.table| then sh.mains[i + 1] else null
        invariant forall j :: 0 <= j < i ==> sh.table[j].cmdType != cmdType
      {
        assert sh.cmds[sh.mains[i + 1]].cmdType == sh.table[i].cmdType;
        if p1.cmdType == cmdType {
          return p1.subHead;
        }
        assert i + 2 < |sh.mains| ==> sh.cmds[sh.mains[i + 1]].next == sh.mains[i + 2];
        p1 := p1.next;
      }
      return null;
    }

    method LastSubNode(listHead: SubNode<Callback>, ghost i: nat) returns (p1: SubNode<Callback>)
      requires Valid() && i < |sh.table| && |sh.lists[i]| > 0 && listHead == sh.lists[i][0]
      ensures p1 == sh.lists[i][|sh.lists[i]| - 1]
    {
      ghost var list := sh.lists[i];
      assert ListGood(sh, i, true);
      p1 := listHead;
      ghost var j := 0;
      while p1.next != null
        invariant j < |list| && p1 == list[j]
        invariant j + 1 < |list| ==> p1.next == list[j + 1]
        decreases |list| - j
      {
        p1 := p1.next;
        j := j + 1;
        assert j + 1 < |list| ==> sh.subs[list[j]].next == list[j + 1];
      }
    }

    // append_sub_cmd_node, for a main type that was appended and a node that is in no list.
    method AppendSubCmdNode(cmdType: u16, node: SubNode<Callback>)
      requires Valid() && Registered(Table(), cmdType)
      requires node !in sh.subs && node.next == null
      modifies this, sh.subs.Keys
      ensures Valid() && sh.cmds == old(sh.cmds) && sh.subs.Keys == old(sh.subs.Keys) + {node}
      ensures Table() == Grow(old(Table()), cmdType, node.subType, node.callback)
    {
      var listHead := SearchSubcmdHead(cmdType);
      ghost var i := Find(Table(), cmdType);
      assert ListGood(sh, i, true);
      var p1 := LastSubNode(listHead, i);
      HookSubNode(i, p1, listHead, node);
    }

    method HookSubNode(ghost i: nat, p1: SubNode<Callback>, listHead: SubNode<Callback>, node: SubNode<Callback>)
      requires Valid() && i < |sh.table| && |sh.lists[i]| > 0 && listHead == sh.lists[i][0]
      requires p1 == sh.lists[i][|sh.lists[i]| - 1] && node !in sh.subs && node.next == null
      modifies this, sh.subs.Keys
      ensures Valid() && sh.cmds == old(sh.cmds) && sh.subs.Keys == old(sh.subs.Keys) + {node}
      ensures var e := old(Table())[i];
              Table() == old(Table())[i := Entry(e.cmdType, e.subs + [SubEntry(node.subType, node.callback)])]
    {
      assert ListGood(sh, i, true);
      ghost var cell := SubCell(node.no, node.subType, node.callback, null, 0, 0);
      AddSubGood(head, sh, true, i, node, cell, listHead.no + 1);
      ghost var grown := AddSub(sh, i, node, cell, listHead.no + 1);
      LinkSub(p1, node, listHead, listHead.no + 1, sh.subs, grown.subs[node]);
      sh := grown;
    }

    // search_subcmd_node, for a main type that was appended: the first callback node appended for
    // the pair, or NULL exactly when there is none.
    method SearchSubcmdNode(cmdType: u16, subType: u32) returns (found: SubNode?<Callback>)
      requires Valid() && Registered(Table(), cmdType)
      ensures found == null <==> Lookup(Table(), cmdType, subType) == None
      ensures found != null ==> found.subType == subType && Lookup(Table(), cmdType, subType) == Some(found.callback)
    {
      var listHead := SearchSubcmdHead(cmdType);
      ghost var i := Find(Table(), cmdType);
      ghost var list, subs := sh.lists[i], sh.table[i].subs;
      assert ListGood(sh, i, true);
      var p1 := listHead.next;
      FirstSub(sh, i, true);
      for j := 0 to listHead.no
        invariant p1 == if j < |subs| then list[j + 1] else null
        invariant forall k :: 0 <= k < j ==> subs[k].subType != subType
      {
        assert sh.subs[list[j + 1]].subType == subs[j].subType;
        if p1.subType == subType {
          return p1;
        }
        assert j + 2 < |list| ==> sh.subs[list[j + 1]].next == list[j + 2];
        p1 := p1.next;
      }
      return null;
    }
  }
}
