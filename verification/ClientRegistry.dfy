/**
 QNetClient's command table: the scans look for the end of the list instead of counting, a main
 type is added once, and setting a callback replaces the one that is there (QNetClient.cpp:186-305).
 */
module ClientRegistry {
  import opened Wrappers
  import opened NetProtocol
  import opened CommandLists

  datatype Callback = Null | Function(id: nat)

  /* What the operations do to the table */

  function AddType(table: seq<Entry<Callback>>, cmdType: u16): seq<Entry<Callback>> {
    if Registered(table, cmdType) then table else table + [Entry(cmdType, [])]
  }

  function UpsertSub(subs: seq<SubEntry<Callback>>, subType: u32, callback: Callback): seq<SubEntry<Callback>> {
    var j := FindSub(subs, subType);
    if j < |subs| then subs[j := SubEntry(subType, callback)] else subs + [SubEntry(subType, callback)]
  }

  function Upsert(table: seq<Entry<Callback>>, cmdType: u16, subType: u32, callback: Callback): seq<Entry<Callback>>
    requires Registered(table, cmdType)
  {
    var i := Find(table, cmdType);
    table[i := Entry(cmdType, UpsertSub(table[i].subs, subType, callback))]
  }

  ghost predicate UniqueKeys(table: seq<Entry<Callback>>) {
    && (forall i, j :: 0 <= i < j < |table| ==> table[i].cmdType != table[j].cmdType)
    && (forall i :: 0 <= i < |table| ==> UniqueSubs(table[i].subs))
  }

  ghost predicate UniqueSubs(subs: seq<SubEntry<Callback>>) {
    forall i, j :: 0 <= i < j < |subs| ==> subs[i].subType != subs[j].subType
  }

  function LookupSub(subs: seq<SubEntry<Callback>>, subType: u32): Option<Callback> {
    var j := FindSub(subs, subType);
    if j == |subs| then None else Some(subs[j].callback)
  }

  lemma {:induction false} UpsertSubLookup(subs: seq<SubEntry<Callback>>, s: u32, callback: Callback, s1: u32)
    requires UniqueSubs(subs)
    ensures UniqueSubs(UpsertSub(subs, s, callback))
    ensures LookupSub(UpsertSub(subs, s, callback), s1) == if s1 == s then Some(callback) else LookupSub(subs, s1)
  {
    var after := UpsertSub(subs, s, callback);
    var j, j1 := FindSub(subs, s), FindSub(subs, s1);
    if s1 == s {
      FindSubIs(after, s, j);
    } else {
      FindSubIs(after, s1, if j1 == |subs| then |after| else j1);
    }
  }

  // The pair maps to the callback that was set and every other pair to what it mapped to.
  lemma {:induction false} UpsertLookup(table: seq<Entry<Callback>>, t: u16, s: u32, callback: Callback, t1: u16,
                                        s1: u32)
    requires UniqueKeys(table) && Registered(table, t)
    ensures UniqueKeys(Upsert(table, t, s, callback))
    ensures Registered(Upsert(table, t, s, callback), t1) <==> Registered(table, t1)
    ensures Lookup(Upsert(table, t, s, callback), t1, s1) ==
            if t1 == t && s1 == s then Some(callback) else Lookup(table, t1, s1)
  {
    var after := Upsert(table, t, s, callback);
    UpsertSubLookup(table[Find(table, t)].subs, s, callback, s1);
    FindIs(after, t1, Find(table, t1));
  }

  // Adding a main type twice is adding it once, and no pair's callback changes.
  lemma {:induction false} AddTypeLookup(table: seq<Entry<Callback>>, t: u16, t1: u16, s1: u32)
    requires UniqueKeys(table)
    ensures UniqueKeys(AddType(table, t)) && AddType(AddType(table, t), t) == AddType(table, t)
    ensures Registered(AddType(table, t), t1) <==> t1 == t || Registered(table, t1)
    ensures Lookup(AddType(table, t), t1, s1) == Lookup(table, t1, s1)
  {
    var after := AddType(table, t);
    if !Registered(table, t) {
      FindIs(after, t, |table|);
      assert after[|table|].subs == [];
      if Registered(table, t1) {
        FindIs(after, t1, Find(table, t1));
      } else if t1 != t {
        FindIs(after, t1, |after|);
      }
    }
  }

  /* Histories */

  datatype Call = AppendType(cmdType: u16) | SetCallback(cmdType: u16, subType: u32, callback: Callback)

  // Callbacks are set for main types that were appended before.
  predicate Legal(calls: seq<Call>) {
    forall i :: 0 <= i < |calls| && calls[i].SetCallback? ==> AppendType(calls[i].cmdType) in calls[..i]
  }

  lemma {:induction false} LegalPrefix(calls: seq<Call>, k: nat)
    requires Legal(calls) && k < |calls|
    ensures Legal(calls[..k])
    ensures calls[k].SetCallback? ==> AppendType(calls[k].cmdType) in calls[..k]
  {
    forall i | 0 <= i < k && calls[i].SetCallback?
      ensures AppendType(calls[i].cmdType) in calls[..k][..i]
    {
      assert calls[..k][..i] == calls[..i];
    }
  }

  function After(calls: seq<Call>): seq<Entry<Callback>> {
    if calls == [] then []
    else
      var table := After(calls[..|calls| - 1]);
      match calls[|calls| - 1]
      case AppendType(t) => AddType(table, t)
      case SetCallback(t, s, cb) => if Registered(table, t) then Upsert(table, t, s, cb) else table
  }

  // The callback that was set last for a pair.
  function LastSet(calls: seq<Call>, t: u16, s: u32): Option<Callback> {
    if calls == [] then None
    else
      var c := calls[|calls| - 1];
      if c.SetCallback? && c.cmdType == t && c.subType == s then Some(c.callback)
      else LastSet(calls[..|calls| - 1], t, s)
  }

  // Over any history the table is the map from pairs to the callback last set: keys stay unique,
  // and exactly the appended types are registered.
  lemma {:induction false} RefinesMap(calls: seq<Call>, t: u16, s: u32)
    requires Legal(calls)
    ensures UniqueKeys(After(calls))
    ensures Registered(After(calls), t) <==> AppendType(t) in calls
    ensures Lookup(After(calls), t, s) == LastSet(calls, t, s)
  {
    if calls != [] {
      hide Lookup, UniqueKeys, AddType, Upsert;
      var before, c := calls[..|calls| - 1], calls[|calls| - 1];
      assert calls == before + [c];
      LegalPrefix(calls, |calls| - 1);
      RefinesMap(before, t, s);
      match c {
        case AppendType(t0) =>
          AddTypeLookup(After(before), t0, t, s);
        case SetCallback(t0, s0, cb) =>
          RefinesMap(before, t0, s0);
          UpsertLookup(After(before), t0, s0, cb, t, s);
      }
    }
  }

  // One more call is one more operation on the table.
  lemma {:induction false} AfterNext(calls: seq<Call>, k: nat)
    requires Legal(calls) && k < |calls|
    ensures var (table, c) := (After(calls[..k]), calls[k]);
            && (c.SetCallback? ==> Registered(table, c.cmdType))
            && After(calls[..k + 1]) == match c case AppendType(t) => AddType(table, t)
                                        case SetCallback(t, s, cb) => Upsert(table, t, s, cb)
  {
    hide Lookup, LastSet, UniqueKeys, AddType, Upsert;
    var before, c := calls[..k], calls[k];
    assert calls[..k + 1][..k] == before;
    LegalPrefix(calls, k);
    if c.SetCallback? {
      RefinesMap(before, c.cmdType, c.subType);
    }
  }

  class Registry {
    const head: CmdNode<Callback>
    ghost var sh: Shape<Callback>

    ghost function Table(): seq<Entry<Callback>>
      reads this
    {
      sh.table
    }

    ghost predicate Valid()
      reads this, sh.cmds.Keys, sh.subs.Keys
    {
      Good(head, sh, false) && CmdsMirror(sh.cmds) && SubsMirror(sh.subs)
    }

    constructor ()
      ensures Valid() && Table() == []
      ensures fresh(sh.cmds.Keys) && fresh(sh.subs.Keys)
    {
      var h := new CmdNode<Callback>(0, 0, null);
      head := h;
      sh := Single(h);
    }

    // The scan of the main list: the node of the type, or the last node when there is none.
    method ScanMain(cmdType: u16) returns (p1: CmdNode<Callback>)
      requires Valid() && |sh.table| > 0
      ensures var i := Find(Table(), cmdType);
              && p1 == sh.mains[if i < |sh.table| then i + 1 else |sh.table|]
              && (p1.cmdType == cmdType <==> i < |sh.table|)
              && (p1.next == null <==> i + 1 >= |sh.table|)
              && (i < |sh.table| ==> |sh.lists[i]| > 0 && p1.subHead == sh.lists[i][0])
    {
      FirstMain(head, sh, false);
      p1 := head.next;
      ghost var i := 0;
      while p1.next != null && p1.cmdType != cmdType
        invariant i < |sh.table| && p1 == sh.mains[i + 1] && p1.cmdType == sh.table[i].cmdType
        invariant p1.next == if i + 2 < |sh.mains| then sh.mains[i + 2] else null
        invariant forall j :: 0 <= j < i ==> sh.table[j].cmdType != cmdType
        decreases |sh.table| - i
      {
        p1 := p1.next;
        i := i + 1;
        assert sh.cmds[sh.mains[i + 1]].cmdType == sh.table[i].cmdType;
        assert i + 2 < |sh.mains| ==> sh.cmds[sh.mains[i + 1]].next == sh.mains[i + 2];
      }
      FindIs(Table(), cmdType, if p1.cmdType == cmdType then i else i + 1);
    }

    // append_cmd_link_node: nothing happens when the type is there already.
    method AppendCmdLinkNode(cmdType: u16)
      requires Valid()
      modifies this, sh.cmds.Keys
      ensures Valid() && Table() == AddType(old(Table()), cmdType)
      ensures fresh(sh.cmds.Keys - old(sh.cmds.Keys)) && fresh(sh.subs.Keys - old(sh.subs.Keys))
    {
      var headSubcmd := new SubNode<Callback>(0, 0, Null);
      var node := new CmdNode<Callback>(cmdType, cmdType, headSubcmd);
      HookUnlessThere(node, headSubcmd);
    }

    // The rest of append_cmd_link_node: the node goes behind the last one, or is dropped.
    method HookUnlessThere(node: CmdNode<Callback>, headSubcmd: SubNode<Callback>)
      requires Valid() && node !in sh.cmds && headSubcmd !in sh.subs
      requires node.no == node.cmdType && node.subHead == headSubcmd && node.next == null
      requires headSubcmd.no == 0 && headSubcmd.subType == 0 && headSubcmd.callback == Null && headSubcmd.next == null
      modifies this, sh.cmds.Keys
      ensures Valid() && Table() == AddType(old(Table()), node.cmdType)
      ensures old(sh.cmds.Keys) <= sh.cmds.Keys <= old(sh.cmds.Keys) + {node}
      ensures old(sh.subs.Keys) <= sh.subs.Keys <= old(sh.subs.Keys) + {headSubcmd}
    {
      FirstMain(head, sh, false);
      if head.next == null {
        Hook(head, node, headSubcmd);
        return;
      }
      var p1 := ScanMain(node.cmdType);
      if p1.cmdType == node.cmdType {
        return;
      } else if p1.next == null {
        Hook(p1, node, headSubcmd);
      }
    }

    method Hook(p1: CmdNode<Callback>, node: CmdNode<Callback>, headSubcmd: SubNode<Callback>)
      requires Valid() && p1 == sh.mains[|sh.mains| - 1]
      requires node !in sh.cmds && headSubcmd !in sh.subs
      requires node.no == node.cmdType && node.subHead == headSubcmd && node.next == null
      requires headSubcmd.no == 0 && headSubcmd.subType == 0 && headSubcmd.callback == Null && headSubcmd.next == null
      modifies this, sh.cmds.Keys
      ensures Valid() && Table() == old(Table()) + [Entry(node.cmdType, [])]
      ensures sh.cmds.Keys == old(sh.cmds.Keys) + {node} && sh.subs.Keys == old(sh.subs.Keys) + {headSubcmd}
    {
      AddMainGood(head, sh, false, node, headSubcmd, node.cmdType, Null, head.no);
      ghost var grown := AddMain(sh, node, headSubcmd, node.cmdType, Null, head.no);
      LinkCmd(p1, node, head, head.no, sh.cmds, grown.cmds[node]);
      sh := grown;
    }

    // search_subcmd_head: NULL exactly for a type that was never appended.
    method SearchSubcmdHead(cmdType: u16) returns (found: SubNode?<Callback>)
      requires Valid()
      ensures var i := Find(Table(), cmdType);
              if i < |sh.table| then |sh.lists[i]| > 0 && found == sh.lists[i][0] else found == null
    {
      FirstMain(head, sh, false);
      if head.next == null {
        return null;
      }
      var p1 := ScanMain(cmdType);
      if p1.cmdType == cmdType {
        return p1.subHead;
      } else {
        return null;
      }
    }

    // The scan of a list: the node of the subtype, or the last node when there is none.
    method ScanSubs(listHead: SubNode<Callback>, subType: u32, ghost i: nat) returns (p1: SubNode<Callback>)
      requires Valid() && i < |sh.table| && |sh.lists[i]| > 1 && listHead == sh.lists[i][0]
      ensures |sh.lists[i]| == |sh.table[i].subs| + 1
      ensures var (subs, j) := (sh.table[i].subs, FindSub(sh.table[i].subs, subType));
              && p1 == sh.lists[i][if j < |subs| then j + 1 else |subs|]
              && (p1.subType == subType <==> j < |subs|)
              && (p1.next == null <==> j + 1 >= |subs|)
    {
      ghost var list, subs := sh.lists[i], sh.table[i].subs;
      assert ListGood(sh, i, false);
      FirstSub(sh, i, false);
      assert sh.subs[list[1]].subType == subs[0].subType;
      assert 2 < |list| ==> sh.subs[list[1]].next == list[2];
      p1 := listHead.next;
      ghost var j := 0;
      while p1.next != null && p1.subType != subType
        invariant j < |subs| && p1 == list[j + 1] && p1.subType == subs[j].subType
        invariant p1.next == if j + 2 < |list| then list[j + 2] else null
        invariant forall k :: 0 <= k < j ==> subs[k].subType != subType
        decreases |subs| - j
      {
        p1 := p1.next;
        j := j + 1;
        assert sh.subs[list[j + 1]].subType == subs[j].subType;
        assert j + 2 < |list| ==> sh.subs[list[j + 1]].next == list[j + 2];
      }
      FindSubIs(subs, subType, if p1.subType == subType then j else j + 1);
    }

    // set_protocol_ack_callback / append_subcmd_link_node, for a type that was appended.
    method SetProtocolAckCallback(cmdType: u16, subType: u32, callback: Callback)
      requires Valid() && Registered(Table(), cmdType)
      modifies this, sh.subs.Keys
      ensures Valid() && Table() == Upsert(old(Table()), cmdType, subType, callback)
      ensures fresh(sh.subs.Keys - old(sh.subs.Keys)) && sh.cmds == old(sh.cmds)
    {
      var headSubcmd := SearchSubcmdHead(cmdType);
      ghost var i := Find(Table(), cmdType);
      assert ListGood(sh, i, false);
      FirstSub(sh, i, false);
      var node := new SubNode<Callback>(subType, subType, callback);
      if headSubcmd.next == null {
        HookSub(headSubcmd, headSubcmd, node, i);
        return;
      }
      var p1 := ScanSubs(headSubcmd, subType, i);
      ReplaceOrHook(p1, headSubcmd, node, i);
    }

    // What append_subcmd_link_node does where its scan has stopped; the last `else` is dead.
    method ReplaceOrHook(p1: SubNode<Callback>, headSubcmd: SubNode<Callback>, node: SubNode<Callback>, ghost i: nat)
      requires Valid() && i < |sh.table| && |sh.lists[i]| == |sh.table[i].subs| + 1 > 1 && headSubcmd == sh.lists[i][0]
      requires var (subs, j) := (sh.table[i].subs, FindSub(sh.table[i].subs, node.subType));
               && p1 == sh.lists[i][if j < |subs| then j + 1 else |subs|]
               && (p1.subType == node.subType <==> j < |subs|)
               && (p1.next == null <==> j + 1 >= |subs|)
      requires node !in sh.subs && node.next == null
      modifies this, sh.subs.Keys
      ensures Valid() && sh.cmds == old(sh.cmds) && old(sh.subs.Keys) <= sh.subs.Keys <= old(sh.subs.Keys) + {node}
      ensures var e := old(Table())[i];
              Table() == old(Table())[i := Entry(e.cmdType, UpsertSub(e.subs, node.subType, node.callback))]
    {
      ghost var j := FindSub(sh.table[i].subs, node.subType);
      if p1.next == null {
        if p1.subType == node.subType {
          Replace(p1, node.callback, i, j);
        } else {
          HookSub(p1, headSubcmd, node, i);
        }
      } else if p1.subType == node.subType {
        Replace(p1, node.callback, i, j);
      } else {
        assert false;
      }
    }

    method HookSub(p1: SubNode<Callback>, headSubcmd: SubNode<Callback>, node: SubNode<Callback>, ghost i: nat)
      requires Valid() && i < |sh.table| && |sh.lists[i]| > 0
      requires headSubcmd == sh.lists[i][0] && p1 == sh.lists[i][|sh.lists[i]| - 1]
      requires node !in sh.subs && node.next == null
      modifies this, sh.subs.Keys
      ensures Valid() && sh.cmds == old(sh.cmds) && sh.subs.Keys == old(sh.subs.Keys) + {node}
      ensures var e := old(Table())[i];
              Table() == old(Table())[i := Entry(e.cmdType, e.subs + [SubEntry(node.subType, node.callback)])]
    {
      assert ListGood(sh, i, false);
      ghost var cell := SubCell(node.no, node.subType, node.callback, null, 0, 0);
      AddSubGood(head, sh, false, i, node, cell, headSubcmd.no);
      ghost var grown := AddSub(sh, i, node, cell, headSubcmd.no);
      LinkSub(p1, node, headSubcmd, headSubcmd.no, sh.subs, grown.subs[node]);
      sh := grown;
    }

    method Replace(p1: SubNode<Callback>, callback: Callback, ghost i: nat, ghost j: nat)
      requires Valid() && i < |sh.table| && j < |sh.table[i].subs|
      requires |sh.lists[i]| == |sh.table[i].subs| + 1 && p1 == sh.lists[i][j + 1]
      modifies this, sh.subs.Keys
      ensures Valid() && sh.cmds == old(sh.cmds) && sh.subs.Keys == old(sh.subs.Keys)
      ensures var e := old(Table())[i];
              Table() == old(Table())[i := Entry(e.cmdType, e.subs[j := SubEntry(e.subs[j].subType, callback)])]
    {
      SetSubGood(head, sh, false, i, j, callback);
      ghost var changed := SetSub(sh, i, j, callback);
      p1.callback := callback;
      sh := changed;
    }

    // search_subcmd_node, for a type that was appended; the way past the last `else if` is dead.
    method SearchSubcmdNode(cmdType: u16, subType: u32) returns (found: SubNode?<Callback>)
      requires Valid() && Registered(Table(), cmdType)
      ensures found == null <==> Lookup(Table(), cmdType, subType) == None
      ensures found != null ==> found.subType == subType && Lookup(Table(), cmdType, subType) == Some(found.callback)
    {
      var headSubcmd := SearchSubcmdHead(cmdType);
      ghost var i := Find(Table(), cmdType);
      ghost var list, subs := sh.lists[i], sh.table[i].subs;
      assert ListGood(sh, i, false);
      FirstSub(sh, i, false);
      if headSubcmd.next == null {
        return null;
      }
      var p1 := ScanSubs(headSubcmd, subType, i);
      ghost var j := FindSub(subs, subType);
      assert j < |subs| ==> sh.subs[list[j + 1]].callback == subs[j].callback;
      if p1.next == null {
        if p1.subType == subType {
          return p1;
        } else {
          return null;
        }
      } else if p1.subType == subType {
        return p1;
      } else {
        found := null;
        assert false;
      }
    }
  }
}
