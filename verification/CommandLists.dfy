/**
 The two-level linked lists in which both endpoints keep their command tables: a list of main types
 behind a head node, and for each main type a list of callbacks behind a head node of its own.

 A `Shape` records as a value which nodes there are and what their fields hold. Only `Mirrors`
 speaks of the heap; everything about the structure of the lists is proved on shapes.
 */
module CommandLists {
  import opened Wrappers
  import opened NetProtocol

  class SubNode<T> {
    var no: int
    var subType: u32
    var callback: T
    var next: SubNode?<T>

    constructor (no: int, subType: u32, callback: T)
      ensures this.no == no && this.subType == subType && this.callback == callback && next == null
    {
      this.no := no;
      this.subType := subType;
      this.callback := callback;
      next := null;
    }
  }

  class CmdNode<T> {
    var no: int
    var cmdType: u16
    var subHead: SubNode?<T>
    var next: CmdNode?<T>

    constructor (no: int, cmdType: u16, subHead: SubNode?<T>)
      ensures this.no == no && this.cmdType == cmdType && this.subHead == subHead && next == null
    {
      this.no := no;
      this.cmdType := cmdType;
      this.subHead := subHead;
      next := null;
    }
  }

  /* The table the lists stand for: main types in order, each with its callbacks in order. */

  datatype SubEntry<T> = SubEntry(subType: u32, callback: T)
  datatype Entry<T> = Entry(cmdType: u16, subs: seq<SubEntry<T>>)

  // The position of the first entry for a main type, or the length of the table.
  function Find<T>(table: seq<Entry<T>>, cmdType: u16): (i: nat)
    ensures i <= |table|
    ensures i < |table| ==> table[i].cmdType == cmdType
    ensures forall j :: 0 <= j < i ==> table[j].cmdType != cmdType
  {
    if table == [] || table[0].cmdType == cmdType then 0 else 1 + Find(table[1..], cmdType)
  }

  function FindSub<T>(subs: seq<SubEntry<T>>, subType: u32): (i: nat)
    ensures i <= |subs|
    ensures i < |subs| ==> subs[i].subType == subType
    ensures forall j :: 0 <= j < i ==> subs[j].subType != subType
  {
    if subs == [] || subs[0].subType == subType then 0 else 1 + FindSub(subs[1..], subType)
  }

  lemma {:induction false} FindIs<T>(table: seq<Entry<T>>, cmdType: u16, i: nat)
    requires i <= |table|
    requires i < |table| ==> table[i].cmdType == cmdType
    requires forall j :: 0 <= j < i ==> table[j].cmdType != cmdType
    ensures Find(table, cmdType) == i
  {
  }

  lemma {:induction false} FindSubIs<T>(subs: seq<SubEntry<T>>, subType: u32, i: nat)
    requires i <= |subs|
    requires i < |subs| ==> subs[i].subType == subType
    requires forall j :: 0 <= j < i ==> subs[j].subType != subType
    ensures FindSub(subs, subType) == i
  {
  }

  predicate Registered<T>(table: seq<Entry<T>>, cmdType: u16) {
    Find(table, cmdType) < |table|
  }

  function Lookup<T>(table: seq<Entry<T>>, cmdType: u16, subType: u32): Option<T> {
    var i := Find(table, cmdType);
    if i == |table| then None
    else
      var j := FindSub(table[i].subs, subType);
      if j == |table[i].subs| then None else Some(table[i].subs[j].callback)
  }

  /* Shapes */

  // What the fields of a node hold, and where in the lists the node is.
  datatype CmdCell<T> = CmdCell(no: int, cmdType: u16, subHead: SubNode?<T>, next: CmdNode?<T>, at: nat)
  datatype SubCell<T> = SubCell(no: int, subType: u32, callback: T, next: SubNode?<T>, row: nat, at: nat)

  datatype Shape<T> = Shape(
    table: seq<Entry<T>>,
    mains: seq<CmdNode<T>>,        // the head node, then one node for each entry
    lists: seq<seq<SubNode<T>>>,   // for each entry its head node, then one node for each callback
    cmds: map<CmdNode<T>, CmdCell<T>>,
    subs: map<SubNode<T>, SubCell<T>>)

  ghost predicate CmdHolds<T>(n: CmdNode<T>, c: CmdCell<T>)
    reads n
  {
    n.no == c.no && n.cmdType == c.cmdType && n.subHead == c.subHead && n.next == c.next
  }

  ghost predicate SubHolds<T>(n: SubNode<T>, c: SubCell<T>)
    reads n
  {
    n.no == c.no && n.subType == c.subType && n.callback == c.callback && n.next == c.next
  }

  ghost predicate CmdsMirror<T(!new)>(cmds: map<CmdNode<T>, CmdCell<T>>)
    reads cmds.Keys
  {
    forall n :: n in cmds ==> CmdHolds(n, cmds[n])
  }

  ghost predicate SubsMirror<T(!new)>(subs: map<SubNode<T>, SubCell<T>>)
    reads subs.Keys
  {
    forall n :: n in subs ==> SubHolds(n, subs[n])
  }

  // Hook `node` behind p1 and set the count of `head`.
  method LinkCmd<T(!new)>(p1: CmdNode<T>, node: CmdNode<T>, head: CmdNode<T>, count: int,
                    ghost cmds: map<CmdNode<T>, CmdCell<T>>, ghost cell: CmdCell<T>)
    requires CmdsMirror(cmds) && p1 in cmds && head in cmds && node !in cmds && CmdHolds(node, cell)
    modifies p1`next, head`no
    ensures CmdsMirror(SetCount(SetNext(cmds, p1, node), head, count)[node := cell])
  {
    p1.next := node;
    assert CmdsMirror(SetNext(cmds, p1, node));
    head.no := count;
  }

  method LinkSub<T(!new)>(p1: SubNode<T>, node: SubNode<T>, head: SubNode<T>, count: int,
                    ghost subs: map<SubNode<T>, SubCell<T>>, ghost cell: SubCell<T>)
    requires SubsMirror(subs) && p1 in subs && head in subs && node !in subs && SubHolds(node, cell)
    modifies p1`next, head`no
    ensures SubsMirror(SetSubCount(SetSubNext(subs, p1, node), head, count)[node := cell])
  {
    p1.next := node;
    assert SubsMirror(SetSubNext(subs, p1, node));
    head.no := count;
  }

  // The i-th list is linked in order, ends in NULL, holds the callbacks of the i-th entry, and its
  // nodes know that they are in this list and where, so that no node is in two places.
  ghost predicate ListGood<T(!new)>(sh: Shape<T>, i: nat, counted: bool)
    requires i < |sh.table| && |sh.lists| == |sh.table|
  {
    var list, subs := sh.lists[i], sh.table[i].subs;
    && |list| == |subs| + 1
    && (forall j :: 0 <= j < |list| ==> list[j] in sh.subs && sh.subs[list[j]].row == i && sh.subs[list[j]].at == j)
    && (forall j, k :: 0 <= j && k == j + 1 && k < |list| ==> sh.subs[list[j]].next == list[k])
    && sh.subs[list[|list| - 1]].next == null
    && (forall j, k :: 0 <= j < |subs| && k == j + 1 ==>
          sh.subs[list[k]].subType == subs[j].subType && sh.subs[list[k]].callback == subs[j].callback)
    && (counted ==> sh.subs[list[0]].no == |subs|)
  }

  ghost predicate MainsGood<T(!new)>(head: CmdNode<T>, sh: Shape<T>, counted: bool) {
    var mains := sh.mains;
    && |mains| == |sh.table| + 1 && |sh.lists| == |sh.table|
    && mains[0] == head
    && (forall i :: 0 <= i < |mains| ==> mains[i] in sh.cmds && sh.cmds[mains[i]].at == i)
    && (forall i, j :: 0 <= i && j == i + 1 && j < |mains| ==> sh.cmds[mains[i]].next == mains[j])
    && sh.cmds[mains[|mains| - 1]].next == null
    && (forall i, j :: 0 <= i < |sh.table| && j == i + 1 ==>
          sh.cmds[mains[j]].cmdType == sh.table[i].cmdType
          && |sh.lists[i]| > 0 && sh.cmds[mains[j]].subHead == sh.lists[i][0])
    && (counted ==> sh.cmds[head].no == |sh.table|)
  }

  // `counted` lists keep in the `no` of each head node how many nodes are behind it.
  ghost predicate Good<T(!new)>(head: CmdNode<T>, sh: Shape<T>, counted: bool) {
    && MainsGood(head, sh, counted)
    && (forall i :: 0 <= i < |sh.table| ==> ListGood(sh, i, counted))
  }

  // The head node leads to the first node, or nowhere when its list is empty.
  lemma {:induction false} FirstMain<T(!new)>(head: CmdNode<T>, sh: Shape<T>, counted: bool)
    requires MainsGood(head, sh, counted)
    ensures sh.cmds[head].next == if |sh.table| > 0 then sh.mains[1] else null
  {
  }

  lemma {:induction false} FirstSub<T(!new)>(sh: Shape<T>, i: nat, counted: bool)
    requires i < |sh.table| && |sh.lists| == |sh.table| && ListGood(sh, i, counted)
    ensures sh.subs[sh.lists[i][0]].next == if |sh.table[i].subs| > 0 then sh.lists[i][1] else null
  {
  }

  function Single<T>(head: CmdNode<T>): Shape<T> {
    Shape([], [head], [], map[head := CmdCell(0, 0, null, null, 0)], map[])
  }

  /* Hooking a new main node, with an empty list of its own, behind the last one */

  function SetNext<T>(cmds: map<CmdNode<T>, CmdCell<T>>, n: CmdNode<T>, next: CmdNode<T>): map<CmdNode<T>, CmdCell<T>>
    requires n in cmds
  {
    cmds[n := cmds[n].(next := next)]
  }

  function SetCount<T>(cmds: map<CmdNode<T>, CmdCell<T>>, n: CmdNode<T>, count: int): map<CmdNode<T>, CmdCell<T>>
    requires n in cmds
  {
    cmds[n := cmds[n].(no := count)]
  }

  function AddMain<T>(sh: Shape<T>, node: CmdNode<T>, subHead: SubNode<T>, cmdType: u16, callback: T,
                      count: int): (t: Shape<T>)
    requires |sh.mains| > 0 && sh.mains[|sh.mains| - 1] in sh.cmds && sh.mains[0] in sh.cmds
    ensures t.cmds.Keys == sh.cmds.Keys + {node} && t.subs.Keys == sh.subs.Keys + {subHead}
  {
    var n := |sh.mains|;
    var cmds := SetCount(SetNext(sh.cmds, sh.mains[n - 1], node), sh.mains[0], count);
    Shape(
      sh.table + [Entry(cmdType, [])],
      sh.mains + [node],
      sh.lists + [[subHead]],
      cmds[node := CmdCell(cmdType, cmdType, subHead, null, n)],
      sh.subs[subHead := SubCell(0, 0, callback, null, n - 1, 0)])
  }

  lemma {:induction false} AddMainMains<T(!new)>(head: CmdNode<T>, sh: Shape<T>, counted: bool,
                                                 node: CmdNode<T>, subHead: SubNode<T>, cmdType: u16, callback: T,
                                                 count: int)
    requires MainsGood(head, sh, counted) && node !in sh.cmds && subHead !in sh.subs
    requires counted ==> count == |sh.table| + 1
    ensures MainsGood(head, AddMain(sh, node, subHead, cmdType, callback, count), counted)
  {
    var t := AddMain(sh, node, subHead, cmdType, callback, count);
    var n := |sh.mains|;
    forall i | 0 <= i < n
      ensures var c, d := sh.cmds[sh.mains[i]], t.cmds[sh.mains[i]];
              && d.cmdType == c.cmdType && d.subHead == c.subHead && d.at == i
              && d.next == (if i == n - 1 then node else c.next) && d.no == (if i == 0 then count else c.no)
    {
      assert sh.cmds[sh.mains[i]].at == i && sh.cmds[sh.mains[0]].at == 0 && sh.cmds[sh.mains[n - 1]].at == n - 1;
    }
    forall i, j | 0 <= i && j == i + 1 && j < |t.mains|
      ensures t.cmds[t.mains[i]].next == t.mains[j]
    {
      assert t.mains[i] == sh.mains[i];
      if j < n {
        assert sh.cmds[sh.mains[i]].next == sh.mains[j];
      }
    }
    forall i, j | 0 <= i < |t.table| && j == i + 1
      ensures t.cmds[t.mains[j]].cmdType == t.table[i].cmdType
              && |t.lists[i]| > 0 && t.cmds[t.mains[j]].subHead == t.lists[i][0]
    {
      if j < n {
        assert t.mains[j] == sh.mains[j];
        assert sh.cmds[sh.mains[j]].cmdType == sh.table[i].cmdType;
      }
    }
  }

  lemma {:induction false} AddMainGood<T(!new)>(head: CmdNode<T>, sh: Shape<T>, counted: bool,
                                                node: CmdNode<T>, subHead: SubNode<T>, cmdType: u16, callback: T,
                                                count: int)
    requires Good(head, sh, counted) && node !in sh.cmds && subHead !in sh.subs
    requires counted ==> count == |sh.table| + 1
    ensures Good(head, AddMain(sh, node, subHead, cmdType, callback, count), counted)
  {
    AddMainMains(head, sh, counted, node, subHead, cmdType, callback, count);
    var t := AddMain(sh, node, subHead, cmdType, callback, count);
    forall i | 0 <= i < |t.table|
      ensures ListGood(t, i, counted)
    {
      if i < |sh.table| {
        assert ListGood(sh, i, counted);
        assert t.lists[i] == sh.lists[i] && t.table[i] == sh.table[i];
      } else {
        assert t.lists[i] == [subHead] && t.table[i].subs == [];
      }
    }
  }

  /* Hooking a new callback node behind the last one of the i-th list */

  function SetSubNext<T>(subs: map<SubNode<T>, SubCell<T>>, n: SubNode<T>, next: SubNode<T>): map<SubNode<T>,
                         SubCell<T>>
    requires n in subs
  {
    subs[n := subs[n].(next := next)]
  }

  function SetSubCount<T>(subs: map<SubNode<T>, SubCell<T>>, n: SubNode<T>, count: int): map<SubNode<T>, SubCell<T>>
    requires n in subs
  {
    subs[n := subs[n].(no := count)]
  }

  function AddSub<T>(sh: Shape<T>, i: nat, node: SubNode<T>, cell: SubCell<T>, count: int): (t: Shape<T>)
    requires i < |sh.table| == |sh.lists| && |sh.lists[i]| > 0
    requires sh.lists[i][|sh.lists[i]| - 1] in sh.subs && sh.lists[i][0] in sh.subs
    ensures t.cmds == sh.cmds && t.subs.Keys == sh.subs.Keys + {node}
  {
    var list := sh.lists[i];
    var subs := SetSubCount(SetSubNext(sh.subs, list[|list| - 1], node), list[0], count);
    sh.(table := sh.table[i := Entry(sh.table[i].cmdType, sh.table[i].subs + [SubEntry(cell.subType, cell.callback)])],
        lists := sh.lists[i := list + [node]],
        subs := subs[node := cell.(next := null, row := i, at := |list|)])
  }

  lemma {:induction false} AddSubHere<T(!new)>(sh: Shape<T>, counted: bool, i: nat, node: SubNode<T>,
                                        cell: SubCell<T>, count: int)
    requires |sh.lists| == |sh.table| && i < |sh.table| && ListGood(sh, i, counted) && node !in sh.subs
    requires counted ==> count == |sh.table[i].subs| + 1
    ensures ListGood(AddSub(sh, i, node, cell, count), i, counted)
  {
  }

  lemma {:induction false} AddSubElsewhere<T(!new)>(sh: Shape<T>, counted: bool, i: nat, k: nat,
                                                    node: SubNode<T>, cell: SubCell<T>, count: int)
    requires |sh.lists| == |sh.table| && i < |sh.table| && ListGood(sh, i, counted) && node !in sh.subs
    requires k < |sh.table| && k != i && ListGood(sh, k, counted)
    ensures ListGood(AddSub(sh, i, node, cell, count), k, counted)
  {
    var t := AddSub(sh, i, node, cell, count);
    assert t.lists[k] == sh.lists[k] && t.table[k] == sh.table[k];
    assert forall j :: 0 <= j < |sh.lists[k]| ==> t.subs[sh.lists[k][j]] == sh.subs[sh.lists[k][j]];
  }

  lemma {:induction false} AddSubMains<T(!new)>(head: CmdNode<T>, sh: Shape<T>, counted: bool, i: nat,
                                                node: SubNode<T>, cell: SubCell<T>, count: int)
    requires Good(head, sh, counted) && i < |sh.table|
    ensures ListGood(sh, i, counted) && |sh.lists| == |sh.table|
    ensures MainsGood(head, AddSub(sh, i, node, cell, count), counted)
  {
    assert ListGood(sh, i, counted);
    var t := AddSub(sh, i, node, cell, count);
    hide ListGood;
    forall a | 0 <= a < |sh.table|
      ensures t.table[a].cmdType == sh.table[a].cmdType && |t.lists[a]| > 0 && t.lists[a][0] == sh.lists[a][0]
    {
      var b := a + 1;
      assert sh.cmds[sh.mains[b]].cmdType == sh.table[a].cmdType;
    }
    assert forall a, b :: 0 <= a < |t.table| && b == a + 1 ==>
                            t.cmds[t.mains[b]].cmdType == t.table[a].cmdType
                            && |t.lists[a]| > 0 && t.cmds[t.mains[b]].subHead == t.lists[a][0];
  }

  lemma {:induction false} AddSubGood<T(!new)>(head: CmdNode<T>, sh: Shape<T>, counted: bool, i: nat,
                                               node: SubNode<T>, cell: SubCell<T>, count: int)
    requires Good(head, sh, counted) && i < |sh.table| && node !in sh.subs
    requires counted ==> count == |sh.table[i].subs| + 1
    ensures ListGood(sh, i, counted) && Good(head, AddSub(sh, i, node, cell, count), counted)
  {
    AddSubMains(head, sh, counted, i, node, cell, count);
    hide MainsGood;
    var t := AddSub(sh, i, node, cell, count);
    AddSubHere(sh, counted, i, node, cell, count);
    forall k | 0 <= k < |t.table|
      ensures ListGood(t, k, counted)
    {
      if k != i {
        AddSubElsewhere(sh, counted, i, k, node, cell, count);
      }
    }
  }

  /* Replacing the callback of the j-th entry of the i-th list */

  function SetSub<T>(sh: Shape<T>, i: nat, j: nat, callback: T): Shape<T>
    requires i < |sh.table| == |sh.lists| && j < |sh.table[i].subs| && |sh.lists[i]| == |sh.table[i].subs| + 1
    requires sh.lists[i][j + 1] in sh.subs
  {
    var node := sh.lists[i][j + 1];
    var subs := sh.table[i].subs;
    sh.(table := sh.table[i := Entry(sh.table[i].cmdType, subs[j := SubEntry(subs[j].subType, callback)])],
        subs := sh.subs[node := sh.subs[node].(callback := callback)])
  }

  lemma {:induction false} SetSubHere<T(!new)>(sh: Shape<T>, counted: bool, i: nat, j: nat, callback: T)
    requires |sh.lists| == |sh.table| && i < |sh.table| && ListGood(sh, i, counted) && j < |sh.table[i].subs|
    ensures ListGood(SetSub(sh, i, j, callback), i, counted)
  {
  }

  lemma {:induction false} SetSubElsewhere<T(!new)>(sh: Shape<T>, counted: bool, i: nat, j: nat, k: nat, callback: T)
    requires |sh.lists| == |sh.table| && i < |sh.table| && ListGood(sh, i, counted) && j < |sh.table[i].subs|
    requires k < |sh.table| && k != i && ListGood(sh, k, counted)
    ensures ListGood(SetSub(sh, i, j, callback), k, counted)
  {
    var t := SetSub(sh, i, j, callback);
    assert t.table[k] == sh.table[k];
    assert forall m :: 0 <= m < |sh.lists[k]| ==> t.subs[sh.lists[k][m]] == sh.subs[sh.lists[k][m]];
  }

  lemma {:induction false} SetSubGood<T(!new)>(head: CmdNode<T>, sh: Shape<T>, counted: bool, i: nat, j: nat,
                                        callback: T)
    requires Good(head, sh, counted) && i < |sh.table| && j < |sh.table[i].subs|
    ensures ListGood(sh, i, counted) && Good(head, SetSub(sh, i, j, callback), counted)
  {
    assert ListGood(sh, i, counted);
    var t := SetSub(sh, i, j, callback);
    SetSubHere(sh, counted, i, j, callback);
    forall k | 0 <= k < |sh.table|
      ensures t.table[k].cmdType == sh.table[k].cmdType
    {
    }
    assert t.mains == sh.mains && t.cmds == sh.cmds && t.lists == sh.lists;
    forall k | 0 <= k < |t.table|
      ensures ListGood(t, k, counted)
    {
      if k != i {
        SetSubElsewhere(sh, counted, i, j, k, callback);
      }
    }
  }
}
