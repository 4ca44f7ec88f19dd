/**
 The reply to a directory listing: names go into packets of twenty slots of 256 bytes, a full packet
 is sent and the slots are used again (net_protocol.h:121-127, QAntProtocol.cpp:86-119).
 */
module FileList {
  import opened NetProtocol
  import opened Framing

  type Name = seq<byte>

  datatype DirEntry = DirEntry(name: Name, isDir: bool)

  const SLOTS := 20
  const SLOT_SIZE := 256
  const LIST_SIZE := 5166     // NET_HEAD_SIZE + sizeof(app_net_file_ack_list)

  // What a directory entry's name can be: it fits a slot with its NUL.
  predicate ValidName(n: Name) {
    |n| < SLOT_SIZE && 0 !in n
  }

  predicate Listed(e: DirEntry) {
    !(|e.name| > 0 && e.name[0] == 46) && !e.isDir
  }

  // The names to report, in directory order: neither dot names nor directories.
  function Names(dir: seq<DirEntry>): seq<Name> {
    if dir == [] then []
    else
      var last := dir[|dir| - 1];
      Names(dir[..|dir| - 1]) + if Listed(last) then [last.name] else []
  }

  // The string that starts in memory at the beginning of s.
  function CString(s: seq<byte>): Name {
    if s == [] || s[0] == 0 then [] else [s[0]] + CString(s[1..])
  }

  lemma {:induction false} CStringIs(s: seq<byte>, n: Name)
    requires |n| < |s| && s[..|n| + 1] == n + [0] && 0 !in n
    ensures CString(s) == n
  {
    assert s[0] == (n + [0])[0];
    if n != [] {
      assert s[1..][..|n[1..]| + 1] == s[..|n| + 1][1..] == n[1..] + [0];
      CStringIs(s[1..], n[1..]);
    }
  }

  function SlotAt(i: nat): nat {
    HEAD_SIZE + 1 + SLOT_SIZE * i
  }

  // The names a client finds in a packet: as many as file_number says.
  function Reported(f: Frame): seq<Name>
    requires |f| == LIST_SIZE && f[HEAD_SIZE] as int <= SLOTS
  {
    seq(f[HEAD_SIZE], i requires 0 <= i < f[HEAD_SIZE] as int => CString(f[SlotAt(i)..SlotAt(i) + SLOT_SIZE]))
  }

  ghost predicate IsListPacket(f: Frame, names: seq<Name>) {
    && IsPacket(f, TYPE_FILE, FILE_LIST, LIST_SIZE)
    && f[HEAD_SIZE] as int <= SLOTS && Reported(f) == names
  }

  function Concat(batches: seq<seq<Name>>): seq<Name> {
    if batches == [] then [] else batches[0] + Concat(batches[1..])
  }

  // Twenty names a packet, and a last packet with what remains, be it nothing.
  function Batches(names: seq<Name>): seq<seq<Name>> {
    if |names| < SLOTS then [names] else [names[..SLOTS]] + Batches(names[SLOTS..])
  }

  // Nothing is lost, repeated or reordered; all packets but the last are full, the last is not, and
  // there is one packet for every twenty names and one more.
  lemma {:induction false} BatchesLoseNothing(names: seq<Name>)
    ensures Concat(Batches(names)) == names
    ensures |Batches(names)| == |names| / 20 + 1
    ensures forall i :: 0 <= i < |Batches(names)| - 1 ==> |Batches(names)[i]| == 20
    ensures |Batches(names)[|Batches(names)| - 1]| == |names| % 20
  {
    if |names| < SLOTS {
      assert Batches(names)[1..] == [];
      assert Concat([names]) == names + Concat([]);
    } else {
      var rest := names[SLOTS..];
      BatchesLoseNothing(rest);
      var b := Batches(names);
      assert b[1..] == Batches(rest);
      assert names == names[..SLOTS] + rest;
      assert forall i :: 0 < i < |b| ==> b[i] == Batches(rest)[i - 1];
    }
  }

  lemma {:induction false} ConcatAppend(a: seq<seq<Name>>, b: seq<Name>)
    ensures Concat(a + [b]) == Concat(a) + b
  {
    if a == [] {
      assert a + [b] == [b];
      assert Concat([b]) == b + Concat([]);
    } else {
      ConcatAppend(a[1..], b);
      assert (a + [b])[1..] == a[1..] + [b];
      assert a[0] + (Concat(a[1..]) + b) == (a[0] + Concat(a[1..])) + b;
    }
  }

  // Full batches followed by one that is not full are the batches of what they hold.
  lemma {:induction false} BatchesAre(full: seq<seq<Name>>, last: seq<Name>)
    requires forall i :: 0 <= i < |full| ==> |full[i]| == SLOTS
    requires |last| < SLOTS
    ensures Batches(Concat(full) + last) == full + [last]
  {
    if full == [] {
      assert Concat(full) + last == last;
    } else {
      var names := Concat(full) + last;
      assert names == full[0] + (Concat(full[1..]) + last);
      assert names[..SLOTS] == full[0] && names[SLOTS..] == Concat(full[1..]) + last;
      BatchesAre(full[1..], last);
      assert full == [full[0]] + full[1..];
    }
  }
}
