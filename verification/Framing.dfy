/**
 Length-prefixed frames on a byte stream, and the header-then-body reader of both receive threads
 (QNetTcpServer.cpp:250-274, QNetClient.cpp:515-522) as a function of the chunks that arrive.
 */
module Framing {
  import opened NetProtocol

  type Frame = seq<byte>

  // The header's Length counts the header and the payload.
  predicate WellFormed(f: Frame) {
    HEAD_SIZE <= |f| < INT_LIMIT && LengthOf(f) == |f|
  }

  ghost predicate AllWellFormed(fs: seq<Frame>) {
    forall f :: f in fs ==> WellFormed(f)
  }

  // A packet of n bytes whose header HEAD_PKG wrote for the pair (cmdType, subType).
  predicate IsPacket(f: Frame, cmdType: u16, subType: u32, n: int) {
    HEAD_SIZE <= n < INT_LIMIT && |f| == n && f[..HEAD_SIZE] == HeadPkg(cmdType, subType, 0, n)
  }

  lemma PacketDecodes(f: Frame, cmdType: u16, subType: u32, n: int)
    requires IsPacket(f, cmdType, subType, n)
    ensures WellFormed(f) && TypeOf(f) == cmdType && SubOf(f) == subType
  {
    HeaderRoundTrip(cmdType, subType, n, f);
  }

  function Flatten(fs: seq<Frame>): seq<byte> {
    if fs == [] then [] else fs[0] + Flatten(fs[1..])
  }

  lemma {:induction false} FlattenAppend(a: seq<Frame>, b: seq<Frame>)
    ensures Flatten(a + b) == Flatten(a) + Flatten(b)
  {
    if a == [] {
      assert a + b == b;
    } else {
      FlattenAppend(a[1..], b);
      assert (a + b)[1..] == a[1..] + b;
      Assoc(a[0], Flatten(a[1..]), Flatten(b));
    }
  }

  lemma {:induction false} Assoc(a: seq<byte>, b: seq<byte>, c: seq<byte>)
    ensures (a + b) + c == a + (b + c)
  {
  }

  lemma FlattenOne(f: Frame)
    ensures Flatten([f]) == f
  {
    assert Flatten([f]) == f + Flatten([]);
  }

  // How many bytes the reader still asks recv for: the header first, then what Length announces.
  function Need(buf: seq<byte>): int {
    if |buf| < HEAD_SIZE then HEAD_SIZE - |buf| else LengthOf(buf) - |buf|
  }

  predicate Complete(buf: seq<byte>) {
    HEAD_SIZE <= |buf| && Need(buf) == 0
  }

  // Alignment comes from the stream alone: a buffer that never overran what the reader asked for
  // is the beginning of the first frame, and its length field is that frame's.
  lemma {:induction false} ReaderAligned(fs: seq<Frame>, buf: seq<byte>, rest: seq<byte>)
    requires AllWellFormed(fs) && buf + rest == Flatten(fs) && 0 <= Need(buf) && fs != []
    ensures buf <= fs[0] && Need(buf) <= |fs[0]| - |buf|
    ensures HEAD_SIZE <= |buf| ==> Need(buf) == |fs[0]| - |buf|
    ensures |buf| < |fs[0]| ==> Need(buf) > 0 && rest != []
    ensures Complete(buf) <==> buf == fs[0]
  {
    var all := Flatten(fs);
    assert WellFormed(fs[0]);
    assert |buf| <= |fs[0]| by {
      if |buf| > HEAD_SIZE {
        assert buf[..HEAD_SIZE] == all[..HEAD_SIZE] == fs[0][..HEAD_SIZE];
        SameHead(buf, fs[0]);
      }
    }
    assert buf == all[..|buf|] == fs[0][..|buf|];
    if HEAD_SIZE <= |buf| {
      assert buf[..HEAD_SIZE] == fs[0][..HEAD_SIZE];
      SameHead(buf, fs[0]);
    }
    assert |buf| + |rest| >= |fs[0]|;
  }

  lemma {:induction false} SameHead(a: seq<byte>, b: seq<byte>)
    requires HEAD_SIZE <= |a| && HEAD_SIZE <= |b| && a[..HEAD_SIZE] == b[..HEAD_SIZE]
    ensures LengthOf(a) == LengthOf(b) && TypeOf(a) == TypeOf(b) && SubOf(a) == SubOf(b)
  {
    hide Htons, Htonl, Number;
    forall i | 0 <= i < HEAD_SIZE
      ensures a[i] == b[i]
    {
      assert a[i] == a[..HEAD_SIZE][i] && b[i] == b[..HEAD_SIZE][i];
    }
  }

  // The stream is at the frame `first`, whole or cut short: the header that is read is its header.
  lemma {:induction false} HeadOfFrame(first: Frame, stream: seq<byte>, head: seq<byte>)
    requires WellFormed(first) && (first <= stream || stream < first)
    requires HEAD_SIZE <= |stream| && head == stream[..HEAD_SIZE]
    ensures LengthOf(head) == |first|
  {
    assert head[..HEAD_SIZE] == head == first[..HEAD_SIZE];
    SameHead(head, first);
  }

  lemma {:induction false} LongEnough(first: Frame, stream: seq<byte>)
    requires first <= stream || stream < first
    ensures |first| <= |stream| ==> first <= stream && stream[..|first|] == first
  {
  }

  lemma {:induction false} DropDrop(s: seq<byte>, a: nat, b: nat)
    requires a + b <= |s|
    ensures s[a..][b..] == s[a + b..]
  {
  }

  lemma {:induction false} Front(a: seq<byte>, b: seq<byte>)
    ensures a <= a + b && (a + b)[|a|..] == b
  {
  }

  // A byte string is the concatenation of at most one list of frames.
  lemma {:induction false} UniqueFrames(a: seq<Frame>, b: seq<Frame>)
    requires AllWellFormed(a) && AllWellFormed(b)
    requires Flatten(a) == Flatten(b)
    ensures a == b
  {
    NotEmpty(a);
    NotEmpty(b);
    if a != [] && b != [] {
      assert WellFormed(a[0]) && Need(a[0]) == 0;
      ReaderAligned(b, a[0], Flatten(a[1..]));
      assert a[0] == b[0];
      assert Flatten(a[1..]) == Flatten(a)[|a[0]|..] == Flatten(b[1..]);
      UniqueFrames(a[1..], b[1..]);
    }
  }

  lemma {:induction false} NotEmpty(fs: seq<Frame>)
    requires AllWellFormed(fs)
    ensures fs != [] <==> Flatten(fs) != []
  {
    if fs != [] {
      assert WellFormed(fs[0]);
    }
  }

  /* Segmentation */

  datatype Reader = Reader(buf: seq<byte>, got: seq<Frame>)

  function Feed(r: Reader, chunk: seq<byte>): Reader {
    var buf := r.buf + chunk;
    if Complete(buf) then Reader([], r.got + [buf]) else Reader(buf, r.got)
  }

  function Min(a: int, b: int): int {
    if a <= b then a else b
  }

  // What the reader makes of `stream` when the i-th recv finds sizes[i] bytes in the socket: it
  // takes no more than it asked for. The second result is what is left in the socket.
  function Drain(r: Reader, stream: seq<byte>, sizes: seq<nat>): (Reader, seq<byte>)
    decreases |sizes|
  {
    if stream == [] || sizes == [] || Need(r.buf) <= 0 then
      (r, stream)
    else
      var k := Min(sizes[0], Min(Need(r.buf), |stream|));
      Drain(Feed(r, stream[..k]), stream[k..], sizes[1..])
  }

  // The reader has delivered the first frames of `fs` and holds the beginning of the next.
  ghost predicate ReaderOn(fs: seq<Frame>, r: Reader, rest: seq<byte>) {
    && r.got <= fs
    && r.buf + rest == Flatten(fs[|r.got|..])
    && 0 < Need(r.buf)
  }

  lemma {:induction false} FeedKeeps(fs: seq<Frame>, r: Reader, stream: seq<byte>, k: nat)
    requires AllWellFormed(fs) && ReaderOn(fs, r, stream)
    requires k <= |stream| && k <= Need(r.buf)
    ensures ReaderOn(fs, Feed(r, stream[..k]), stream[k..])
  {
    var tail := fs[|r.got|..];
    var buf := r.buf + stream[..k];
    assert buf + stream[k..] == r.buf + stream;
    NotEmpty(tail);
    if tail != [] {
      NeedAfter(tail, r.buf, stream, k);
      ReaderAligned(tail, buf, stream[k..]);
      assert WellFormed(tail[0]);
      if Complete(buf) {
        assert fs[|r.got| + 1..] == tail[1..];
        assert stream[k..] == Flatten(tail)[|buf|..] == Flatten(tail[1..]);
      }
    }
  }

  // Reading at most what is needed never overruns the frame.
  lemma {:induction false} NeedAfter(fs: seq<Frame>, buf: seq<byte>, rest: seq<byte>, k: nat)
    requires AllWellFormed(fs) && fs != []
    requires buf + rest == Flatten(fs)
    requires k <= |rest| && k <= Need(buf)
    ensures 0 <= Need(buf + rest[..k])
  {
    var after := buf + rest[..k];
    assert WellFormed(fs[0]);
    if |buf| >= HEAD_SIZE {
      assert after[..HEAD_SIZE] == buf[..HEAD_SIZE];
      SameHead(after, buf);
    } else if |after| >= HEAD_SIZE {
      assert after == Flatten(fs)[..HEAD_SIZE] == fs[0][..HEAD_SIZE];
      SameHead(after, fs[0]);
    }
  }

  lemma {:induction false} DrainKeeps(fs: seq<Frame>, r: Reader, stream: seq<byte>, sizes: seq<nat>)
    requires AllWellFormed(fs) && ReaderOn(fs, r, stream)
    requires forall i :: 0 <= i < |sizes| ==> sizes[i] > 0
    ensures ReaderOn(fs, Drain(r, stream, sizes).0, Drain(r, stream, sizes).1)
    ensures |Drain(r, stream, sizes).1| <= (if |sizes| <= |stream| then |stream| - |sizes| else 0)
    decreases |sizes|
  {
    if stream != [] && sizes != [] {
      var k: nat := Min(sizes[0], Min(Need(r.buf), |stream|));
      FeedKeeps(fs, r, stream, k);
      DrainKeeps(fs, Feed(r, stream[..k]), stream[k..], sizes[1..]);
    }
  }

  // However the concatenation of `fs` is cut into recv results, what has been delivered is a list
  // of whole frames of `fs` in order, the buffer is a proper beginning of the next one, and
  // nothing is lost; once every byte has been read, exactly `fs` has been delivered.
  lemma {:induction false} SegmentationIndependence(fs: seq<Frame>, sizes: seq<nat>)
    requires AllWellFormed(fs)
    requires forall i :: 0 <= i < |sizes| ==> sizes[i] > 0
    ensures var (r, rest) := Drain(Reader([], []), Flatten(fs), sizes);
            && r.got <= fs
            && Flatten(r.got) + r.buf + rest == Flatten(fs)
            && (r.buf != [] ==> |r.got| < |fs| && r.buf < fs[|r.got|])
            && (rest == [] ==> r.got == fs && r.buf == [])
  {
    hide LengthOf, Feed;
    DrainKeeps(fs, Reader([], []), Flatten(fs), sizes);
    var (r, rest) := Drain(Reader([], []), Flatten(fs), sizes);
    hide Drain;
    var tail := fs[|r.got|..];
    FlattenAppend(r.got, tail);
    assert r.got + tail == fs;
    Assoc(Flatten(r.got), r.buf, rest);
    NotEmpty(tail);
    if tail != [] {
      assert WellFormed(tail[0]);
      ReaderAligned(tail, r.buf, rest);
    }
  }

  // And as many results as there are bytes leave none of them unread.
  lemma {:induction false} EnoughReads(fs: seq<Frame>, sizes: seq<nat>)
    requires AllWellFormed(fs) && |sizes| >= |Flatten(fs)|
    requires forall i :: 0 <= i < |sizes| ==> sizes[i] > 0
    ensures Drain(Reader([], []), Flatten(fs), sizes).1 == []
  {
    DrainKeeps(fs, Reader([], []), Flatten(fs), sizes);
  }
}
