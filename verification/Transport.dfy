/**
 What the threads run on. The two classes stand for code that is not part of this model: the
 operating system's stream socket, and QSlidingWindow / QSlidingWindowConsume, which is taken to be
 a FIFO of byte strings whose append copies and whose dequeue returns one whole entry or nothing.
 */
module Transport {
  import opened NetProtocol

  // `b` with `s` written over it from `off` on.
  function Splice(b: seq<byte>, off: nat, s: seq<byte>): (r: seq<byte>)
    requires off + |s| <= |b|
    ensures |r| == |b|
  {
    b[..off] + s + b[off + |s|..]
  }

  // Two writes in a row, the second where the first ended.
  lemma {:induction false} SpliceMore(b: seq<byte>, off: nat, s: seq<byte>, t: seq<byte>)
    requires off + |s| + |t| <= |b|
    ensures Splice(Splice(b, off, s), off + |s|, t) == Splice(b, off, s + t)
  {
    var c := Splice(b, off, s);
    assert c[..off + |s|] == b[..off] + s;
    assert c[off + |s| + |t|..] == b[off + |s| + |t|..];
    assert b[..off] + s + t == b[..off] + (s + t);
  }

  // A recv of n bytes after pos bytes of the stream have been written to the buffer.
  lemma {:induction false} ReadMore(b: seq<byte>, off: nat, stream: seq<byte>, pos: nat, n: nat)
    requires pos + n <= |stream| && off + pos + n <= |b|
    ensures Splice(Splice(b, off, stream[..pos]), off + pos, stream[pos..][..n]) == Splice(b, off, stream[..pos + n])
    ensures stream[pos..][n..] == stream[pos + n..]
  {
    SpliceMore(b, off, stream[..pos], stream[pos..][..n]);
    assert stream[..pos] + stream[pos..][..n] == stream[..pos + n];
  }

  lemma {:induction false} ReadNothing(b: seq<byte>, off: nat, stream: seq<byte>)
    requires off <= |b|
    ensures Splice(b, off, stream[..0]) == b
  {
    assert stream[..0] == [];
  }

  // Header and body written to a buffer of their joint size, in either order.
  lemma {:induction false} HeadAndBody(b: seq<byte>, stream: seq<byte>)
    requires HEAD_SIZE <= |b| <= |stream|
    ensures var (head, body) := (stream[..HEAD_SIZE], stream[HEAD_SIZE..][..|b| - HEAD_SIZE]);
            && Splice(Splice(b, 0, head), HEAD_SIZE, body) == stream[..|b|]
            && Splice(Splice(b, HEAD_SIZE, body), 0, head) == stream[..|b|]
  {
    var head, body := stream[..HEAD_SIZE], stream[HEAD_SIZE..][..|b| - HEAD_SIZE];
    assert head + body == stream[..|b|];
    assert Splice(b, 0, head)[..HEAD_SIZE] == head;
    assert Splice(b, HEAD_SIZE, body)[HEAD_SIZE..] == body;
  }

  method Memcpy(dst: array<byte>, src: array<byte>, n: nat)
    requires dst != src && n <= dst.Length && n <= src.Length
    modifies dst
    ensures dst[..] == Splice(old(dst[..]), 0, src[..n])
  {
    for i := 0 to n
      invariant dst[..i] == src[..i]
      invariant dst[i..] == old(dst[i..])
    {
      dst[i] := src[i];
    }
    assert dst[..] == dst[..n] + dst[n..];
  }

  // Bytes that a library call (fread, strcpy) leaves in memory.
  method Put(dst: array<byte>, off: nat, bytes: seq<byte>)
    requires off + |bytes| <= dst.Length
    modifies dst
    ensures dst[..] == Splice(old(dst[..]), off, bytes)
  {
    Store(dst, off, bytes);
    assert dst[..] == dst[..off + |bytes|] + dst[off + |bytes|..];
    assert dst[off + |bytes|..] == old(dst[off + |bytes|..]);
  }

  class Socket {
    var incoming: seq<byte>  // sent by the peer, not yet returned by recv
    var outgoing: seq<byte>  // accepted by send

    constructor (incoming: seq<byte>)
      ensures this.incoming == incoming && outgoing == []
    {
      this.incoming := incoming;
      outgoing := [];
    }

    // Positive when the descriptor is ready, otherwise timeout or error.
    method Select() returns (ret: int) {
      ret := *;
    }

    method Recv(buf: array<byte>, pos: nat, left: nat) returns (ret: int)
      requires pos + left <= buf.Length
      modifies this`incoming, buf
      ensures -1 <= ret <= left && ret <= |old(incoming)|
      ensures var k := if ret > 0 then ret else 0;
              && incoming == old(incoming)[k..]
              && buf[..] == Splice(old(buf[..]), pos, old(incoming)[..k])
    {
      ret :| -1 <= ret <= left && ret <= |incoming|;
      if ret > 0 {
        Put(buf, pos, incoming[..ret]);
        incoming := incoming[ret..];
      } else {
        assert Splice(buf[..], pos, []) == buf[..];
      }
    }

    // The first pos bytes of `stream` have been taken and stand in the buffer from off on.
    ghost predicate Taken(buf: array<byte>, b0: seq<byte>, off: nat, stream: seq<byte>, pos: nat)
      reads `incoming, buf
    {
      && |b0| == buf.Length && pos <= |stream| && off + pos <= |b0|
      && incoming == stream[pos..]
      && buf[..] == Splice(b0, off, stream[..pos])
    }

    // A recv in the middle of a read loop: recv(sk, buf + off + pos, left).
    method RecvMore(buf: array<byte>, off: nat, pos: nat, left: nat, ghost b0: seq<byte>, ghost stream: seq<byte>)
      returns (ret: int)
      requires off + pos + left <= buf.Length && Taken(buf, b0, off, stream, pos)
      modifies this`incoming, buf
      ensures -1 <= ret <= left
      ensures Taken(buf, b0, off, stream, if ret > 0 then pos + ret else pos)
    {
      ret := Recv(buf, off + pos, left);
      ReadMore(b0, off, stream, pos, if ret > 0 then ret else 0);
    }

    method Send(buf: array<byte>, pos: nat, left: nat) returns (ret: int)
      requires pos + left <= buf.Length
      modifies this`outgoing
      ensures -1 <= ret <= left
      ensures outgoing == old(outgoing) + (if ret > 0 then buf[pos..pos + ret] else [])
    {
      ret :| -1 <= ret <= left;
      if ret > 0 {
        outgoing := outgoing + buf[pos..pos + ret];
      }
    }
  }

  class SlidingWindow {
    var frames: seq<seq<byte>>

    constructor ()
      ensures frames == []
    {
      frames := [];
    }

    method WriteDataToBuffer(len: nat, buffer: array<byte>)
      requires len <= buffer.Length
      modifies this
      ensures frames == old(frames) + [buffer[..len]]
    {
      frames := frames + [buffer[..len]];
    }

    // 0 when the window is empty; the caller's buffer must hold the entry.
    method ReadDataToBuffer(buffer: array<byte>) returns (len: nat)
      requires frames != [] ==> |frames[0]| <= buffer.Length
      modifies this, buffer
      ensures old(frames) == [] ==> len == 0 && frames == [] && buffer[..] == old(buffer[..])
      ensures old(frames) != [] ==> len == |old(frames)[0]| && frames == old(frames)[1..]
      ensures old(frames) != [] ==> buffer[..len] == old(frames)[0]
    {
      if frames == [] {
        return 0;
      }
      len := |frames[0]|;
      for i := 0 to len
        invariant frames == old(frames)
        invariant buffer[..i] == frames[0][..i]
      {
        buffer[i] := frames[0][i];
      }
      frames := frames[1..];
    }
  }
}
