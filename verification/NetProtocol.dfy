/**
 The wire format: byte order conversion, the 40-byte header that HEAD_PKG writes, and the
 command numbers shared by client and server (net_protocol.h).

 Memory is byte addressed and the host is little endian; `Le16`/`Le32`/`Le64` are what a store
 through a struct field leaves in memory, `Load16`/`Load32` what a read of the field returns.
 */
module NetProtocol {
  type byte = b: int | 0 <= b < 0x100
  type u16 = n: int | 0 <= n < 0x1_0000
  type u32 = n: int | 0 <= n < 0x1_0000_0000

  const TYPE_CTRL: u16 := 1
  const TYPE_FILE: u16 := 2
  const TYPE_VID: u16 := 3
  const TYPE_AID: u16 := 4

  const CTRL_LOGIN: u32 := 1
  const CTRL_LOGOUT: u32 := 2
  const CTRL_HEART: u32 := 3

  const FILE_LIST: u32 := 1
  const FILE_START: u32 := 2
  const FILE_PATH: u32 := 3
  const FILE_SEND: u32 := 4
  const FILE_NAME: u32 := 5

  const VID_CONNECT: u32 := 1
  const VID_STREAM: u32 := 2

  // sizeof(app_net_head_pkg_t): the 64-bit Sn sits at offset 24, so no padding is needed.
  const HEAD_SIZE := 40
  // The loops count bytes in a signed 32-bit int.
  const INT_LIMIT := 0x8000_0000

  /* Byte order */

  function Htons(v: u16): u16 {
    (v % 0x100) * 0x100 + v / 0x100
  }

  // The number with the given base-256 digits, the least significant one first.
  function Number(a: byte, b: byte, c: byte, d: byte): u32 {
    a + 0x100 * (b + 0x100 * (c + 0x100 * d))
  }

  // Its digits.
  function Low(v: u32): byte { v % 0x100 }

  function Second(v: u32): byte { Low(v / 0x100) }

  function Third(v: u32): byte { Second(v / 0x100) }

  function High(v: u32): byte { v / 0x100 / 0x100 / 0x100 }

  function Htonl(v: u32): u32 {
    Number(High(v), Third(v), Second(v), Low(v))
  }

  function Le16(v: u16): (s: seq<byte>)
    ensures |s| == 2
  {
    [v % 0x100, v / 0x100]
  }

  function Le32(v: u32): (s: seq<byte>)
    ensures |s| == 4
  {
    [Low(v), Second(v), Third(v), High(v)]
  }

  // A 64-bit field is only ever assigned a 16-bit value.
  function Le64(v: u16): (s: seq<byte>)
    ensures |s| == 8
  {
    Le32(v) + [0, 0, 0, 0]
  }

  function Load16(s: seq<byte>, off: nat): u16
    requires off + 2 <= |s|
  {
    s[off] as int + s[off + 1] as int * 0x100
  }

  function Load32(s: seq<byte>, off: nat): u32
    requires off + 4 <= |s|
  {
    Number(s[off], s[off + 1], s[off + 2], s[off + 3])
  }

  // Storing the converted value and converting what is loaded gives the value back, and the
  // bytes in between are the big-endian ones.
  lemma {:induction false} NetworkOrder16(v: u16, s: seq<byte>, off: nat)
    requires off + 2 <= |s|
    ensures s[off..off + 2] == Le16(Htons(v)) <==> Htons(Load16(s, off)) == v
  {
    assert Htons(v) / 0x100 == v % 0x100 && Htons(v) % 0x100 == v / 0x100;
    assert s[off..off + 2] == [s[off], s[off + 1]];
    assert Le16(Htons(v)) == [v / 0x100, v % 0x100];
    var w := Load16(s, off);
    assert w % 0x100 == s[off] && w / 0x100 == s[off + 1];
    assert Htons(w) == s[off] as int * 0x100 + s[off + 1] as int;
  }

  lemma NumberDigits(a: byte, b: byte, c: byte, d: byte)
    ensures var v := Number(a, b, c, d); Low(v) == a && Second(v) == b && Third(v) == c && High(v) == d
  {
    var v := Number(a, b, c, d);
    var q: u32 := b + 0x100 * (c + 0x100 * d);
    var r: u32 := c + 0x100 * d;
    assert v / 0x100 == q && v % 0x100 == a;
    assert q / 0x100 == r && q % 0x100 == b;
    assert r / 0x100 == d && r % 0x100 == c;
  }

  lemma DigitsNumber(v: u32)
    ensures Number(Low(v), Second(v), Third(v), High(v)) == v
  {
    var q: u32 := v / 0x100;
    var r: u32 := q / 0x100;
    assert v == Low(v) + 0x100 * q;
    assert q == Low(q) + 0x100 * r;
    assert r == Low(r) + 0x100 * (r / 0x100);
  }

  // A field that was stored through htonl holds the big-endian digits.
  lemma BigEndian32(v: u32)
    ensures Le32(Htonl(v)) == [High(v), Third(v), Second(v), Low(v)]
    ensures Htonl(Htonl(v)) == v
  {
    NumberDigits(High(v), Third(v), Second(v), Low(v));
    DigitsNumber(v);
  }

  lemma {:induction false} NetworkOrder32(v: u32, s: seq<byte>, off: nat)
    requires off + 4 <= |s|
    ensures s[off..off + 4] == Le32(Htonl(v)) <==> Htonl(Load32(s, off)) == v
  {
    var w := Load32(s, off);
    assert s[off..off + 4] == [s[off], s[off + 1], s[off + 2], s[off + 3]];
    NumberDigits(s[off], s[off + 1], s[off + 2], s[off + 3]);
    assert Le32(w) == s[off..off + 4];
    BigEndian32(v);
    BigEndian32(w);
    if Le32(w) == Le32(Htonl(v)) {
      DigitsNumber(w);
      DigitsNumber(Htonl(v));
      assert Low(w) == Le32(w)[0] && Second(w) == Le32(w)[1] && Third(w) == Le32(w)[2] && High(w) == Le32(w)[3];
    }
  }

  /* The header */

  function Magic(): (s: seq<byte>)
    ensures |s| == 4
  {
    [0x5a, 0xa5, 0x5a, 0xa5]
  }

  // The bytes `_head_pkg` leaves, field by field. Hardware, DataType, Sn and Rev3 are wider than
  // the 16-bit value that htons gives them.
  function HeadBytes(len: u32, cmdType: u16, version: u16, subType: u32, hardware: u16, dataType: u16,
                     sn: u16, rev1: u16, rev2: u16, rev3: u16): (s: seq<byte>)
    ensures |s| == HEAD_SIZE
  {
    Magic() + Le32(Htonl(len)) + Le16(Htons(cmdType)) + Le16(Htons(version)) + Le32(Htonl(subType))
    + Le32(Htons(hardware)) + Le32(Htons(dataType)) + Le64(Htons(sn))
    + Le16(Htons(rev1)) + Le16(Htons(rev2)) + Le32(Htons(rev3))
  }

  // HEAD_PKG(p, cmdType, subType, dataType, len)
  function HeadPkg(cmdType: u16, subType: u32, dataType: u16, len: u32): (s: seq<byte>)
    ensures |s| == HEAD_SIZE
  {
    HeadBytes(len, cmdType, 0, subType, 0, dataType, 0, 0, 0, 0)
  }

  function LengthOf(s: seq<byte>): u32
    requires HEAD_SIZE <= |s|
  {
    Htonl(Load32(s, 4))
  }

  function TypeOf(s: seq<byte>): u16
    requires HEAD_SIZE <= |s|
  {
    Htons(Load16(s, 8))
  }

  function SubOf(s: seq<byte>): u32
    requires HEAD_SIZE <= |s|
  {
    Htonl(Load32(s, 12))
  }

  lemma HeadFields(cmdType: u16, subType: u32, dataType: u16, len: u32)
    ensures var h := HeadPkg(cmdType, subType, dataType, len);
            && h[..4] == Magic()
            && h[4..8] == Le32(Htonl(len))
            && h[8..10] == Le16(Htons(cmdType))
            && h[10..12] == [0, 0]
            && h[12..16] == Le32(Htonl(subType))
            && h[16..20] == [0, 0, 0, 0]
            && h[20..24] == Le32(Htons(dataType))
            && (forall i :: 24 <= i < 40 ==> h[i] == 0)
  {
    var front := Magic() + Le32(Htonl(len)) + Le16(Htons(cmdType)) + Le16(Htons(0)) + Le32(Htonl(subType));
    var back := Le64(Htons(0)) + Le16(Htons(0)) + Le16(Htons(0)) + Le32(Htons(0));
    var h := HeadPkg(cmdType, subType, dataType, len);
    assert h == front + Le32(Htons(0)) + Le32(Htons(dataType)) + back;
    assert back == [0, 0, 0, 0, 0, 0, 0, 0, 0, 0, 0, 0, 0, 0, 0, 0];
    assert forall i :: 24 <= i < 40 ==> h[i] == back[i - 24];
    assert h[16..20] == Le32(Htons(0)) == [0, 0, 0, 0];
    assert h[20..24] == Le32(Htons(dataType));
    forall a: nat, b: nat | a <= b <= 16
      ensures h[a..b] == front[a..b]
    {
    }
    assert front[4..8] == Le32(Htonl(len));
    assert front[8..10] == Le16(Htons(cmdType));
    assert front[10..12] == Le16(Htons(0)) == [0, 0];
    assert front[12..16] == Le32(Htonl(subType));
  }

  // What the receivers decode is what the sender encoded, at the start of a longer buffer; the
  // length is big endian on the wire and every other field is the magic or zero.
  lemma {:induction false} HeaderRoundTrip(cmdType: u16, subType: u32, len: u32, f: seq<byte>)
    requires HEAD_SIZE <= |f| && f[..HEAD_SIZE] == HeadPkg(cmdType, subType, 0, len)
    ensures TypeOf(f) == cmdType && SubOf(f) == subType && LengthOf(f) == len
    ensures f[4..8] == [High(len), Third(len), Second(len), Low(len)]
    ensures FixedFields(f)
  {
    HeadFields(cmdType, subType, 0, len);
    HeadSlices(f, HeadPkg(cmdType, subType, 0, len));
    BigEndian32(len);
    NetworkOrder32(len, f, 4);
    NetworkOrder16(cmdType, f, 8);
    NetworkOrder32(subType, f, 12);
  }

  predicate FixedFields(f: seq<byte>)
    requires HEAD_SIZE <= |f|
  {
    && f[..4] == [0x5a, 0xa5, 0x5a, 0xa5] && f[10..12] == [0, 0]
    && forall i :: 16 <= i < HEAD_SIZE ==> f[i] == 0
  }

  // Conversely the decoded triple and the fixed fields determine the header.
  lemma {:induction false} HeaderDetermined(f: seq<byte>)
    requires HEAD_SIZE <= |f| && FixedFields(f)
    ensures f[..HEAD_SIZE] == HeadPkg(TypeOf(f), SubOf(f), 0, LengthOf(f))
  {
    var h := HeadPkg(TypeOf(f), SubOf(f), 0, LengthOf(f));
    HeadFields(TypeOf(f), SubOf(f), 0, LengthOf(f));
    NetworkOrder32(LengthOf(f), f, 4);
    NetworkOrder16(TypeOf(f), f, 8);
    NetworkOrder32(SubOf(f), f, 12);
    HeadPieces(f, h);
  }

  lemma {:induction false} HeadSlices(f: seq<byte>, h: seq<byte>)
    requires |h| == HEAD_SIZE <= |f| && f[..HEAD_SIZE] == h
    ensures f[..4] == h[..4] && f[4..8] == h[4..8] && f[8..10] == h[8..10] && f[10..12] == h[10..12]
    ensures f[12..16] == h[12..16]
    ensures forall i :: 16 <= i < HEAD_SIZE ==> f[i] == h[i]
  {
    forall a: nat, b: nat | a <= b <= HEAD_SIZE
      ensures f[a..b] == h[a..b]
    {
      assert f[a..b] == f[..HEAD_SIZE][a..b];
    }
  }

  lemma {:induction false} HeadPieces(f: seq<byte>, h: seq<byte>)
    requires |h| == HEAD_SIZE <= |f|
    requires f[..4] == h[..4] && f[4..8] == h[4..8] && f[8..10] == h[8..10] && f[10..12] == h[10..12]
    requires f[12..16] == h[12..16]
    requires forall i :: 16 <= i < HEAD_SIZE ==> f[i] == h[i]
    ensures f[..HEAD_SIZE] == h
  {
    forall i | 0 <= i < HEAD_SIZE
      ensures f[i] == h[i]
    {
      if i < 4 {
        assert f[i] == f[..4][i] && h[i] == h[..4][i];
      } else if i < 8 {
        assert f[i] == f[4..8][i - 4] && h[i] == h[4..8][i - 4];
      } else if i < 10 {
        assert f[i] == f[8..10][i - 8] && h[i] == h[8..10][i - 8];
      } else if i < 12 {
        assert f[i] == f[10..12][i - 10] && h[i] == h[10..12][i - 10];
      } else if i < 16 {
        assert f[i] == f[12..16][i - 12] && h[i] == h[12..16][i - 12];
      }
    }
  }

  lemma HeaderInjective(t1: u16, s1: u32, n1: u32, t2: u16, s2: u32, n2: u32)
    requires HeadPkg(t1, s1, 0, n1) == HeadPkg(t2, s2, 0, n2)
    ensures t1 == t2 && s1 == s2 && n1 == n2
  {
    var h := HeadPkg(t1, s1, 0, n1);
    assert h[..HEAD_SIZE] == h;
    HeaderRoundTrip(t1, s1, n1, h);
    HeaderRoundTrip(t2, s2, n2, h);
  }

  // DataType is a 32-bit field filled with htons: read back with ntohl, as the other 32-bit
  // fields are, it gives the argument exactly when that is zero (the only value in use).
  lemma DataTypeIsShifted(cmdType: u16, subType: u32, dataType: u16, len: u32)
    ensures Htonl(Load32(HeadPkg(cmdType, subType, dataType, len), 20)) == dataType * 0x1_0000
    ensures Htonl(Load32(HeadPkg(cmdType, subType, dataType, len), 20)) == dataType <==> dataType == 0
  {
    var h := HeadPkg(cmdType, subType, dataType, len);
    HeadFields(cmdType, subType, dataType, len);
    var w := Htons(dataType);
    assert [h[20], h[21], h[22], h[23]] == h[20..24] == Le32(w);
    DigitsNumber(w);
    NumberDigits(h[20], h[21], h[22], h[23]);
    assert w == Number(dataType / 0x100, dataType % 0x100, 0, 0);
    NumberDigits(dataType / 0x100, dataType % 0x100, 0, 0);
  }

  // An assignment to a header field: `bytes` replaces memory from `off` on.
  method Store(p: array<byte>, off: nat, bytes: seq<byte>)
    requires off + |bytes| <= p.Length
    modifies p
    ensures p[..off + |bytes|] == old(p[..off]) + bytes
    ensures forall i :: off + |bytes| <= i < p.Length ==> p[i] == old(p[i])
  {
    for i := 0 to |bytes|
      invariant p[..off] == old(p[..off])
      invariant p[off..off + i] == bytes[..i]
      invariant forall j :: off + i <= j < p.Length ==> p[j] == old(p[j])
    {
      p[off + i] := bytes[i];
    }
  }

  // _head_pkg: one store per field, in the order of the macro.
  method WriteHeadFields(p: array<byte>, len: u32, cmdType: u16, version: u16, subType: u32, hardware: u16,
                         dataType: u16, sn: u16, rev1: u16, rev2: u16, rev3: u16)
    requires HEAD_SIZE <= p.Length
    modifies p
    ensures p[..HEAD_SIZE] == HeadBytes(len, cmdType, version, subType, hardware, dataType, sn, rev1, rev2, rev3)
    ensures p[HEAD_SIZE..] == old(p[HEAD_SIZE..])
  {
    hide Htons, Htonl, Le16, Le32, Le64, Magic;
    Store(p, 0, Magic());
    Store(p, 4, Le32(Htonl(len)));
    Store(p, 8, Le16(Htons(cmdType)));
    Store(p, 10, Le16(Htons(version)));
    Store(p, 12, Le32(Htonl(subType)));
    Store(p, 16, Le32(Htons(hardware)));
    Store(p, 20, Le32(Htons(dataType)));
    Store(p, 24, Le64(Htons(sn)));
    Store(p, 32, Le16(Htons(rev1)));
    Store(p, 34, Le16(Htons(rev2)));
    Store(p, 36, Le32(Htons(rev3)));
  }

  // HEAD_PKG: the first 40 bytes of the packet are written, the payload after them is kept.
  method WriteHead(p: array<byte>, cmdType: u16, subType: u32, dataType: u16, len: u32)
    requires HEAD_SIZE <= p.Length
    modifies p
    ensures p[..HEAD_SIZE] == HeadPkg(cmdType, subType, dataType, len)
    ensures p[HEAD_SIZE..] == old(p[HEAD_SIZE..])
  {
    WriteHeadFields(p, len, cmdType, 0, subType, 0, dataType, 0, 0, 0, 0);
  }
}
