/**
 Big-endian integers over byte sequences, read and written the way Go's
 encoding/binary package does it.
 */
module Bytes {

  type byte = b: int | 0 <= b < 0x100
  type uint16 = v: int | 0 <= v < 0x1_0000
  type uint24 = v: int | 0 <= v < 0x100_0000
  type uint32 = v: int | 0 <= v < 0x1_0000_0000

  function PutU16(v: uint16): (r: seq<byte>)
    ensures |r| == 2
  {
    [v / 0x100, v % 0x100]
  }

  function GetU16(b: seq<byte>): uint16
    requires |b| >= 2
  {
    b[0] as int * 0x100 + b[1]
  }

  function PutU24(v: uint24): (r: seq<byte>)
    ensures |r| == 3
  {
    [v / 0x1_0000] + PutU16(v % 0x1_0000)
  }

  function GetU24(b: seq<byte>): uint24
    requires |b| >= 3
  {
    b[0] as int * 0x1_0000 + GetU16(b[1..])
  }

  function PutU32(v: uint32): (r: seq<byte>)
    ensures |r| == 4
  {
    PutU16(v / 0x1_0000) + PutU16(v % 0x1_0000)
  }

  function GetU32(b: seq<byte>): uint32
    requires |b| >= 4
  {
    GetU16(b) as int * 0x1_0000 + GetU16(b[2..])
  }

  /** The most significant byte comes first. */
  lemma BigEndian(a: byte, b: byte, c: byte, d: byte, rest: seq<byte>)
    ensures GetU16([a, b] + rest) == 256 * a + b
    ensures GetU24([a, b, c] + rest) == 65536 * a + 256 * b + c
    ensures GetU32([a, b, c, d] + rest) == 16777216 * a + 65536 * b + 256 * c + d
  {
    assert ([a, b, c] + rest)[1..] == [b, c] + rest;
    assert ([a, b, c, d] + rest)[2..] == [c, d] + rest;
  }

  lemma GetPut16(v: uint16, rest: seq<byte>)
    ensures GetU16(PutU16(v) + rest) == v
    ensures (PutU16(v) + rest)[2..] == rest
  {}

  lemma GetPut24(v: uint24, rest: seq<byte>)
    ensures GetU24(PutU24(v) + rest) == v
    ensures (PutU24(v) + rest)[3..] == rest
  {}

  lemma GetPut32(v: uint32, rest: seq<byte>)
    ensures GetU32(PutU32(v) + rest) == v
    ensures (PutU32(v) + rest)[4..] == rest
  {}

  lemma PutGet16(b: seq<byte>)
    requires |b| >= 2
    ensures PutU16(GetU16(b)) == b[..2]
  {}

  lemma PutGet24(b: seq<byte>)
    requires |b| >= 3
    ensures PutU24(GetU24(b)) == b[..3]
  {}

  lemma PutGet32(b: seq<byte>)
    requires |b| >= 4
    ensures PutU32(GetU32(b)) == b[..4]
  {
    PutGet16(b);
    PutGet16(b[2..]);
    hide GetU16, PutU16;
    assert GetU32(b) / 0x1_0000 == GetU16(b) && GetU32(b) % 0x1_0000 == GetU16(b[2..]);
    assert b[..4] == b[..2] + b[2..][..2];
  }

  function PutU16s(vs: seq<uint16>): (r: seq<byte>)
    ensures |r| == 2 * |vs|
  {
    if vs == [] then [] else PutU16(vs[0]) + PutU16s(vs[1..])
  }

  /** Consecutive big-endian pairs; an odd trailing byte is ignored. */
  function GetU16s(b: seq<byte>): (vs: seq<uint16>)
    ensures |vs| == |b| / 2
  {
    if |b| < 2 then [] else [GetU16(b)] + GetU16s(b[2..])
  }

  lemma {:induction false} GetPutU16s(vs: seq<uint16>)
    ensures GetU16s(PutU16s(vs)) == vs
  {
    if vs != [] {
      GetPut16(vs[0], PutU16s(vs[1..]));
      GetPutU16s(vs[1..]);
    }
  }

  /** The pairs, by position. */
  lemma {:induction false} GetU16sAt(b: seq<byte>, i: nat)
    requires i < |b| / 2
    ensures i < |GetU16s(b)| && GetU16s(b)[i] == 256 * b[2 * i] as int + b[2 * i + 1]
    decreases i
  {
    if i > 0 {
      GetU16sAt(b[2..], i - 1);
      assert GetU16s(b)[i] == GetU16s(b[2..])[i - 1];
    }
  }

  /** Appending one pair to an even prefix appends one value: the step of every pair loop. */
  lemma {:induction false} GetU16sSnoc(b: seq<byte>, i: nat)
    requires i % 2 == 0 && i + 2 <= |b|
    ensures GetU16s(b[..i + 2]) == GetU16s(b[..i]) + [GetU16(b[i..])]
  {
    if i == 0 {
      assert b[..2][2..] == [];
    } else {
      GetU16sSnoc(b[2..], i - 2);
      assert b[..i + 2][2..] == b[2..][..i];
      assert b[..i][2..] == b[2..][..i - 2];
      assert b[2..][i - 2..] == b[i..];
    }
  }

  /** One more item found is one less to find: the step of every front-to-back reader. */
  lemma Shift<T>(found: seq<T>, x: T, later: seq<T>)
    ensures found + ([x] + later) == (found + [x]) + later
  {}
}
