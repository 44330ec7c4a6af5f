/**
 * Octets, fixed-width unsigned integers and their big-endian images: the most
 * significant half comes first, down to single octets.
 */
module Bytes {

  type byte = x: int | 0 <= x < 0x100
  type u16 = x: int | 0 <= x < 0x1_0000
  type u32 = x: int | 0 <= x < 0x1_0000_0000
  type u64 = x: int | 0 <= x < 0x1_0000_0000_0000_0000

  function Be16(v: u16): seq<byte> {
    [v / 0x100 % 0x100, v % 0x100]
  }

  function Be32(v: u32): seq<byte> {
    Be16(v / 0x1_0000) + Be16(v % 0x1_0000)
  }

  function Be64(v: u64): seq<byte> {
    Be32(v / 0x1_0000_0000) + Be32(v % 0x1_0000_0000)
  }

  function Get16(b: seq<byte>): u16
    requires |b| >= 2
  {
    b[0] as int * 0x100 + b[1]
  }

  function Get32(b: seq<byte>): u32
    requires |b| >= 4
  {
    Get16(b[..2]) as int * 0x1_0000 + Get16(b[2..])
  }

  function Get64(b: seq<byte>): u64
    requires |b| >= 8
  {
    Get32(b[..4]) as int * 0x1_0000_0000 + Get32(b[4..])
  }

  /** Reading two octets gives v exactly when they are the image of v. */
  lemma Be16Exact(b: seq<byte>, v: u16)
    requires |b| == 2
    ensures Get16(b) == v <==> b == Be16(v)
  {
    if Get16(b) == v {
      assert b == [b[0], b[1]];
    }
  }

  lemma Be32Exact(b: seq<byte>, v: u32)
    requires |b| == 4
    ensures Get32(b) == v <==> b == Be32(v)
  {
    var hi, lo := v / 0x1_0000, v % 0x1_0000;
    Be16Exact(b[..2], hi);
    Be16Exact(b[2..], lo);
    assert b == b[..2] + b[2..];
    if b == Be32(v) {
      assert b[..2] == Be16(hi) && b[2..] == Be16(lo);
    }
  }

  lemma Be64Exact(b: seq<byte>, v: u64)
    requires |b| == 8
    ensures Get64(b) == v <==> b == Be64(v)
  {
    var hi, lo := v / 0x1_0000_0000, v % 0x1_0000_0000;
    Be32Exact(b[..4], hi);
    Be32Exact(b[4..], lo);
    assert b == b[..4] + b[4..];
    if b == Be64(v) {
      assert b[..4] == Be32(hi) && b[4..] == Be32(lo);
    }
  }

  /** Stores bytes behind those already stored, as put_be16, put_be32, put_be64 and memcpy do. */
  method PutAt(out: array<byte>, at: nat, bytes: seq<byte>, ghost done: seq<byte>, ghost rest: seq<byte>)
    requires out[..] == done + rest && |done| == at && |bytes| <= |rest|
    modifies out
    ensures out[..] == done + bytes + rest[|bytes|..]
  {
    forall i | 0 <= i < |bytes| {
      out[at + i] := bytes[i];
    }
    assert out[..at] == done && out[at..at + |bytes|] == bytes && out[at + |bytes|..] == rest[|bytes|..];
    assert out[..] == out[..at] + out[at..at + |bytes|] + out[at + |bytes|..];
  }
}
