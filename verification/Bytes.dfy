/** Fixed-width integers and their big-endian encodings, as every wire format of
    the repository uses them. */
module Bytes {
  type byte = x: int | 0 <= x < 0x100
  type uint16 = x: int | 0 <= x < 0x1_0000
  type uint32 = x: int | 0 <= x < 0x1_0000_0000
  type uint64 = x: int | 0 <= x < 0x1_0000_0000_0000_0000
  type int64 = x: int | -0x8000_0000_0000_0000 <= x < 0x8000_0000_0000_0000

  /** A Go byte slice or string whose sharing does not matter. */
  type bytes = seq<byte>

  datatype Option<+T> = None | Some(value: T)

  function Min(a: int, b: int): int {
    if a <= b then a else b
  }

  function Max(a: int, b: int): int {
    if a <= b then b else a
  }

  function PutUint16(v: uint16): (b: bytes)
    ensures |b| == 2
  {
    [v / 0x100, v % 0x100]
  }

  function Uint16(b: bytes): uint16
    requires |b| == 2
  {
    b[0] as int * 0x100 + b[1]
  }

  function PutUint32(v: uint32): (b: bytes)
    ensures |b| == 4
  {
    PutUint16(v / 0x1_0000) + PutUint16(v % 0x1_0000)
  }

  function Uint32(b: bytes): uint32
    requires |b| == 4
  {
    Uint16(b[..2]) as int * 0x1_0000 + Uint16(b[2..])
  }

  function PutUint64(v: uint64): (b: bytes)
    ensures |b| == 8
  {
    PutUint32(v / 0x1_0000_0000) + PutUint32(v % 0x1_0000_0000)
  }

  function Uint64(b: bytes): uint64
    requires |b| == 8
  {
    Uint32(b[..4]) as int * 0x1_0000_0000 + Uint32(b[4..])
  }

  /** Go's conversion of an int64 to uint64: two's complement. */
  function ToUint64(v: int64): uint64 {
    if v < 0 then v + 0x1_0000_0000_0000_0000 else v
  }

  /** Go's conversion of a uint64 to int64. */
  function ToInt64(v: uint64): int64 {
    if v < 0x8000_0000_0000_0000 then v else v - 0x1_0000_0000_0000_0000
  }

  /** All encodings are big-endian. */
  lemma BigEndian(v: uint16, b4: bytes, b8: bytes)
    requires |b4| == 4 && |b8| == 8
    ensures PutUint16(v)[0] as int * 256 + PutUint16(v)[1] == v
    ensures Uint32(b4) == b4[0] as int * 0x100_0000 + b4[1] as int * 0x1_0000 + b4[2] as int * 0x100 + b4[3]
    ensures Uint64(b8) as int == Uint32(b8[..4]) as int * 0x1_0000_0000 + Uint32(b8[4..])
  {
  }

  lemma Uint16RoundTrip(v: uint16)
    ensures Uint16(PutUint16(v)) == v
  {
  }

  lemma Uint32RoundTrip(v: uint32)
    ensures Uint32(PutUint32(v)) == v
  {
  }

  lemma Uint32Surjective(b: bytes)
    requires |b| == 4
    ensures PutUint32(Uint32(b)) == b
  {
    var hi: int, lo: int := Uint16(b[..2]), Uint16(b[2..]);
    assert Uint32(b) == hi * 0x1_0000 + lo && 0 <= lo < 0x1_0000;
    assert Uint32(b) / 0x1_0000 == hi && Uint32(b) % 0x1_0000 == lo;
    Uint16Surjective(b[..2]);
    Uint16Surjective(b[2..]);
    assert b == b[..2] + b[2..];
  }

  lemma Uint16Surjective(b: bytes)
    requires |b| == 2
    ensures PutUint16(Uint16(b)) == b
  {
  }

  lemma Uint64RoundTrip(v: uint64)
    ensures Uint64(PutUint64(v)) == v
  {
  }

  /** Finite sets: a part is no larger than the whole. */
  lemma SubsetSize<T>(a: set<T>, b: set<T>)
    requires a <= b
    ensures |a| <= |b|
  {
    assert b == a + (b - a);
  }

  /** A slice of a tail. */
  lemma SliceOfTail(s: bytes, at: nat, i: nat, j: nat)
    requires at + i <= at + j <= |s|
    ensures s[at..][i..j] == s[at + i..at + j] && s[at..][j..] == s[at + j..]
  {
  }

  lemma Associate(a: bytes, b: bytes, c: bytes)
    ensures a + (b + c) == a + b + c
  {
  }
}
