/** Bytes and the little-endian integer layouts of Python's struct module
    ('<H', '<I', '<i'), as used by tools/create_icons.py. */
module Bytes {
  import Hex
  import opened Uint32

  type Byte = b: int | 0 <= b < 256

  const TwoTo16: int := 0x1_0000
  const TwoTo31: int := 0x8000_0000

  /** The ranges struct.pack accepts for 'H', 'I' and 'i'; any other value
      makes it raise struct.error. */
  predicate IsU16(v: int) { 0 <= v < TwoTo16 }
  predicate IsU32(v: int) { 0 <= v < TwoTo32 }
  predicate IsI32(v: int) { -TwoTo31 <= v < TwoTo31 }

  function U16(v: int): (r: seq<Byte>)
    requires IsU16(v)
    ensures |r| == 2
  {
    [v % 256, v / 256]
  }

  function U32(v: int): (r: seq<Byte>)
    requires IsU32(v)
    ensures |r| == 4
  {
    [v % 256, (v / 0x100) % 256, (v / 0x1_0000) % 256, v / 0x100_0000]
  }

  /** A signed 32-bit value is laid out as its two's complement. */
  function I32(v: int): (r: seq<Byte>)
    requires IsI32(v)
    ensures |r| == 4
  {
    U32(if v < 0 then v + TwoTo32 else v)
  }

  function ReadU16(s: seq<Byte>, i: nat): int
    requires i + 2 <= |s|
  {
    s[i] as int + 0x100 * (s[i + 1] as int)
  }

  function ReadU32(s: seq<Byte>, i: nat): int
    requires i + 4 <= |s|
  {
    s[i] as int + 0x100 * (s[i + 1] as int) + 0x1_0000 * (s[i + 2] as int) + 0x100_0000 * (s[i + 3] as int)
  }

  function ReadI32(s: seq<Byte>, i: nat): int
    requires i + 4 <= |s|
  {
    var u := ReadU32(s, i);
    if u >= TwoTo31 then u - TwoTo32 else u
  }

  lemma U16RoundTrip(v: int)
    requires IsU16(v)
    ensures ReadU16(U16(v), 0) == v
  {
  }

  lemma U32RoundTrip(v: int)
    requires IsU32(v)
    ensures ReadU32(U32(v), 0) == v
  {
    var q1 := v / 0x100;
    var q2 := q1 / 0x100;
    var q3 := q2 / 0x100;
    var r0, r1, r2 := v % 0x100, q1 % 0x100, q2 % 0x100;
    assert v == 0x100 * q1 + r0;
    assert q1 == 0x100 * q2 + r1;
    assert q2 == 0x100 * q3 + r2;
    Hex.DivModUnique(v, 0x1_0000, q2, 0x100 * r1 + r0);
    Hex.DivModUnique(v, 0x100_0000, q3, 0x1_0000 * r2 + 0x100 * r1 + r0);
  }

  lemma I32RoundTrip(v: int)
    requires IsI32(v)
    ensures ReadI32(I32(v), 0) == v
  {
    U32RoundTrip(if v < 0 then v + TwoTo32 else v);
  }
}
