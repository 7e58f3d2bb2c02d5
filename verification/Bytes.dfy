/** Bytes, the fixed-width integers of the source, and big-endian ("network order") integers. */
module Bytes {
  type byte = x: int | 0 <= x < 0x100
  type bytes = seq<byte>
  type int16 = x: int | -0x8000 <= x < 0x8000
  type int32 = x: int | -0x8000_0000 <= x < 0x8000_0000
  type uint32 = x: int | 0 <= x < 0x1_0000_0000
  type int64 = x: int | -0x8000_0000_0000_0000 <= x < 0x8000_0000_0000_0000
  type uint64 = x: int | 0 <= x < 0x1_0000_0000_0000_0000

  /** The two's complement reinterpretations a `static_cast` between equal widths performs. */
  function ToInt32(u: uint32): int32 {
    if u < 0x8000_0000 then u else u - 0x1_0000_0000
  }

  function ToUint32(x: int32): uint32 {
    if x < 0 then x + 0x1_0000_0000 else x
  }

  function ToInt64(u: uint64): int64 {
    if u < 0x8000_0000_0000_0000 then u else u - 0x1_0000_0000_0000_0000
  }

  function ToUint64(x: int64): uint64 {
    if x < 0 then x + 0x1_0000_0000_0000_0000 else x
  }

  /** The four bytes `hostToNetwork32(x)` has in memory. */
  function Be32(x: int32): (s: bytes)
    ensures |s| == 4
  {
    var u := ToUint32(x) as int;
    var high3, high2, high1 := u / 0x100, u / 0x100 / 0x100, u / 0x100 / 0x100 / 0x100;
    [high1, high2 % 0x100, high3 % 0x100, u % 0x100]
  }

  /** `asInt32`: the first four bytes as a big-endian two's complement integer. */
  function AsInt32(s: bytes): int32
    requires |s| >= 4
  {
    ToInt32(s[0] as int * 0x100_0000 + s[1] as int * 0x1_0000 + s[2] as int * 0x100 + s[3])
  }

  lemma AsInt32OfBe32(x: int32, rest: bytes)
    ensures AsInt32(Be32(x) + rest) == x
  {
    var u := ToUint32(x);
    var s := Be32(x);
    assert s[0] as int * 0x100_0000 + s[1] as int * 0x1_0000 + s[2] as int * 0x100 + s[3] == u;
  }

  lemma Be32OfAsInt32(s: bytes)
    requires |s| == 4
    ensures Be32(AsInt32(s)) == s
  {
    var u := s[0] as int * 0x100_0000 + s[1] as int * 0x1_0000 + s[2] as int * 0x100 + s[3];
    assert ToUint32(ToInt32(u)) == u;
    var high2 := s[0] as int * 0x100 + s[1];
    var high3 := high2 * 0x100 + s[2];
    assert u / 0x100 == high3 && high3 / 0x100 == high2 && high2 / 0x100 == s[0];
  }

  /** Concatenation of a list of byte strings. */
  function Concat(parts: seq<bytes>): bytes {
    if parts == [] then [] else parts[0] + Concat(parts[1..])
  }

  lemma {:induction false} ConcatAppend(a: seq<bytes>, b: seq<bytes>)
    ensures Concat(a + b) == Concat(a) + Concat(b)
  {
    if a == [] {
      assert a + b == b;
    } else {
      assert (a + b)[1..] == a[1..] + b;
      ConcatAppend(a[1..], b);
    }
  }
}
