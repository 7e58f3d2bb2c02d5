/**
 The wire primitives of the Protocol Buffers encoding: base 128 varints, tags, length-delimited
 strings, and skipping of fields a message does not know.
 */
module Wire {
  import opened Bytes
  import opened Wrappers

  // ---------------------------------------------------------------------------------------------
  // Varints
  // ---------------------------------------------------------------------------------------------

  /** Seven bits a byte, least significant group first, the top bit set on all but the last. */
  function EncodeVarint(v: nat): (s: bytes)
    ensures s != []
  {
    if v < 0x80 then [v] else [v % 0x80 + 0x80] + EncodeVarint(v / 0x80)
  }

  function VarintSize(v: nat): nat {
    if v < 0x80 then 1 else 1 + VarintSize(v / 0x80)
  }

  /** A read value and the number of bytes it took. */
  datatype Read<+T> = Read(value: T, used: nat)

  /** At most `limit` bytes are looked at; a varint that has not ended by then, or runs off the input, is an error. */
  function DecodeVarint(s: bytes, limit: nat): (r: Option<Read<nat>>)
    ensures r.Some? ==> 0 < r.value.used <= |s|
    decreases limit
  {
    if s == [] || limit == 0 then None
    else if s[0] < 0x80 then Some(Read(s[0], 1))
    else match DecodeVarint(s[1..], limit - 1)
      case None => None
      case Some(r) => Some(Read(s[0] - 0x80 + 0x80 * r.value, r.used + 1))
  }

  /** Ten bytes hold 64 bits; higher bits are discarded. */
  function ReadVarint64(s: bytes): (r: Option<Read<uint64>>)
    ensures r.Some? ==> 0 < r.value.used <= |s|
  {
    match DecodeVarint(s, 10)
    case None => None
    case Some(r) => Some(Read(r.value % 0x1_0000_0000_0000_0000, r.used))
  }

  function ReadVarint32(s: bytes): (r: Option<Read<uint32>>)
    ensures r.Some? ==> 0 < r.value.used <= |s|
  {
    match DecodeVarint(s, 10)
    case None => None
    case Some(r) => Some(Read(r.value % 0x1_0000_0000, r.used))
  }

  lemma {:induction false} VarintSizeIsLength(v: nat)
    ensures |EncodeVarint(v)| == VarintSize(v)
  {
    if v >= 0x80 {
      VarintSizeIsLength(v / 0x80);
    }
  }

  lemma {:induction false} DecodeOfEncode(v: nat, rest: bytes, limit: nat)
    requires VarintSize(v) <= limit
    ensures DecodeVarint(EncodeVarint(v) + rest, limit) == Some(Read(v, VarintSize(v)))
  {
    var s := EncodeVarint(v) + rest;
    if v >= 0x80 {
      assert s[1..] == EncodeVarint(v / 0x80) + rest;
      DecodeOfEncode(v / 0x80, rest, limit - 1);
    }
  }

  /** 128 to the power `k`. */
  function Power128(k: nat): nat {
    if k == 0 then 1 else 0x80 * Power128(k - 1)
  }

  lemma {:induction false} VarintSizeBound(v: nat, k: nat)
    requires k > 0 && v < Power128(k)
    ensures VarintSize(v) <= k
  {
    if v >= 0x80 {
      VarintSizeBound(v / 0x80, k - 1);
    }
  }

  lemma {:induction false} VarintSizeLowerBound(v: nat, k: nat)
    requires v >= Power128(k)
    ensures VarintSize(v) > k
  {
    if k > 0 {
      assert v >= 0x80 by {
        PowerPositive(k - 1);
      }
      VarintSizeLowerBound(v / 0x80, k - 1);
    }
  }

  lemma {:induction false} PowerPositive(k: nat)
    ensures Power128(k) >= 1
  {
    if k > 0 {
      PowerPositive(k - 1);
    }
  }

  lemma Powers()
    ensures Power128(9) == 0x8000_0000_0000_0000
    ensures Power128(10) == 0x8000_0000_0000_0000 * 0x80
  {
    assert Power128(1) == 0x80;
    assert Power128(3) == 0x20_0000;
    assert Power128(5) == 0x8_0000_0000;
    assert Power128(7) == 0x2_0000_0000_0000;
  }

  lemma Varint64Size(v: uint64)
    ensures 1 <= VarintSize(v) <= 10
    ensures v >= 0x8000_0000_0000_0000 ==> VarintSize(v) == 10
  {
    Powers();
    VarintSizeBound(v, 10);
    if v >= 0x8000_0000_0000_0000 {
      VarintSizeLowerBound(v, 9);
    }
  }

  lemma ReadVarint64OfEncode(v: uint64, rest: bytes)
    ensures ReadVarint64(EncodeVarint(v) + rest) == Some(Read(v, |EncodeVarint(v)|))
    ensures ReadVarint32(EncodeVarint(v) + rest) == Some(Read(v % 0x1_0000_0000, |EncodeVarint(v)|))
  {
    hide EncodeVarint, DecodeVarint, VarintSize;
    Varint64Size(v);
    VarintSizeIsLength(v);
    DecodeOfEncode(v, rest, 10);
  }

  // ---------------------------------------------------------------------------------------------
  // Integer fields
  // ---------------------------------------------------------------------------------------------

  function Int64Size(v: int64): nat {
    VarintSize(ToUint64(v))
  }

  /** A negative int32 is sign-extended to 64 bits, so it takes ten bytes. */
  function Int32Size(v: int32): nat {
    if v < 0 then 10 else VarintSize(v)
  }

  function StringSize(s: bytes): nat {
    VarintSize(|s|) + |s|
  }

  lemma Int32SizeIsInt64Size(v: int32)
    ensures Int32Size(v) == Int64Size(v)
  {
    Varint64Size(ToUint64(v));
  }

  /** `static_cast<int32>` of the low 32 bits undoes the sign extension. */
  lemma Int32OfSignExtension(v: int32)
    ensures ToInt32(ToUint64(v) % 0x1_0000_0000) == v
  {
  }

  // ---------------------------------------------------------------------------------------------
  // Strings
  // ---------------------------------------------------------------------------------------------

  function EncodeString(s: bytes): bytes {
    EncodeVarint(|s|) + s
  }

  /** A length of 2^31 or more is negative as an `int` and refused, as is one beyond the input. */
  function ReadString(s: bytes): (r: Option<Read<bytes>>)
    ensures r.Some? ==> 0 < r.value.used <= |s|
  {
    match ReadVarint32(s)
    case None => None
    case Some(n) =>
      if n.value >= 0x8000_0000 || n.value > |s| - n.used then None
      else Some(Read(s[n.used..n.used + n.value], n.used + n.value))
  }

  lemma ReadStringOfEncode(t: bytes, rest: bytes)
    requires |t| < 0x8000_0000
    ensures ReadString(EncodeString(t) + rest) == Some(Read(t, |EncodeString(t)|))
  {
    hide EncodeVarint, ReadVarint32, ReadString;
    var head := EncodeVarint(|t|);
    InTheMiddle(head, t, rest);
    ReadVarint64OfEncode(|t|, t + rest);
    StringBehindLength(head + (t + rest), Read(|t|, |head|));
  }

  lemma StringBehindLength(s: bytes, n: Read<uint32>)
    requires ReadVarint32(s) == Some(n) && n.value < 0x8000_0000 && n.used + n.value <= |s|
    ensures ReadString(s) == Some(Read(s[n.used..n.used + n.value], n.used + n.value))
  {
    hide ReadVarint32;
  }

  lemma InTheMiddle(head: bytes, t: bytes, rest: bytes)
    ensures head + t + rest == head + (t + rest)
    ensures (head + (t + rest))[|head|..|head| + |t|] == t
  {
  }

  // ---------------------------------------------------------------------------------------------
  // Skipping
  // ---------------------------------------------------------------------------------------------

  /** Protocol Buffers refuses groups nested deeper than this. */
  const RECURSION_LIMIT: nat := 100

  function SkipBytes(s: bytes, n: nat): Option<nat> {
    if n <= |s| then Some(n) else None
  }

  /** The bytes taken by the value of an unknown field whose tag has been read, or an error. */
  function SkipField(s: bytes, tag: uint32, depth: nat): (r: Option<nat>)
    ensures r.Some? ==> r.value <= |s|
    decreases |s|, 1
  {
    if tag / 8 == 0 then None
    else match tag % 8
      case 0 =>
        (match ReadVarint64(s)
         case None => None
         case Some(v) => Some(v.used))
      case 1 => SkipBytes(s, 8)
      case 2 =>
        (match ReadString(s)
         case None => None
         case Some(t) => Some(t.used))
      case 3 => if depth == 0 then None else SkipGroup(s, tag / 8, depth - 1)
      case 5 => SkipBytes(s, 4)
      case _ => None
  }

  /** Fields up to the end-group tag that carries the same number. */
  function SkipGroup(s: bytes, number: nat, depth: nat): (r: Option<nat>)
    ensures r.Some? ==> r.value <= |s|
    decreases |s|, 0
  {
    match ReadVarint32(s)
    case None => None
    case Some(tag) =>
      if tag.value == 0 then None
      else if tag.value % 8 == 4 then (if tag.value / 8 == number then Some(tag.used) else None)
      else
        var rest := s[tag.used..];
        match SkipField(rest, tag.value, depth)
        case None => None
        case Some(n) =>
          match SkipGroup(rest[n..], number, depth)
          case None => None
          case Some(m) => Some(tag.used + n + m)
  }

  // ---------------------------------------------------------------------------------------------
  // What a read took does not depend on what follows
  // ---------------------------------------------------------------------------------------------

  lemma {:induction false} DecodeIgnoresRest(s: bytes, rest: bytes, limit: nat)
    requires DecodeVarint(s, limit).Some?
    ensures DecodeVarint(s + rest, limit) == DecodeVarint(s, limit)
    decreases limit
  {
    assert s != [] && (s + rest)[0] == s[0] && (s + rest)[1..] == s[1..] + rest;
    if s[0] >= 0x80 {
      DecodeIgnoresRest(s[1..], rest, limit - 1);
    }
  }

  lemma ReadsIgnoreRest(s: bytes, rest: bytes)
    ensures ReadVarint64(s).Some? ==> ReadVarint64(s + rest) == ReadVarint64(s)
    ensures ReadVarint32(s).Some? ==> ReadVarint32(s + rest) == ReadVarint32(s)
    ensures ReadString(s).Some? ==> ReadString(s + rest) == ReadString(s)
  {
    hide DecodeVarint;
    if DecodeVarint(s, 10).Some? {
      DecodeIgnoresRest(s, rest, 10);
    }
    if ReadString(s).Some? {
      var n := ReadVarint32(s).value;
      assert (s + rest)[n.used..n.used + n.value] == s[n.used..n.used + n.value];
    }
  }

  lemma {:induction false} SkipIgnoresRest(s: bytes, rest: bytes, tag: uint32, depth: nat)
    requires SkipField(s, tag, depth).Some?
    ensures SkipField(s + rest, tag, depth) == SkipField(s, tag, depth)
    decreases |s|, 1
  {
    hide ReadVarint64, ReadVarint32, ReadString, SkipGroup;
    ReadsIgnoreRest(s, rest);
    if tag % 8 == 3 {
      SkipGroupIgnoresRest(s, rest, tag / 8, depth - 1);
    }
  }

  /** A skipped group is an end tag, or a field and then the rest of the group. */
  lemma SkipGroupParts(s: bytes, number: nat, depth: nat)
    requires SkipGroup(s, number, depth).Some?
    ensures ReadVarint32(s).Some?
    ensures var tag := ReadVarint32(s).value;
      tag.value != 0 && (tag.value % 8 != 4 ==> SkipField(s[tag.used..], tag.value, depth).Some?)
  {
    hide ReadVarint32, SkipField;
  }

  lemma SkipGroupAtEnd(s: bytes, number: nat, depth: nat, tag: Read<uint32>)
    requires ReadVarint32(s) == Some(tag) && tag.value != 0 && tag.value % 8 == 4
    ensures SkipGroup(s, number, depth) == if tag.value / 8 == number then Some(tag.used) else None
  {
    hide ReadVarint32, SkipField;
  }

  lemma SkipGroupPastField(s: bytes, number: nat, depth: nat, tag: Read<uint32>, n: nat)
    requires ReadVarint32(s) == Some(tag) && tag.value != 0 && tag.value % 8 != 4
    requires SkipField(s[tag.used..], tag.value, depth) == Some(n)
    ensures n <= |s| - tag.used
    ensures var m := SkipGroup(s[tag.used..][n..], number, depth);
      SkipGroup(s, number, depth) == if m.Some? then Some(tag.used + n + m.value) else None
  {
    hide ReadVarint32, SkipField;
  }

  lemma {:induction false} SkipGroupIgnoresRest(s: bytes, rest: bytes, number: nat, depth: nat)
    requires SkipGroup(s, number, depth).Some?
    ensures SkipGroup(s + rest, number, depth) == SkipGroup(s, number, depth)
    decreases |s|, 0
  {
    hide ReadVarint64, ReadVarint32, ReadString, SkipField, SkipGroup;
    SkipGroupParts(s, number, depth);
    ReadsIgnoreRest(s, rest);
    var tag := ReadVarint32(s).value;
    if tag.value % 8 == 4 {
      SkipGroupAtEnd(s, number, depth, tag);
      SkipGroupAtEnd(s + rest, number, depth, tag);
    } else {
      var body := s[tag.used..];
      assert (s + rest)[tag.used..] == body + rest;
      SkipIgnoresRest(body, rest, tag.value, depth);
      var n := SkipField(body, tag.value, depth).value;
      SkipGroupPastField(s, number, depth, tag, n);
      SkipGroupPastField(s + rest, number, depth, tag, n);
      assert (body + rest)[n..] == body[n..] + rest;
      SkipGroupIgnoresRest(body[n..], rest, number, depth);
    }
  }

  // ---------------------------------------------------------------------------------------------
  // What arbitrary bytes are read as
  // ---------------------------------------------------------------------------------------------

  /** The first byte without the continuation bit is byte `k`, within the limit. */
  predicate EndsAt(s: bytes, limit: nat, k: nat) {
    k < limit && k < |s| && s[k] < 0x80 && forall i :: 0 <= i < k ==> s[i] >= 0x80
  }

  /** The low seven bits of bytes 0 to `k`, byte `i` counting 128 to the power `i`. */
  function Groups(s: bytes, k: nat): nat
    requires k < |s|
  {
    (s[k] % 0x80) * Power128(k) + if k == 0 then 0 else Groups(s, k - 1)
  }

  lemma {:induction false} GroupsFromFirst(s: bytes, k: nat)
    requires 0 < k < |s|
    ensures Groups(s, k) == s[0] % 0x80 + 0x80 * Groups(s[1..], k - 1)
  {
    var g := s[k] % 0x80;
    assert g * (0x80 * Power128(k - 1)) == 0x80 * (g * Power128(k - 1));
    if k > 1 {
      GroupsFromFirst(s, k - 1);
    } else {
      assert Power128(0) == 1 && (s[0] % 0x80) * 1 == s[0] % 0x80;
    }
  }

  lemma {:induction false} DecodeVarintIs(s: bytes, limit: nat, k: nat)
    requires EndsAt(s, limit, k)
    ensures DecodeVarint(s, limit) == Some(Read(Groups(s, k), k + 1))
    decreases limit
  {
    hide Groups;
    if k == 0 {
      GroupsOfOne(s);
    } else {
      DecodeVarintIs(s[1..], limit - 1, k - 1);
      GroupsFromFirst(s, k);
    }
  }

  lemma GroupsOfOne(s: bytes)
    requires |s| > 0 && s[0] < 0x80
    ensures Groups(s, 0) == s[0]
  {
    assert Power128(0) == 1;
  }

  lemma {:induction false} DecodedEnds(s: bytes, limit: nat) returns (k: nat)
    requires DecodeVarint(s, limit).Some?
    ensures EndsAt(s, limit, k)
    decreases limit
  {
    k := 0;
    if s[0] >= 0x80 {
      var j := DecodedEnds(s[1..], limit - 1);
      k := j + 1;
      assert forall i :: 0 < i < k ==> s[i] == s[1..][i - 1];
    }
  }

  /** Varints need not be the shortest: any that ends within ten bytes is read, by its groups of seven bits. */
  lemma ReadVarintIs(s: bytes, k: nat)
    requires EndsAt(s, 10, k)
    ensures ReadVarint64(s) == Some(Read(Groups(s, k) % 0x1_0000_0000_0000_0000, k + 1))
    ensures ReadVarint32(s) == Some(Read(Groups(s, k) % 0x1_0000_0000, k + 1))
    ensures
      var n := Groups(s, k) % 0x1_0000_0000;
      ReadString(s) ==
        if n < 0x8000_0000 && k + 1 + n <= |s| then Some(Read(s[k + 1..k + 1 + n], k + 1 + n)) else None
  {
    hide Groups, DecodeVarint;
    DecodeVarintIs(s, 10, k);
  }

  lemma ReadVarintFails(s: bytes)
    ensures (forall k :: !EndsAt(s, 10, k)) ==>
      ReadVarint64(s) == None && ReadVarint32(s) == None && ReadString(s) == None
  {
    hide EndsAt, DecodeVarint;
    if DecodeVarint(s, 10).Some? {
      var k := DecodedEnds(s, 10);
    }
  }
}
