/**
 The wire form of query.proto as bytes, and what a parser of it takes and refuses: declared fields, fields it does
 not know, truncated and malformed ones, and incomplete messages.
 */
module WireFormat {
  import opened Bytes
  import opened Wrappers
  import opened Wire
  import opened Messages

  // ---------------------------------------------------------------------------------------------
  // What is written
  // ---------------------------------------------------------------------------------------------

  /** A negative integer is written as its 64-bit two's complement. */
  function IntBytes(value: Option<int64>): bytes {
    if value.None? then []
    else [8] + EncodeVarint(if value.value < 0 then value.value + 0x1_0000_0000_0000_0000 else value.value)
  }

  function TextBytes(tag: byte, text: Option<bytes>): bytes {
    if text.Some? then [tag] + EncodeVarint(|text.value|) + text.value else []
  }

  function TextsBytes(tag: byte, texts: seq<bytes>): bytes {
    if texts == [] then [] else [tag] + EncodeVarint(|texts[0]|) + texts[0] + TextsBytes(tag, texts[1..])
  }

  /** A varint's last byte is not zero, unless it is the only one: there is no shorter encoding. */
  lemma {:induction false} VarintIsShortest(v: nat)
    ensures var s := EncodeVarint(v);
      && EndsAt(s, |s|, |s| - 1) && Groups(s, |s| - 1) == v
      && (|s| > 1 ==> s[|s| - 1] != 0)
  {
    hide Groups;
    if v < 0x80 {
      GroupsOfOne([v]);
    } else {
      var t := EncodeVarint(v / 0x80);
      VarintIsShortest(v / 0x80);
      assert |t| == 1 ==> t[0] != 0;
      OneMoreGroup(v, EncodeVarint(v), t);
    }
  }

  lemma OneMoreGroup(v: nat, s: bytes, t: bytes)
    requires v >= 0x80 && t != [] && s == [v % 0x80 + 0x80] + t
    requires EndsAt(t, |t|, |t| - 1) && Groups(t, |t| - 1) == v / 0x80
    ensures EndsAt(s, |s|, |s| - 1) && Groups(s, |s| - 1) == v
  {
    hide Groups, EndsAt;
    assert s[1..] == t && |s| - 1 == |t|;
    EndsOneLater(s, t);
    GroupsFromFirst(s, |s| - 1);
    LowGroup(v);
  }

  lemma LowGroup(v: nat)
    ensures (v % 0x80 + 0x80) % 0x80 + 0x80 * (v / 0x80) == v
  {
  }

  lemma EndsOneLater(s: bytes, t: bytes)
    requires t != [] && |s| == |t| + 1 && s[1..] == t && s[0] >= 0x80 && EndsAt(t, |t|, |t| - 1)
    ensures EndsAt(s, |s|, |s| - 1)
  {
    assert forall i :: 0 < i < |s| ==> s[i] == t[i - 1];
  }

  lemma SmallTags(tag: byte)
    requires tag < 0x80
    ensures EncodeVarint(tag) == [tag]
  {
  }

  lemma TextFieldBytes(f: Field, tag: byte)
    requires f.Text? && f.number * 8 + 2 == tag < 0x80
    ensures EncodeField(f) == [tag] + EncodeVarint(|f.text|) + f.text
  {
    hide EncodeVarint;
    SmallTags(tag);
    assert EncodeField(f) == [tag] + (EncodeVarint(|f.text|) + f.text);
  }

  lemma {:induction false} RepeatedBytes(number: nat, texts: seq<bytes>)
    requires 0 < number < 16
    ensures EncodeFields(RepeatedFields(number, texts)) == TextsBytes(number * 8 + 2, texts)
  {
    hide EncodeVarint, EncodeField;
    if texts == [] {
      NoFields();
    } else {
      assert RepeatedFields(number, texts)[1..] == RepeatedFields(number, texts[1..]);
      RepeatedBytes(number, texts[1..]);
      TextFieldBytes(Field.Text(number, texts[0]), number * 8 + 2);
    }
  }

  lemma SingularBytes(number: nat, value: Option<int64>, text: Option<bytes>)
    requires 0 < number < 16
    ensures EncodeFields(IntFields(1, value)) == IntBytes(value)
    ensures EncodeFields(TextFields(number, text)) == TextBytes(number * 8 + 2, text)
  {
    hide EncodeVarint;
    SmallTags(8);
    SmallTags(number * 8 + 2);
    NoFields();
    if value.Some? {
      OneField(Field.Int(1, value.value));
    }
    if text.Some? {
      OneField(Field.Text(number, text.value));
      TextFieldBytes(Field.Text(number, text.value), number * 8 + 2);
    }
  }

  lemma OneField(f: Field)
    ensures EncodeFields([f]) == EncodeField(f)
  {
    hide EncodeField;
    assert [f][1..] == [];
    NoFields();
    assert EncodeField(f) + [] == EncodeField(f);
  }

  /** The bytes of each kind of message, fields in the order of their numbers. */
  lemma SerializeIs(m: Message)
    ensures m.Query? ==> Serialize(m) == IntBytes(m.id) + TextBytes(18, m.questioner) + TextsBytes(26, m.question)
    ensures m.Answer? ==>
      Serialize(m)
        == IntBytes(m.id) + TextBytes(18, m.questioner) + TextBytes(26, m.answerer) + TextsBytes(34, m.solution)
    ensures m.Empty? ==> Serialize(m) == IntBytes(if m.number.Some? then Some(m.number.value) else None)
  {
    hide EncodeFields, IntBytes, TextBytes, TextsBytes, RepeatedFields;
    match m
    case Query(id, questioner, question) =>
      SingularBytes(2, id, questioner);
      RepeatedBytes(3, question);
      EncodeFieldsAppend(IntFields(1, id), TextFields(2, questioner));
      EncodeFieldsAppend(IntFields(1, id) + TextFields(2, questioner), RepeatedFields(3, question));
    case Answer(id, questioner, answerer, solution) =>
      var a, b, c := IntFields(1, id), TextFields(2, questioner), TextFields(3, answerer);
      SingularBytes(2, id, questioner);
      SingularBytes(3, id, answerer);
      RepeatedBytes(4, solution);
      EncodeFieldsAppend(a, b);
      EncodeFieldsAppend(a + b, c);
      EncodeFieldsAppend(a + b + c, RepeatedFields(4, solution));
    case Empty(number) => SingularBytes(2, Widen(number), None);
  }

  // ---------------------------------------------------------------------------------------------
  // Fields a message does not know
  // ---------------------------------------------------------------------------------------------

  /** A field of any wire type; groups hold fields of their own. */
  datatype Unknown =
    | Varint(number: nat, value: uint64)
    | Fixed64(number: nat, data: bytes)
    | Delimited(number: nat, data: bytes)
    | Group(number: nat, fields: Unknowns)
    | Fixed32(number: nat, data: bytes)

  datatype Unknowns = Nil | Cons(head: Unknown, tail: Unknowns)

  predicate WellFormed(u: Unknown) {
    && 1 <= u.number < 0x2000_0000
    && match u
       case Varint(_, _) => true
       case Fixed64(_, data) => |data| == 8
       case Delimited(_, data) => |data| < 0x8000_0000
       case Group(_, fields) => AllWellFormed(fields)
       case Fixed32(_, data) => |data| == 4
  }

  predicate AllWellFormed(fields: Unknowns) {
    fields.Cons? ==> WellFormed(fields.head) && AllWellFormed(fields.tail)
  }

  function TagOf(u: Unknown): nat {
    u.number * 8 +
    match u
    case Varint(_, _) => 0
    case Fixed64(_, _) => 1
    case Delimited(_, _) => 2
    case Group(_, _) => 3
    case Fixed32(_, _) => 5
  }

  function ValueBytes(u: Unknown): bytes {
    match u
    case Varint(_, value) => EncodeVarint(value)
    case Fixed64(_, data) => data
    case Delimited(_, data) => EncodeVarint(|data|) + data
    case Group(number, fields) => AllBytes(fields) + EncodeVarint(number * 8 + 4)
    case Fixed32(_, data) => data
  }

  function AllBytes(fields: Unknowns): bytes {
    match fields
    case Nil => []
    case Cons(u, tail) => EncodeVarint(TagOf(u)) + ValueBytes(u) + AllBytes(tail)
  }

  /** How deep groups are nested. */
  function Depth(u: Unknown): nat {
    if u.Group? then 1 + AllDepth(u.fields) else 0
  }

  function AllDepth(fields: Unknowns): nat {
    match fields
    case Nil => 0
    case Cons(u, tail) => if Depth(u) > AllDepth(tail) then Depth(u) else AllDepth(tail)
  }

  lemma TagReads(tag: uint32, rest: bytes)
    ensures ReadVarint32(EncodeVarint(tag) + rest) == Some(Read(tag, |EncodeVarint(tag)|))
  {
    hide ReadVarint32, EncodeVarint;
    ReadVarint64OfEncode(tag, rest);
  }

  /** A field of any wire type is skipped as a whole, whatever follows, unless its groups nest too deep. */
  lemma {:induction false} SkipUnknown(u: Unknown, rest: bytes, depth: nat)
    requires WellFormed(u)
    ensures SkipField(ValueBytes(u) + rest, TagOf(u), depth)
      == if Depth(u) <= depth then Some(|ValueBytes(u)|) else None
    decreases u
  {
    hide EncodeVarint, ReadVarint64, ReadString, SkipGroup;
    match u
    case Varint(_, value) => ReadVarint64OfEncode(value, rest);
    case Delimited(_, data) => ReadStringOfEncode(data, rest);
    case Group(number, fields) =>
      if depth > 0 {
        SkipUnknowns(fields, number, rest, depth - 1);
        assert ValueBytes(u) + rest == AllBytes(fields) + (EncodeVarint(number * 8 + 4) + rest);
      }
    case _ =>
  }

  lemma {:induction false} SkipUnknowns(fields: Unknowns, number: nat, rest: bytes, depth: nat)
    requires AllWellFormed(fields) && 1 <= number < 0x2000_0000
    ensures SkipGroup(AllBytes(fields) + (EncodeVarint(number * 8 + 4) + rest), number, depth)
      == if AllDepth(fields) <= depth then Some(|AllBytes(fields)| + |EncodeVarint(number * 8 + 4)|) else None
    decreases fields
  {
    hide EncodeVarint, ReadVarint32, SkipField, SkipGroup;
    var end := EncodeVarint(number * 8 + 4);
    if fields.Nil? {
      TagReads(number * 8 + 4, rest);
      assert AllBytes(fields) + (end + rest) == end + rest;
      SkipGroupAtEnd(end + rest, number, depth, Read(number * 8 + 4, |end|));
    } else {
      var u, tail := fields.head, AllBytes(fields.tail) + (end + rest);
      var tag, value := EncodeVarint(TagOf(u)), ValueBytes(u);
      var s := AllBytes(fields) + (end + rest);
      TagOfIsATag(u);
      TagReads(TagOf(u), value + tail);
      Regroup(tag, value, AllBytes(fields.tail), end + rest);
      assert s == tag + (value + tail) && s[|tag|..] == value + tail;
      assert (value + tail)[|value|..] == tail;
      SkipUnknown(u, tail, depth);
      SkipUnknowns(fields.tail, number, rest, depth);
      if Depth(u) <= depth {
        SkipGroupPastField(s, number, depth, Read(TagOf(u), |tag|), |value|);
      } else {
        SkipGroupStuck(s, number, depth, Read(TagOf(u), |tag|));
      }
    }
  }

  lemma Regroup(a: bytes, b: bytes, c: bytes, d: bytes)
    ensures a + b + c + d == a + (b + (c + d))
  {
  }

  lemma TagOfIsATag(u: Unknown)
    requires WellFormed(u)
    ensures 8 <= TagOf(u) < 0x1_0000_0000 && TagOf(u) % 8 != 4
  {
  }

  lemma SkipGroupStuck(s: bytes, number: nat, depth: nat, tag: Read<uint32>)
    requires ReadVarint32(s) == Some(tag) && tag.value != 0 && tag.value % 8 != 4
    requires SkipField(s[tag.used..], tag.value, depth) == None
    ensures SkipGroup(s, number, depth) == None
  {
    hide ReadVarint32, SkipField;
  }

  /** The tags query.proto declares for a message: field numbers 1 to 4, varint or length-delimited. */
  predicate Declared(kind: Kind, tag: nat) {
    match kind
    case QueryKind => tag == 8 || tag == 18 || tag == 26
    case AnswerKind => tag == 8 || tag == 18 || tag == 26 || tag == 34
    case EmptyKind => tag == 8
  }

  /** A field that is not declared changes nothing if its groups nest at most 100 deep, and is an error otherwise. */
  lemma UnknownFieldIsSkipped(m: Message, u: Unknown, rest: bytes)
    requires WellFormed(u) && !Declared(m.Kind(), TagOf(u))
    ensures ParseLoop(m, EncodeVarint(TagOf(u)) + ValueBytes(u) + rest)
      == if Depth(u) <= 100 then ParseLoop(m, rest) else Failed
  {
    hide EncodeVarint, ReadVarint32, SkipField, ParseLoop, ValueBytes;
    var tag, value := EncodeVarint(TagOf(u)), ValueBytes(u);
    var s := tag + value + rest;
    TagOfIsATag(u);
    assert s == tag + (value + rest) && s[|tag|..] == value + rest;
    TagReads(TagOf(u), value + rest);
    SkipUnknown(u, rest, RECURSION_LIMIT);
    if Depth(u) <= 100 {
      assert ParseField(m, TagOf(u), s[|tag|..]) == Some(Read(m, |value|));
      ParseLoopStep(m, s, Read(TagOf(u), |tag|), Read(m, |value|));
      assert s[|tag| + |value|..] == rest;
    } else {
      ParseLoopFails(m, s, Read(TagOf(u), |tag|));
    }
  }

  lemma ParseLoopFails(m: Message, s: bytes, tag: Read<uint32>)
    requires ReadVarint32(s) == Some(tag) && tag.value != 0
    requires ParseField(m, tag.value, s[tag.used..]) == None
    ensures ParseLoop(m, s) == Failed
  {
    hide ReadVarint32, ParseField;
  }

  /** Wire types 4, 6 and 7 and field number 0 are errors. */
  lemma MalformedTagIsRefused(m: Message, tag: uint32, rest: bytes)
    requires tag != 0 && (tag < 8 || tag % 8 == 4 || tag % 8 == 6 || tag % 8 == 7)
    ensures ParseLoop(m, EncodeVarint(tag) + rest) == Failed
  {
    hide EncodeVarint, ReadVarint32, ParseLoop;
    TagReads(tag, rest);
    var s, head := EncodeVarint(tag) + rest, EncodeVarint(tag);
    assert s[|head|..] == rest;
    ParseLoopFails(m, s, Read(tag, |head|));
  }

  /** An `Empty` takes the low 32 bits of any varint. */
  lemma EmptyTakesLowBits(number: Option<int32>, v: uint64, rest: bytes)
    ensures
      var low := v % 0x1_0000_0000;
      ParseLoop(Empty(number), [8] + EncodeVarint(v) + rest)
        == ParseLoop(Empty(Some(if low < 0x8000_0000 then low else low - 0x1_0000_0000)), rest)
  {
    hide EncodeVarint, ReadVarint32, ReadVarint64, ParseLoop;
    var value := EncodeVarint(v);
    var s := [8] + value + rest;
    SmallTags(8);
    assert s == [8] + (value + rest) && s[1..] == value + rest;
    TagReads(8, value + rest);
    ReadVarint64OfEncode(v, rest);
    var n := Empty(Some(ToInt32(v % 0x1_0000_0000)));
    assert ParseField(Empty(number), 8, s[1..]) == Some(Read(n, |value|));
    ParseLoopStep(Empty(number), s, Read(8, 1), Read(n, |value|));
    assert s[1 + |value|..] == rest;
  }

  // ---------------------------------------------------------------------------------------------
  // What is refused
  // ---------------------------------------------------------------------------------------------

  /** The required fields of query.proto. */
  predicate HasRequired(m: Message) {
    match m
    case Query(id, questioner, _) => id != None && questioner != None
    case Answer(id, questioner, answerer, _) => id != None && questioner != None && answerer != None
    case Empty(_) => true
  }

  /** A payload is accepted exactly if its fields reach to its very end and every required one is among them. */
  lemma AcceptedExactly(kind: Kind, s: bytes, m: Message)
    ensures ParseFromArray(kind, s) == Some(m) <==> ParseLoop(Fresh(kind), s) == Stopped(m, true) && HasRequired(m)
    ensures ParseFromArray(kind, s) == None
      <==> forall a :: ParseLoop(Fresh(kind), s) == Stopped(a, true) ==> !HasRequired(a)
  {
    hide ParseLoop;
  }

  /** A message's own bytes are accepted as that message, or refused for lack of a required field. */
  lemma SerializedIsAcceptedIff(m: Message)
    requires Readable(m)
    ensures ParseFromArray(m.Kind(), Serialize(m)) == if HasRequired(m) then Some(m) else None
  {
    hide ParseFromArray, Serialize;
    PayloadRoundTrip(m);
  }

  /** A zero tag ends the loop before the end of the input, so the payload is refused whatever came before. */
  lemma ZeroTagIsRefused(kind: Kind, s: bytes, a: Message, rest: bytes)
    requires ParseLoop(Fresh(kind), s) == Stopped(a, true)
    ensures ParseFromArray(kind, s + [0] + rest) == None
  {
    hide Merge, ReadVarint32;
    assert s + [0] + rest == s + ([0] + rest);
    AcceptedIsMerged(Fresh(kind), s, a, [0] + rest);
    SmallTags(0);
    TagReads(0, rest);
  }

  /** No part of a declared field is taken for the end of the input. */
  lemma TruncatedFieldIsRefused(m: Message, f: Field, p: bytes)
    requires Accepts(m.Kind(), f) && p != [] && p < EncodeField(f)
    ensures ParseLoop(m, p) == Failed
  {
    hide EncodeVarint, ReadVarint32, ParseLoop, EncodeValue, ParseField;
    KnownTagsAreSmall(m.Kind(), f);
    SmallTags(FieldTag(f));
    var value := EncodeValue(f);
    var part, missing := p[1..], value[|p| - 1..];
    assert EncodeField(f) == [FieldTag(f)] + value && p == [FieldTag(f)] + part && part == value[..|p| - 1];
    TagReads(FieldTag(f), part);
    TruncatedValue(m, f, part);
    ParseLoopFails(m, p, Read(FieldTag(f), 1));
  }

  lemma TruncatedValue(m: Message, f: Field, part: bytes)
    requires Accepts(m.Kind(), f) && part < EncodeValue(f)
    ensures ParseField(m, FieldTag(f), part) == None
  {
    hide EncodeVarint, ReadVarint64, ReadString;
    match f
    case Int(_, v) => TruncatedVarint(ToUint64(v), part);
    case Text(_, text) => TruncatedString(text, part);
  }

  lemma TruncatedVarint(v: uint64, part: bytes)
    requires part < EncodeVarint(v)
    ensures ReadVarint64(part) == None
  {
    hide EncodeVarint, ReadVarint64;
    var missing := EncodeVarint(v)[|part|..];
    assert part + missing == EncodeVarint(v) && EncodeVarint(v) + [] == EncodeVarint(v);
    ReadsIgnoreRest(part, missing);
    ReadVarint64OfEncode(v, []);
  }

  lemma TruncatedString(text: bytes, part: bytes)
    requires |text| < 0x8000_0000 && part < EncodeString(text)
    ensures ReadString(part) == None
  {
    hide EncodeString, ReadString;
    var missing := EncodeString(text)[|part|..];
    assert part + missing == EncodeString(text) && EncodeString(text) + [] == EncodeString(text);
    ReadsIgnoreRest(part, missing);
    ReadStringOfEncode(text, []);
  }
}
