/**
 The values of the three message types of query.proto, their wire form, and what the parse loop makes
 of arbitrary bytes. Has-bits are the `Some`s.
 */
module Messages {
  import opened Bytes
  import opened Wrappers
  import opened Wire

  datatype Kind = QueryKind | AnswerKind | EmptyKind

  datatype Message =
    | Query(id: Option<int64>, questioner: Option<bytes>, question: seq<bytes>)
    | Answer(id: Option<int64>, questioner: Option<bytes>, answerer: Option<bytes>, solution: seq<bytes>)
    | Empty(number: Option<int32>)
  {
    function Kind(): Kind {
      match this
      case Query(_, _, _) => QueryKind
      case Answer(_, _, _, _) => AnswerKind
      case Empty(_) => EmptyKind
    }

    /** All required fields are present. */
    predicate Initialized() {
      match this
      case Query(id, questioner, _) => id.Some? && questioner.Some?
      case Answer(id, questioner, answerer, _) => id.Some? && questioner.Some? && answerer.Some?
      case Empty(_) => true
    }
  }

  function Fresh(kind: Kind): Message {
    match kind
    case QueryKind => Query(None, None, [])
    case AnswerKind => Answer(None, None, None, [])
    case EmptyKind => Empty(None)
  }

  // ---------------------------------------------------------------------------------------------
  // Wire form
  // ---------------------------------------------------------------------------------------------

  /** A present field: a varint field or a length-delimited one. */
  datatype Field = Int(number: nat, value: int64) | Text(number: nat, text: bytes)

  function IntFields(number: nat, value: Option<int64>): seq<Field> {
    if value.Some? then [Int(number, value.value)] else []
  }

  function TextFields(number: nat, text: Option<bytes>): seq<Field> {
    if text.Some? then [Text(number, text.value)] else []
  }

  function RepeatedFields(number: nat, texts: seq<bytes>): seq<Field> {
    if texts == [] then [] else [Text(number, texts[0])] + RepeatedFields(number, texts[1..])
  }

  function Widen(number: Option<int32>): Option<int64> {
    if number.Some? then Some(number.value) else None
  }

  /** The present fields in the order they are written. */
  function Fields(m: Message): seq<Field> {
    match m
    case Query(id, questioner, question) =>
      IntFields(1, id) + TextFields(2, questioner) + RepeatedFields(3, question)
    case Answer(id, questioner, answerer, solution) =>
      IntFields(1, id) + TextFields(2, questioner) + TextFields(3, answerer) + RepeatedFields(4, solution)
    case Empty(number) => IntFields(1, Widen(number))
  }

  /** The field number and the wire type, 0 for varints and 2 for length-delimited values. */
  function FieldTag(f: Field): nat {
    f.number * 8 + if f.Int? then 0 else 2
  }

  function EncodeValue(f: Field): bytes {
    match f
    case Int(_, value) => EncodeVarint(ToUint64(value))
    case Text(_, text) => EncodeString(text)
  }

  function EncodeField(f: Field): bytes {
    EncodeVarint(FieldTag(f)) + EncodeValue(f)
  }

  function EncodeFields(fs: seq<Field>): bytes {
    if fs == [] then [] else EncodeField(fs[0]) + EncodeFields(fs[1..])
  }

  function Serialize(m: Message): bytes {
    EncodeFields(Fields(m))
  }

  lemma {:induction false} RepeatedFieldsAre(number: nat, texts: seq<bytes>)
    ensures forall f :: f in RepeatedFields(number, texts) ==> f.Text? && f.number == number && f.text in texts
  {
    if texts != [] {
      RepeatedFieldsAre(number, texts[1..]);
    }
  }

  lemma NoFields()
    ensures EncodeFields([]) == []
  {
  }

  lemma {:induction false} EncodeFieldsAppend(a: seq<Field>, b: seq<Field>)
    ensures EncodeFields(a + b) == EncodeFields(a) + EncodeFields(b)
  {
    if a == [] {
      assert a + b == b;
    } else {
      assert (a + b)[1..] == a[1..] + b;
      EncodeFieldsAppend(a[1..], b);
    }
  }

  // ---------------------------------------------------------------------------------------------
  // Parsing
  // ---------------------------------------------------------------------------------------------

  /** The tags a message's switch accepts. */
  predicate KnownTag(kind: Kind, tag: nat) {
    match kind
    case QueryKind => tag == 8 || tag == 18 || tag == 26
    case AnswerKind => tag == 8 || tag == 18 || tag == 26 || tag == 34
    case EmptyKind => tag == 8
  }

  function SetInt(m: Message, v: uint64): Message {
    match m
    case Query(_, questioner, question) => Query(Some(ToInt64(v)), questioner, question)
    case Answer(_, questioner, answerer, solution) => Answer(Some(ToInt64(v)), questioner, answerer, solution)
    case Empty(_) => Empty(Some(ToInt32(v % 0x1_0000_0000)))
  }

  /** Stores a string: singular fields keep the last one, repeated fields all of them. */
  function SetText(m: Message, tag: nat, t: bytes): Message
    requires tag != 8 && KnownTag(m.Kind(), tag)
  {
    match m
    case Query(id, questioner, question) =>
      if tag == 18 then Query(id, Some(t), question) else Query(id, questioner, question + [t])
    case Answer(id, questioner, answerer, solution) =>
      if tag == 18 then Answer(id, Some(t), answerer, solution)
      else if tag == 26 then Answer(id, questioner, Some(t), solution)
      else Answer(id, questioner, answerer, solution + [t])
  }

  /** One field after its tag: the changed message and the bytes its value took. */
  function ParseField(m: Message, tag: uint32, s: bytes): (r: Option<Read<Message>>)
    ensures r.Some? ==> r.value.used <= |s| && r.value.value.Kind() == m.Kind()
  {
    if !KnownTag(m.Kind(), tag) then
      match SkipField(s, tag, RECURSION_LIMIT)
      case None => None
      case Some(n) => Some(Read(m, n))
    else if tag == 8 then
      match ReadVarint64(s)
      case None => None
      case Some(v) => Some(Read(SetInt(m, v.value), v.used))
    else
      match ReadString(s)
      case None => None
      case Some(t) => Some(Read(SetText(m, tag, t.value), t.used))
  }

  /**
   How the tag loop ends: on a malformed field, or at a zero tag, which the reader also reports at the
   end of the input (`atEnd`) and for a malformed tag.
   */
  datatype LoopResult = Failed | Stopped(message: Message, atEnd: bool)

  function ParseLoop(m: Message, s: bytes): (r: LoopResult)
    ensures r.Stopped? ==> r.message.Kind() == m.Kind()
    decreases |s|
  {
    if s == [] then Stopped(m, true)
    else match ReadVarint32(s)
      case None => Stopped(m, false)
      case Some(tag) =>
        if tag.value == 0 then Stopped(m, false)
        else match ParseField(m, tag.value, s[tag.used..])
          case None => Failed
          case Some(r) => ParseLoop(r.value, s[tag.used + r.used..])
  }

  /** `ParseFromArray` on a new message: the whole input must be consumed and every required field set. */
  function ParseFromArray(kind: Kind, s: bytes): (r: Option<Message>)
    ensures r.Some? ==> r.value.Kind() == kind && r.value.Initialized()
  {
    match ParseLoop(Fresh(kind), s)
    case Failed => None
    case Stopped(m, atEnd) => if atEnd && m.Initialized() then Some(m) else None
  }

  // ---------------------------------------------------------------------------------------------
  // Merging
  // ---------------------------------------------------------------------------------------------

  function Last<T>(old': Option<T>, new': Option<T>): Option<T> {
    if new'.Some? then new' else old'
  }

  /** `m.MergeFrom(a)`: present singular fields overwrite, repeated fields append. */
  function Merge(m: Message, a: Message): (r: Message)
    requires m.Kind() == a.Kind()
    ensures r.Kind() == m.Kind()
  {
    match m
    case Query(_, _, _) =>
      Query(Last(m.id, a.id), Last(m.questioner, a.questioner), m.question + a.question)
    case Answer(_, _, _, _) =>
      Answer(Last(m.id, a.id), Last(m.questioner, a.questioner), Last(m.answerer, a.answerer), m.solution + a.solution)
    case Empty(_) => Empty(Last(m.number, a.number))
  }

  lemma MergeIntoFresh(a: Message)
    ensures Merge(Fresh(a.Kind()), a) == a
  {
  }

  /** Strings short enough for their length to be read back as an `int`. */
  predicate Readable(m: Message) {
    forall f :: f in Fields(m) ==> f.Text? ==> |f.text| < 0x8000_0000
  }

  /** `f` is a field this kind of message writes. */
  predicate Accepts(kind: Kind, f: Field) {
    && (f.Text? ==> |f.text| < 0x8000_0000)
    && KnownTag(kind, FieldTag(f))
    && (kind == EmptyKind ==> f.Int? && -0x8000_0000 <= f.value < 0x8000_0000)
  }

  function Apply(m: Message, f: Field): (r: Message)
    requires Accepts(m.Kind(), f)
    ensures r.Kind() == m.Kind()
  {
    match f
    case Int(_, value) => SetInt(m, ToUint64(value))
    case Text(_, text) => SetText(m, FieldTag(f), text)
  }

  function ApplyAll(m: Message, fs: seq<Field>): (r: Message)
    requires forall f :: f in fs ==> Accepts(m.Kind(), f)
    ensures r.Kind() == m.Kind()
    decreases |fs|
  {
    if fs == [] then m else ApplyAll(Apply(m, fs[0]), fs[1..])
  }

  lemma ParseEncodedValue(m: Message, f: Field, rest: bytes)
    requires Accepts(m.Kind(), f)
    ensures ParseField(m, FieldTag(f), EncodeValue(f) + rest) == Some(Read(Apply(m, f), |EncodeValue(f)|))
  {
    hide ReadString, EncodeString, ReadVarint64, EncodeVarint;
    match f
    case Int(_, value) => ReadVarint64OfEncode(ToUint64(value), rest);
    case Text(_, text) => ReadStringOfEncode(text, rest);
  }

  lemma ParseLoopStep(m: Message, s: bytes, tag: Read<uint32>, r: Read<Message>)
    requires ReadVarint32(s) == Some(tag) && tag.value != 0
    requires ParseField(m, tag.value, s[tag.used..]) == Some(r)
    ensures ParseLoop(m, s) == ParseLoop(r.value, s[tag.used + r.used..])
  {
    hide ReadVarint32, ParseField;
  }

  /** The loop undoes one encoded field and goes on with what follows. */
  lemma ParseEncodedField(m: Message, f: Field, rest: bytes)
    requires Accepts(m.Kind(), f)
    ensures ParseLoop(m, EncodeField(f) + rest) == ParseLoop(Apply(m, f), rest)
  {
    hide Apply, Accepts, EncodeValue, EncodeVarint, ReadVarint32, ParseField, ParseLoop, FieldTag;
    var s, head := EncodeField(f) + rest, EncodeVarint(FieldTag(f));
    assert s == head + (EncodeValue(f) + rest);
    KnownTagsAreSmall(m.Kind(), f);
    ReadVarint64OfEncode(FieldTag(f), EncodeValue(f) + rest);
    ParseEncodedValue(m, f, rest);
    assert s[|head|..] == EncodeValue(f) + rest;
    ParseLoopStep(m, s, Read(FieldTag(f), |head|), Read(Apply(m, f), |EncodeValue(f)|));
    assert s[|head| + |EncodeValue(f)|..] == rest;
  }

  lemma KnownTagsAreSmall(kind: Kind, f: Field)
    requires Accepts(kind, f)
    ensures 0 < FieldTag(f) < 0x80
  {
  }

  lemma {:induction false} ParseEncodedFields(m: Message, fs: seq<Field>, rest: bytes)
    requires forall f :: f in fs ==> Accepts(m.Kind(), f)
    ensures ParseLoop(m, EncodeFields(fs) + rest) == ParseLoop(ApplyAll(m, fs), rest)
    decreases |fs|
  {
    if fs == [] {
      assert EncodeFields(fs) + rest == rest;
    } else {
      assert EncodeFields(fs) + rest == EncodeField(fs[0]) + (EncodeFields(fs[1..]) + rest);
      ParseEncodedField(m, fs[0], EncodeFields(fs[1..]) + rest);
      ParseEncodedFields(Apply(m, fs[0]), fs[1..], rest);
    }
  }

  // ---------------------------------------------------------------------------------------------
  // The merge law
  // ---------------------------------------------------------------------------------------------

  lemma {:induction false} ApplyAllAppend(m: Message, a: seq<Field>, b: seq<Field>)
    requires forall f :: f in a + b ==> Accepts(m.Kind(), f)
    ensures forall f :: f in a ==> Accepts(m.Kind(), f)
    ensures forall f :: f in b ==> Accepts(m.Kind(), f)
    ensures ApplyAll(m, a + b) == ApplyAll(ApplyAll(m, a), b)
    decreases |a|
  {
    hide Apply, Accepts;
    assert forall f :: f in a ==> f in a + b;
    assert forall f :: f in b ==> f in a + b;
    if a == [] {
      assert a + b == b;
    } else {
      assert (a + b)[1..] == a[1..] + b;
      ApplyAllAppend(Apply(m, a[0]), a[1..], b);
    }
  }

  function Texts(m: Message): seq<bytes> {
    match m
    case Query(_, _, question) => question
    case Answer(_, _, _, solution) => solution
    case Empty(_) => []
  }

  function WithTexts(m: Message, texts: seq<bytes>): Message {
    match m
    case Query(id, questioner, _) => Query(id, questioner, texts)
    case Answer(id, questioner, answerer, _) => Answer(id, questioner, answerer, texts)
    case Empty(_) => m
  }

  /** The repeated field's number, for the kinds that have one. */
  function RepeatedNumber(kind: Kind): nat {
    if kind == QueryKind then 3 else 4
  }

  lemma {:induction false} ApplyRepeated(m: Message, texts: seq<bytes>)
    requires m.Kind() != EmptyKind
    requires forall t :: t in texts ==> |t| < 0x8000_0000
    ensures forall f :: f in RepeatedFields(RepeatedNumber(m.Kind()), texts) ==> Accepts(m.Kind(), f)
    ensures ApplyAll(m, RepeatedFields(RepeatedNumber(m.Kind()), texts)) == WithTexts(m, Texts(m) + texts)
    decreases |texts|
  {
    var n := RepeatedNumber(m.Kind());
    RepeatedFieldsAre(n, texts);
    if texts == [] {
      assert Texts(m) + texts == Texts(m);
    } else {
      var m1 := Apply(m, Text(n, texts[0]));
      ApplyRepeated(m1, texts[1..]);
      assert Texts(m1) + texts[1..] == Texts(m) + texts;
      assert RepeatedFields(n, texts)[1..] == RepeatedFields(n, texts[1..]);
    }
  }

  /** The fields before the repeated one. */
  function SingularFields(m: Message): seq<Field> {
    match m
    case Query(id, questioner, _) => IntFields(1, id) + TextFields(2, questioner)
    case Answer(id, questioner, answerer, _) => IntFields(1, id) + TextFields(2, questioner) + TextFields(3, answerer)
    case Empty(number) => IntFields(1, Widen(number))
  }

  lemma ApplyIntFields(m: Message, value: Option<int64>)
    requires m.Kind() == EmptyKind && value.Some? ==> -0x8000_0000 <= value.value < 0x8000_0000
    ensures forall f :: f in IntFields(1, value) ==> Accepts(m.Kind(), f)
    ensures ApplyAll(m, IntFields(1, value)) == if value.Some? then SetInt(m, ToUint64(value.value)) else m
  {
  }

  lemma ApplyTextFields(m: Message, number: nat, text: Option<bytes>)
    requires number > 1 && KnownTag(m.Kind(), number * 8 + 2)
    requires text.Some? ==> |text.value| < 0x8000_0000
    ensures forall f :: f in TextFields(number, text) ==> Accepts(m.Kind(), f)
    ensures ApplyAll(m, TextFields(number, text)) == if text.Some? then SetText(m, number * 8 + 2, text.value) else m
  {
  }

  lemma ApplySingular(m: Message, a: Message)
    requires m.Kind() == a.Kind() && Readable(a)
    ensures forall f :: f in SingularFields(a) ==> f in Fields(a) && Accepts(a.Kind(), f)
    ensures ApplyAll(m, SingularFields(a)) == WithTexts(Merge(m, a), Texts(m))
  {
    hide ApplyAll, Apply, Accepts;
    match a
    case Query(id, questioner, _) =>
      var f1, f2 := IntFields(1, id), TextFields(2, questioner);
      assert questioner.Some? ==> Text(2, questioner.value) in Fields(a);
      ApplyIntFields(m, id);
      ApplyTextFields(ApplyAll(m, f1), 2, questioner);
      ApplyAllAppend(m, f1, f2);
    case Answer(id, questioner, answerer, _) =>
      var f1, f2, f3 := IntFields(1, id), TextFields(2, questioner), TextFields(3, answerer);
      assert questioner.Some? ==> Text(2, questioner.value) in Fields(a);
      assert answerer.Some? ==> Text(3, answerer.value) in Fields(a);
      ApplyIntFields(m, id);
      ApplyTextFields(ApplyAll(m, f1), 2, questioner);
      ApplyAllAppend(m, f1, f2);
      ApplyTextFields(ApplyAll(m, f1 + f2), 3, answerer);
      ApplyAllAppend(m, f1 + f2, f3);
    case Empty(number) =>
      ApplyIntFields(m, Widen(number));
      if number.Some? {
        Int32OfSignExtension(number.value);
      }
  }

  lemma ApplyFieldsIsMerge(m: Message, a: Message)
    requires m.Kind() == a.Kind() && Readable(a)
    ensures forall f :: f in Fields(a) ==> Accepts(a.Kind(), f)
    ensures ApplyAll(m, Fields(a)) == Merge(m, a)
  {
    hide Apply, Accepts;
    ApplySingular(m, a);
    if a.Kind() != EmptyKind {
      var rep := RepeatedFields(RepeatedNumber(a.Kind()), Texts(a));
      assert Fields(a) == SingularFields(a) + rep;
      RepeatedTextsReadable(a);
      ApplyRepeated(ApplyAll(m, SingularFields(a)), Texts(a));
      ApplyAllAppend(m, SingularFields(a), rep);
    }
  }

  lemma RepeatedTextsReadable(a: Message)
    requires Readable(a) && a.Kind() != EmptyKind
    ensures forall t :: t in Texts(a) ==> |t| < 0x8000_0000
  {
    var n := RepeatedNumber(a.Kind());
    forall t | t in Texts(a) ensures |t| < 0x8000_0000 {
      TextIsAField(n, Texts(a), t);
      assert Text(n, t) in Fields(a);
    }
  }

  lemma {:induction false} TextIsAField(number: nat, texts: seq<bytes>, t: bytes)
    requires t in texts
    ensures Text(number, t) in RepeatedFields(number, texts)
  {
    if texts[0] != t {
      TextIsAField(number, texts[1..], t);
    }
  }

  /** Parsing a serialized message merges it into whatever the message held, and leaves the rest of the input. */
  lemma ParseSerialized(m: Message, a: Message, rest: bytes)
    requires m.Kind() == a.Kind() && Readable(a)
    ensures ParseLoop(m, Serialize(a) + rest) == ParseLoop(Merge(m, a), rest)
  {
    hide ParseLoop, Merge, Fields, Readable, EncodeFields, ApplyAll;
    ApplyFieldsIsMerge(m, a);
    ParseEncodedFields(m, Fields(a), rest);
  }

  /** Concatenated encodings parse to the merge of the messages. */
  lemma MergeLaw(m: Message, a: Message, b: Message)
    requires m.Kind() == a.Kind() == b.Kind() && Readable(a) && Readable(b)
    ensures ParseLoop(m, Serialize(a) + Serialize(b)) == Stopped(Merge(Merge(m, a), b), true)
  {
    hide Serialize, Merge, Readable;
    ParseSerialized(m, a, Serialize(b));
    ParseSerialized(Merge(m, a), b, []);
    assert Serialize(b) + [] == Serialize(b);
  }

  /** The payload round trip, for complete messages. */
  lemma PayloadRoundTrip(a: Message)
    requires Readable(a)
    ensures ParseFromArray(a.Kind(), Serialize(a)) == if a.Initialized() then Some(a) else None
  {
    hide Serialize, Merge, Readable;
    ParseSerialized(Fresh(a.Kind()), a, []);
    assert Serialize(a) + [] == Serialize(a);
    MergeIntoFresh(a);
  }

  // ---------------------------------------------------------------------------------------------
  // The merge law for any accepted bytes
  // ---------------------------------------------------------------------------------------------

  /** Parsing one field into a merge is merging in the message with that field. */
  lemma FieldIntoMerge(m: Message, x: Message, tag: uint32, s: bytes, rest: bytes)
    requires m.Kind() == x.Kind() && ParseField(x, tag, s).Some?
    ensures var r := ParseField(x, tag, s).value;
      ParseField(Merge(m, x), tag, s + rest) == Some(Read(Merge(m, r.value), r.used))
  {
    hide SkipField, ReadVarint64, ReadString;
    ReadsIgnoreRest(s, rest);
    if !KnownTag(x.Kind(), tag) {
      SkipIgnoresRest(s, rest, tag, RECURSION_LIMIT);
    } else if tag != 8 {
      var t := ReadString(s).value.value;
      assert Texts(m) + (Texts(x) + [t]) == Texts(m) + Texts(x) + [t];
    }
  }

  lemma {:induction false} ParseIntoMerge(m: Message, x: Message, s: bytes, y: Message, rest: bytes)
    requires m.Kind() == x.Kind() && ParseLoop(x, s) == Stopped(y, true)
    ensures y.Kind() == m.Kind() && ParseLoop(Merge(m, x), s + rest) == ParseLoop(Merge(m, y), rest)
    decreases |s|
  {
    hide ReadVarint32, ParseField, Merge;
    if s == [] {
      assert s + rest == rest;
    } else {
      var tag := ReadVarint32(s).value;
      var body := s[tag.used..];
      var r := ParseField(x, tag.value, body).value;
      ReadsIgnoreRest(s, rest);
      FieldIntoMerge(m, x, tag.value, body, rest);
      assert (s + rest)[tag.used..] == body + rest;
      ParseLoopStep(Merge(m, x), s + rest, tag, Read(Merge(m, r.value), r.used));
      assert (s + rest)[tag.used + r.used..] == s[tag.used + r.used..] + rest;
      ParseIntoMerge(m, r.value, s[tag.used + r.used..], y, rest);
    }
  }

  /**
   Bytes that a new message accepts, canonical or not and with unknown fields among them, are merged into any
   message, whatever follows them.
   */
  lemma AcceptedIsMerged(m: Message, s: bytes, a: Message, rest: bytes)
    requires ParseLoop(Fresh(m.Kind()), s) == Stopped(a, true)
    ensures a.Kind() == m.Kind() && ParseLoop(m, s + rest) == ParseLoop(Merge(m, a), rest)
  {
    hide ParseLoop;
    ParseIntoMerge(m, Fresh(m.Kind()), s, a, rest);
    FreshMergesAway(m);
  }

  lemma FreshMergesAway(m: Message)
    ensures Merge(m, Fresh(m.Kind())) == m
  {
    assert Texts(m) + [] == Texts(m);
  }

  /** The merge law of the wire format: parsing a concatenation is merging what the parts parse to. */
  lemma ConcatenationIsMerge(kind: Kind, s: bytes, a: Message, t: bytes, b: Message)
    requires ParseLoop(Fresh(kind), s) == Stopped(a, true) && ParseLoop(Fresh(kind), t) == Stopped(b, true)
    ensures a.Kind() == b.Kind() && ParseLoop(Fresh(kind), s + t) == Stopped(Merge(a, b), true)
  {
    hide Merge;
    AcceptedIsMerged(Fresh(kind), s, a, t);
    MergeIntoFresh(a);
    AcceptedIsMerged(a, t, b, []);
    assert t + [] == t;
  }
}
