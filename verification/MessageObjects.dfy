/**
 The generated message classes: fields and has-bits updated in place. Each method is proved against the
 value-level functions of `Messages`.
 */
module MessageObjects {
  import opened Bytes
  import opened Wrappers
  import opened Wire
  import opened ArrayWriter
  import M = Messages

  /** The reader the parse loops consume. */
  class CodedInputStream {
    const data: bytes
    var pos: nat
    var legitimateEnd: bool

    ghost predicate Valid()
      reads this
    {
      pos <= |data|
    }

    function Rest(): bytes
      requires Valid()
      reads this
    {
      data[pos..]
    }

    constructor (data: bytes)
      ensures Valid() && Rest() == data && !legitimateEnd
    {
      this.data := data;
      pos := 0;
      legitimateEnd := false;
    }

    /** A zero tag stands for the end of the input and for a malformed tag; only the former is legitimate. */
    method ReadTagWithCutoffNoLastTag(cutoff: uint32) returns (tag: uint32, inRange: bool)
      requires Valid()
      modifies this
      ensures Valid()
      ensures inRange == (1 <= tag <= cutoff)
      ensures legitimateEnd == (old(Rest()) == [])
      ensures tag == 0 ==>
        (old(Rest()) == [] || ReadVarint32(old(Rest())).None? || ReadVarint32(old(Rest())).value.value == 0)
      ensures tag != 0 ==>
        && ReadVarint32(old(Rest())).Some?
        && tag == ReadVarint32(old(Rest())).value.value
        && Rest() == old(Rest())[ReadVarint32(old(Rest())).value.used..]
    {
      hide ReadVarint32;
      legitimateEnd := Rest() == [];
      var r := ReadVarint32(Rest());
      if r.None? || legitimateEnd {
        tag := 0;
      } else {
        tag := r.value.value;
        pos := pos + r.value.used;
      }
      inRange := 1 <= tag <= cutoff;
    }

    method NextVarint64() returns (v: Option<uint64>)
      requires Valid()
      modifies this`pos
      ensures Valid()
      ensures match ReadVarint64(old(Rest()))
        case None => v == None
        case Some(r) => v == Some(r.value) && Rest() == old(Rest())[r.used..]
    {
      hide ReadVarint64;
      var r := ReadVarint64(Rest());
      if r.None? {
        return None;
      }
      pos := pos + r.value.used;
      return Some(r.value.value);
    }

    method NextString() returns (t: Option<bytes>)
      requires Valid()
      modifies this`pos
      ensures Valid()
      ensures match ReadString(old(Rest()))
        case None => t == None
        case Some(r) => t == Some(r.value) && Rest() == old(Rest())[r.used..]
    {
      hide ReadString;
      var r := ReadString(Rest());
      if r.None? {
        return None;
      }
      pos := pos + r.value.used;
      return Some(r.value.value);
    }

    method Skip(tag: uint32) returns (ok: bool)
      requires Valid()
      modifies this`pos
      ensures Valid()
      ensures match SkipField(old(Rest()), tag, RECURSION_LIMIT)
        case None => !ok
        case Some(n) => ok && Rest() == old(Rest())[n..]
    {
      hide SkipField;
      var n := SkipField(Rest(), tag, RECURSION_LIMIT);
      ok := n.Some?;
      if ok {
        pos := pos + n.value;
      }
    }
  }

  /** What a parse loop promises: the outcome the value-level loop gives. */
  ghost predicate Parsed(expected: M.LoopResult, ok: bool, value: M.Message, atEnd: bool) {
    match expected
    case Failed => !ok
    case Stopped(m, end) => ok && value == m && atEnd == end
  }

  /** Where `ParseLoop` stops at a tag of zero. */
  lemma LoopStopsAt(m: M.Message, s: bytes)
    requires s == [] || ReadVarint32(s).None? || ReadVarint32(s).value.value == 0
    ensures M.ParseLoop(m, s) == M.Stopped(m, s == [])
  {
    hide ReadVarint32;
  }

  /** How `ParseLoop` goes on after a tag. */
  lemma LoopStep(m: M.Message, s: bytes, tag: uint32, rest: bytes)
    requires tag != 0 && ReadVarint32(s).Some? && ReadVarint32(s).value.value == tag
    requires rest == s[ReadVarint32(s).value.used..]
    ensures |rest| < |s|
    ensures M.ParseLoop(m, s) ==
      match M.ParseField(m, tag, rest)
      case None => M.Failed
      case Some(r) => M.ParseLoop(r.value, rest[r.used..])
  {
    hide ReadVarint32, M.ParseField;
    if M.ParseField(m, tag, rest).Some? {
      var r := M.ParseField(m, tag, rest).value;
      assert s[ReadVarint32(s).value.used + r.used..] == rest[r.used..];
    }
  }

  // ---------------------------------------------------------------------------------------------
  // The serialized form, part by part
  // ---------------------------------------------------------------------------------------------

  lemma OneField(f: M.Field)
    ensures M.EncodeFields([f]) == M.EncodeField(f)
  {
    hide M.EncodeField;
    assert M.EncodeFields([f]) == M.EncodeField(f) + M.EncodeFields([]);
  }

  function OptionalInt(value: Option<int64>): bytes {
    if value.Some? then M.EncodeField(M.Int(1, value.value)) else []
  }

  function OptionalText(number: nat, text: Option<bytes>): bytes {
    if text.Some? then M.EncodeField(M.Text(number, text.value)) else []
  }

  lemma OptionalParts(value: Option<int64>, number: nat, text: Option<bytes>)
    ensures M.EncodeFields(M.IntFields(1, value)) == OptionalInt(value)
    ensures M.EncodeFields(M.TextFields(number, text)) == OptionalText(number, text)
  {
    hide M.EncodeField, M.EncodeFields;
    M.NoFields();
    if value.Some? {
      OneField(M.Int(1, value.value));
    }
    if text.Some? {
      OneField(M.Text(number, text.value));
    }
  }

  lemma SerializeInParts(m: M.Message)
    requires m.Kind() != M.EmptyKind
    ensures M.Serialize(m) == M.EncodeFields(M.SingularFields(m))
      + M.EncodeFields(M.RepeatedFields(M.RepeatedNumber(m.Kind()), M.Texts(m)))
  {
    hide M.EncodeFields, M.RepeatedFields;
    M.EncodeFieldsAppend(M.SingularFields(m), M.RepeatedFields(M.RepeatedNumber(m.Kind()), M.Texts(m)));
  }

  lemma QueryBytes(m: M.Message)
    requires m.Query?
    ensures M.EncodeFields(M.SingularFields(m)) == OptionalInt(m.id) + OptionalText(2, m.questioner)
    ensures M.Serialize(m) == OptionalInt(m.id) + OptionalText(2, m.questioner)
      + M.EncodeFields(M.RepeatedFields(3, m.question))
  {
    hide M.EncodeFields, M.RepeatedFields, M.Serialize;
    OptionalParts(m.id, 2, m.questioner);
    M.EncodeFieldsAppend(M.IntFields(1, m.id), M.TextFields(2, m.questioner));
    SerializeInParts(m);
  }

  lemma OneAfterAnother(before: bytes, a: bytes, b: bytes, c: bytes, d: bytes)
    ensures before + a + b + c + d == before + (a + b + c + d)
  {
  }

  lemma AnswerBytes(m: M.Message)
    requires m.Answer?
    ensures M.EncodeFields(M.SingularFields(m))
      == OptionalInt(m.id) + OptionalText(2, m.questioner) + OptionalText(3, m.answerer)
    ensures M.Serialize(m) == OptionalInt(m.id) + OptionalText(2, m.questioner) + OptionalText(3, m.answerer)
      + M.EncodeFields(M.RepeatedFields(4, m.solution))
  {
    hide M.EncodeFields, M.RepeatedFields, M.Serialize;
    OptionalParts(m.id, 2, m.questioner);
    OptionalParts(m.id, 3, m.answerer);
    M.EncodeFieldsAppend(M.IntFields(1, m.id), M.TextFields(2, m.questioner));
    M.EncodeFieldsAppend(M.IntFields(1, m.id) + M.TextFields(2, m.questioner), M.TextFields(3, m.answerer));
    SerializeInParts(m);
  }

  lemma EmptyBytes(m: M.Message)
    requires m.Empty?
    ensures M.Serialize(m) == OptionalInt(M.Widen(m.number))
  {
    OptionalParts(M.Widen(m.number), 2, None);
  }

  function OptionalIntSize(value: Option<int64>): nat {
    if value.Some? then 1 + Int64Size(value.value) else 0
  }

  function OptionalTextSize(text: Option<bytes>): nat {
    if text.Some? then 1 + StringSize(text.value) else 0
  }

  lemma OptionalSizes(value: Option<int64>, number: nat, text: Option<bytes>)
    requires number < 16
    ensures |OptionalInt(value)| == OptionalIntSize(value)
    ensures |OptionalText(number, text)| == OptionalTextSize(text)
  {
    hide M.EncodeField, Int64Size, StringSize;
    if value.Some? {
      FieldSize(M.Int(1, value.value));
    }
    if text.Some? {
      FieldSize(M.Text(number, text.value));
    }
  }

  lemma QuerySizes(m: M.Message)
    requires m.Query?
    ensures |M.EncodeFields(M.SingularFields(m))| == OptionalIntSize(m.id) + OptionalTextSize(m.questioner)
  {
    hide M.EncodeFields, OptionalIntSize, OptionalTextSize, OptionalInt, OptionalText;
    QueryBytes(m);
    OptionalSizes(m.id, 2, m.questioner);
  }

  lemma AnswerSizes(m: M.Message)
    requires m.Answer?
    ensures |M.EncodeFields(M.SingularFields(m))|
      == OptionalIntSize(m.id) + OptionalTextSize(m.questioner) + OptionalTextSize(m.answerer)
  {
    hide M.EncodeFields, OptionalIntSize, OptionalTextSize, OptionalInt, OptionalText;
    AnswerBytes(m);
    OptionalSizes(m.id, 2, m.questioner);
    OptionalSizes(m.id, 3, m.answerer);
  }

  /** A negative id takes ten bytes in both the size computation and the serializer. */
  lemma EmptySize(number: int32)
    ensures |M.Serialize(M.Empty(Some(number)))| == 1 + Int32Size(number)
  {
    hide Int32Size, Int64Size, M.EncodeFields;
    EmptyBytes(M.Empty(Some(number)));
    OptionalSizes(Some(number), 2, None);
    Int32SizeIsInt64Size(number);
  }

  class Query {
    // Has-bits: bit 0: questioner, bit 1: id.
    var hasBits: bv32
    var id: int64
    var questioner: bytes
    var question: seq<bytes>

    predicate HasQuestioner()
      reads this`hasBits
    {
      hasBits & 1 != 0
    }

    predicate HasId()
      reads this`hasBits
    {
      hasBits & 2 != 0
    }

    /** No stray has-bits, and an absent field has its default value. */
    ghost predicate Valid()
      reads this
    {
      hasBits <= 3 && (!HasQuestioner() ==> questioner == []) && (!HasId() ==> id == 0)
    }

    function Value(): M.Message
      reads this
    {
      M.Query(
        if HasId() then Some(id) else None,
        if HasQuestioner() then Some(questioner) else None,
        question)
    }

    constructor ()
      ensures Valid() && Value() == M.Fresh(M.QueryKind)
    {
      hasBits := 0;
      id := 0;
      questioner := [];
      question := [];
    }

    method Clear()
      requires Valid()
      modifies this
      ensures Valid() && Value() == M.Fresh(M.QueryKind)
    {
      question := [];
      if hasBits & 1 != 0 {
        questioner := [];
      }
      id := 0;
      hasBits := 0;
    }

    method SetHasId()
      requires Valid()
      modifies this`hasBits
      ensures Valid() && HasId()
      ensures HasQuestioner() == old(HasQuestioner())
    {
      hasBits := hasBits | 2;
    }

    method SetHasQuestioner()
      requires Valid()
      modifies this`hasBits
      ensures Valid() && HasQuestioner()
      ensures HasId() == old(HasId())
    {
      hasBits := hasBits | 1;
    }

    /** `add_question()`, then the string read into it. */
    method MergeQuestion(input: CodedInputStream) returns (ok: bool)
      requires Valid() && input.Valid()
      modifies this`question, input`pos
      ensures Valid() && input.Valid()
      ensures match M.ParseField(old(Value()), 26, old(input.Rest()))
        case None => !ok
        case Some(r) => ok && Value() == r.value && input.Rest() == old(input.Rest())[r.used..]
    {
      hide ReadVarint64, ReadString, SkipField, HasId, HasQuestioner;
      question := question + [[]];
      var t := input.NextString();
      if t.None? {
        return false;
      }
      question := question[..|question| - 1] + [t.value];
      return true;
    }

    /** The switch on one tag: the new field, or false for a malformed one. */
    method MergeField(tag: uint32, inRange: bool, input: CodedInputStream) returns (ok: bool)
      requires Valid() && input.Valid() && tag != 0 && inRange == (1 <= tag <= 127)
      modifies this, input`pos
      ensures Valid() && input.Valid()
      ensures match M.ParseField(old(Value()), tag, old(input.Rest()))
        case None => !ok
        case Some(r) => ok && Value() == r.value && input.Rest() == old(input.Rest())[r.used..]
    {
      hide ReadVarint64, ReadString, SkipField, HasId, HasQuestioner;
      if inRange && tag / 8 == 1 && tag % 0x100 == 8 {
        SetHasId();
        var v := input.NextVarint64();
        if v.None? {
          return false;
        }
        id := ToInt64(v.value);
      } else if inRange && tag / 8 == 2 && tag % 0x100 == 18 {
        SetHasQuestioner();
        var t := input.NextString();
        if t.None? {
          return false;
        }
        questioner := t.value;
      } else if inRange && tag / 8 == 3 && tag % 0x100 == 26 {
        ok := MergeQuestion(input);
        return;
      } else {
        ok := input.Skip(tag);
        return;
      }
      return true;
    }

    method MergePartialFromCodedStream(input: CodedInputStream) returns (ok: bool)
      requires Valid() && input.Valid()
      modifies this, input
      ensures Valid() && input.Valid()
      ensures Parsed(M.ParseLoop(old(Value()), old(input.Rest())), ok, Value(), input.legitimateEnd)
    {
      hide M.ParseLoop, M.ParseField, ReadVarint32, HasId, HasQuestioner;
      while true
        invariant Valid() && input.Valid()
        invariant M.ParseLoop(Value(), input.Rest()) == M.ParseLoop(old(Value()), old(input.Rest()))
        decreases |input.Rest()|
      {
        ghost var m, s := Value(), input.Rest();
        var tag, inRange := input.ReadTagWithCutoffNoLastTag(127);
        if tag == 0 {
          LoopStopsAt(m, s);
          return true;
        }
        LoopStep(m, s, tag, input.Rest());
        var merged := MergeField(tag, inRange, input);
        if !merged {
          return false;
        }
      }
    }

    predicate IsInitialized()
      reads this`hasBits
    {
      hasBits & 3 == 3
    }

    /** `ParseFromArray`: clear, merge, and accept only a complete message that used up the input. */
    method ParseFromArray(data: bytes) returns (ok: bool)
      requires Valid()
      modifies this
      ensures Valid()
      ensures M.ParseFromArray(M.QueryKind, data) == if ok then Some(Value()) else None
    {
      hide M.ParseLoop;
      Clear();
      var input := new CodedInputStream(data);
      ok := MergePartialFromCodedStream(input);
      ok := ok && input.legitimateEnd && IsInitialized();
    }

    method InternalSerializeWithCachedSizesToArray(target: array<byte>, at: nat) returns (end: nat)
      requires Valid() && at + |M.Serialize(Value())| <= target.Length
      modifies target
      ensures end == at + |M.Serialize(Value())|
      ensures target[..end] == old(target[..at]) + M.Serialize(Value())
      ensures forall i :: end <= i < target.Length ==> target[i] == old(target[i])
    {
      hide M.EncodeField, M.EncodeFields, M.RepeatedFields, M.Serialize;
      QueryBytes(Value());
      ghost var m, before := Value(), target[..at];
      ghost var a, b, c :=
        OptionalInt(m.id), OptionalText(2, m.questioner), M.EncodeFields(M.RepeatedFields(3, m.question));
      end := at;
      end := WriteIntIfPresent(hasBits & 2 != 0, 1, id, target, end);
      assert target[..end] == before + a;
      end := WriteStringIfPresent(hasBits & 1 != 0, 2, questioner, target, end);
      assert target[..end] == before + a + b;
      end := WriteStringsToArray(3, question, target, end);
      assert before + a + b + c == before + (a + b + c);
    }

    method RequiredFieldsByteSizeFallback() returns (total: nat)
      requires Valid()
      ensures total == |M.EncodeFields(M.SingularFields(Value()))|
    {
      hide M.EncodeField;
      QuerySizes(Value());
      total := 0;
      if HasQuestioner() {
        total := total + 1 + StringSize(questioner);
      }
      if HasId() {
        total := total + 1 + Int64Size(id);
      }
    }

    /** A quick sum when every required field is there, the fallback otherwise, then the repeated field. */
    method ByteSizeLong() returns (total: nat)
      requires Valid()
      ensures total == |M.Serialize(Value())|
    {
      hide M.EncodeField, M.EncodeFields, M.RepeatedFields;
      SerializeInParts(Value());
      QuerySizes(Value());
      if (hasBits & 3) ^ 3 == 0 {
        total := 0;
        total := total + 1 + StringSize(questioner);
        total := total + 1 + Int64Size(id);
      } else {
        total := RequiredFieldsByteSizeFallback();
      }
      var repeated := StringsSize(3, question);
      total := total + repeated;
    }

    method MergeFrom(from: Query)
      requires Valid() && from.Valid() && from != this
      modifies this
      ensures Valid() && Value() == M.Merge(old(Value()), from.Value())
    {
      question := question + from.question;
      if from.hasBits & 3 != 0 {
        if from.hasBits & 1 != 0 {
          SetHasQuestioner();
          questioner := from.questioner;
        }
        if from.hasBits & 2 != 0 {
          id := from.id;
        }
        hasBits := hasBits | from.hasBits;
      }
    }

    method CopyFrom(from: Query)
      requires Valid() && from.Valid()
      modifies this
      ensures Valid() && Value() == old(from.Value())
    {
      if from == this {
        return;
      }
      Clear();
      MergeFrom(from);
    }
  }

  class Answer {
    // Has-bits: bit 0: questioner, bit 1: answerer, bit 2: id.
    var hasBits: bv32
    var id: int64
    var questioner: bytes
    var answerer: bytes
    var solution: seq<bytes>

    predicate HasQuestioner()
      reads this`hasBits
    {
      hasBits & 1 != 0
    }

    predicate HasAnswerer()
      reads this`hasBits
    {
      hasBits & 2 != 0
    }

    predicate HasId()
      reads this`hasBits
    {
      hasBits & 4 != 0
    }

    /** No stray has-bits, and an absent field has its default value. */
    ghost predicate Valid()
      reads this
    {
      && hasBits <= 7
      && (!HasQuestioner() ==> questioner == []) && (!HasAnswerer() ==> answerer == []) && (!HasId() ==> id == 0)
    }

    function Value(): M.Message
      reads this
    {
      M.Answer(
        if HasId() then Some(id) else None,
        if HasQuestioner() then Some(questioner) else None,
        if HasAnswerer() then Some(answerer) else None,
        solution)
    }

    constructor ()
      ensures Valid() && Value() == M.Fresh(M.AnswerKind)
    {
      hasBits := 0;
      id := 0;
      questioner := [];
      answerer := [];
      solution := [];
    }

    method Clear()
      requires Valid()
      modifies this
      ensures Valid() && Value() == M.Fresh(M.AnswerKind)
    {
      solution := [];
      if hasBits & 1 != 0 {
        questioner := [];
      }
      if hasBits & 2 != 0 {
        answerer := [];
      }
      id := 0;
      hasBits := 0;
    }

    method SetHasId()
      requires Valid()
      modifies this`hasBits
      ensures Valid() && HasId()
      ensures HasQuestioner() == old(HasQuestioner()) && HasAnswerer() == old(HasAnswerer())
    {
      hasBits := hasBits | 4;
    }

    method SetHasQuestioner()
      requires Valid()
      modifies this`hasBits
      ensures Valid() && HasQuestioner()
      ensures HasId() == old(HasId()) && HasAnswerer() == old(HasAnswerer())
    {
      hasBits := hasBits | 1;
    }

    method SetHasAnswerer()
      requires Valid()
      modifies this`hasBits
      ensures Valid() && HasAnswerer()
      ensures HasId() == old(HasId()) && HasQuestioner() == old(HasQuestioner())
    {
      hasBits := hasBits | 2;
    }

    /** `add_solution()`, then the string read into it. */
    method MergeSolution(input: CodedInputStream) returns (ok: bool)
      requires Valid() && input.Valid()
      modifies this`solution, input`pos
      ensures Valid() && input.Valid()
      ensures match M.ParseField(old(Value()), 34, old(input.Rest()))
        case None => !ok
        case Some(r) => ok && Value() == r.value && input.Rest() == old(input.Rest())[r.used..]
    {
      hide ReadVarint64, ReadString, SkipField, HasId, HasQuestioner, HasAnswerer;
      solution := solution + [[]];
      var t := input.NextString();
      if t.None? {
        return false;
      }
      solution := solution[..|solution| - 1] + [t.value];
      return true;
    }

    /** The switch on one tag: the new field, or false for a malformed one. */
    method MergeField(tag: uint32, inRange: bool, input: CodedInputStream) returns (ok: bool)
      requires Valid() && input.Valid() && tag != 0 && inRange == (1 <= tag <= 127)
      modifies this, input`pos
      ensures Valid() && input.Valid()
      ensures match M.ParseField(old(Value()), tag, old(input.Rest()))
        case None => !ok
        case Some(r) => ok && Value() == r.value && input.Rest() == old(input.Rest())[r.used..]
    {
      hide ReadVarint64, ReadString, SkipField, HasId, HasQuestioner, HasAnswerer;
      if inRange && tag / 8 == 1 && tag % 0x100 == 8 {
        SetHasId();
        var v := input.NextVarint64();
        if v.None? {
          return false;
        }
        id := ToInt64(v.value);
      } else if inRange && tag / 8 == 2 && tag % 0x100 == 18 {
        SetHasQuestioner();
        var t := input.NextString();
        if t.None? {
          return false;
        }
        questioner := t.value;
      } else if inRange && tag / 8 == 3 && tag % 0x100 == 26 {
        SetHasAnswerer();
        var t := input.NextString();
        if t.None? {
          return false;
        }
        answerer := t.value;
      } else if inRange && tag / 8 == 4 && tag % 0x100 == 34 {
        ok := MergeSolution(input);
        return;
      } else {
        ok := input.Skip(tag);
        return;
      }
      return true;
    }

    method MergePartialFromCodedStream(input: CodedInputStream) returns (ok: bool)
      requires Valid() && input.Valid()
      modifies this, input
      ensures Valid() && input.Valid()
      ensures Parsed(M.ParseLoop(old(Value()), old(input.Rest())), ok, Value(), input.legitimateEnd)
    {
      hide M.ParseLoop, M.ParseField, ReadVarint32, HasId, HasQuestioner, HasAnswerer;
      while true
        invariant Valid() && input.Valid()
        invariant M.ParseLoop(Value(), input.Rest()) == M.ParseLoop(old(Value()), old(input.Rest()))
        decreases |input.Rest()|
      {
        ghost var m, s := Value(), input.Rest();
        var tag, inRange := input.ReadTagWithCutoffNoLastTag(127);
        if tag == 0 {
          LoopStopsAt(m, s);
          return true;
        }
        LoopStep(m, s, tag, input.Rest());
        var merged := MergeField(tag, inRange, input);
        if !merged {
          return false;
        }
      }
    }

    predicate IsInitialized()
      reads this`hasBits
    {
      hasBits & 7 == 7
    }

    /** `ParseFromArray`: clear, merge, and accept only a complete message that used up the input. */
    method ParseFromArray(data: bytes) returns (ok: bool)
      requires Valid()
      modifies this
      ensures Valid()
      ensures M.ParseFromArray(M.AnswerKind, data) == if ok then Some(Value()) else None
    {
      hide M.ParseLoop;
      Clear();
      var input := new CodedInputStream(data);
      ok := MergePartialFromCodedStream(input);
      ok := ok && input.legitimateEnd && IsInitialized();
    }

    method InternalSerializeWithCachedSizesToArray(target: array<byte>, at: nat) returns (end: nat)
      requires Valid() && at + |M.Serialize(Value())| <= target.Length
      modifies target
      ensures end == at + |M.Serialize(Value())|
      ensures target[..end] == old(target[..at]) + M.Serialize(Value())
      ensures forall i :: end <= i < target.Length ==> target[i] == old(target[i])
    {
      hide M.EncodeField, M.EncodeFields, M.RepeatedFields, M.Serialize;
      AnswerBytes(Value());
      ghost var m, before := Value(), target[..at];
      ghost var a, b, c := OptionalInt(m.id), OptionalText(2, m.questioner), OptionalText(3, m.answerer);
      end := at;
      end := WriteIntIfPresent(hasBits & 4 != 0, 1, id, target, end);
      assert target[..end] == before + a;
      end := WriteStringIfPresent(hasBits & 1 != 0, 2, questioner, target, end);
      assert target[..end] == before + a + b;
      end := WriteStringIfPresent(hasBits & 2 != 0, 3, answerer, target, end);
      assert target[..end] == before + a + b + c;
      end := WriteStringsToArray(4, solution, target, end);
      OneAfterAnother(before, a, b, c, M.EncodeFields(M.RepeatedFields(4, m.solution)));
    }

    method RequiredFieldsByteSizeFallback() returns (total: nat)
      requires Valid()
      ensures total == |M.EncodeFields(M.SingularFields(Value()))|
    {
      hide M.EncodeField;
      AnswerSizes(Value());
      total := 0;
      if HasQuestioner() {
        total := total + 1 + StringSize(questioner);
      }
      if HasAnswerer() {
        total := total + 1 + StringSize(answerer);
      }
      if HasId() {
        total := total + 1 + Int64Size(id);
      }
    }

    /** A quick sum when every required field is there, the fallback otherwise, then the repeated field. */
    method ByteSizeLong() returns (total: nat)
      requires Valid()
      ensures total == |M.Serialize(Value())|
    {
      hide M.EncodeField, M.EncodeFields, M.RepeatedFields;
      SerializeInParts(Value());
      AnswerSizes(Value());
      if (hasBits & 7) ^ 7 == 0 {
        total := 0;
        total := total + 1 + StringSize(questioner);
        total := total + 1 + StringSize(answerer);
        total := total + 1 + Int64Size(id);
      } else {
        total := RequiredFieldsByteSizeFallback();
      }
      var repeated := StringsSize(4, solution);
      total := total + repeated;
    }

    method MergeFrom(from: Answer)
      requires Valid() && from.Valid() && from != this
      modifies this
      ensures Valid() && Value() == M.Merge(old(Value()), from.Value())
    {
      solution := solution + from.solution;
      if from.hasBits & 7 != 0 {
        if from.hasBits & 1 != 0 {
          SetHasQuestioner();
          questioner := from.questioner;
        }
        if from.hasBits & 2 != 0 {
          SetHasAnswerer();
          answerer := from.answerer;
        }
        if from.hasBits & 4 != 0 {
          id := from.id;
        }
        hasBits := hasBits | from.hasBits;
      }
    }

    method CopyFrom(from: Answer)
      requires Valid() && from.Valid()
      modifies this
      ensures Valid() && Value() == old(from.Value())
    {
      if from == this {
        return;
      }
      Clear();
      MergeFrom(from);
    }
  }

  class Empty {
    // Has-bits: bit 0: id.
    var hasBits: bv32
    var id: int32

    predicate HasId()
      reads this`hasBits
    {
      hasBits & 1 != 0
    }

    /** No stray has-bits, and an absent field has its default value. */
    ghost predicate Valid()
      reads this
    {
      hasBits <= 1 && (!HasId() ==> id == 0)
    }

    function Value(): M.Message
      reads this
    {
      M.Empty(if HasId() then Some(id) else None)
    }

    constructor ()
      ensures Valid() && Value() == M.Fresh(M.EmptyKind)
    {
      hasBits := 0;
      id := 0;
    }

    method Clear()
      requires Valid()
      modifies this
      ensures Valid() && Value() == M.Fresh(M.EmptyKind)
    {
      id := 0;
      hasBits := 0;
    }

    method SetHasId()
      requires Valid()
      modifies this`hasBits
      ensures Valid() && HasId()
    {
      hasBits := hasBits | 1;
    }

    /** The switch on one tag: the new field, or false for a malformed one. */
    method MergeField(tag: uint32, inRange: bool, input: CodedInputStream) returns (ok: bool)
      requires Valid() && input.Valid() && tag != 0 && inRange == (1 <= tag <= 127)
      modifies this, input`pos
      ensures Valid() && input.Valid()
      ensures match M.ParseField(old(Value()), tag, old(input.Rest()))
        case None => !ok
        case Some(r) => ok && Value() == r.value && input.Rest() == old(input.Rest())[r.used..]
    {
      hide ReadVarint64, ReadString, SkipField, HasId;
      if inRange && tag / 8 == 1 && tag % 0x100 == 8 {
        SetHasId();
        var v := input.NextVarint64();
        if v.None? {
          return false;
        }
        id := ToInt32(v.value % 0x1_0000_0000);
      } else {
        ok := input.Skip(tag);
        return;
      }
      return true;
    }

    method MergePartialFromCodedStream(input: CodedInputStream) returns (ok: bool)
      requires Valid() && input.Valid()
      modifies this, input
      ensures Valid() && input.Valid()
      ensures Parsed(M.ParseLoop(old(Value()), old(input.Rest())), ok, Value(), input.legitimateEnd)
    {
      hide M.ParseLoop, M.ParseField, ReadVarint32, HasId;
      while true
        invariant Valid() && input.Valid()
        invariant M.ParseLoop(Value(), input.Rest()) == M.ParseLoop(old(Value()), old(input.Rest()))
        decreases |input.Rest()|
      {
        ghost var m, s := Value(), input.Rest();
        var tag, inRange := input.ReadTagWithCutoffNoLastTag(127);
        if tag == 0 {
          LoopStopsAt(m, s);
          return true;
        }
        LoopStep(m, s, tag, input.Rest());
        var merged := MergeField(tag, inRange, input);
        if !merged {
          return false;
        }
      }
    }

    predicate IsInitialized()
      reads this`hasBits
    {
      true
    }

    /** `ParseFromArray`: clear, merge, and accept only a complete message that used up the input. */
    method ParseFromArray(data: bytes) returns (ok: bool)
      requires Valid()
      modifies this
      ensures Valid()
      ensures M.ParseFromArray(M.EmptyKind, data) == if ok then Some(Value()) else None
    {
      hide M.ParseLoop;
      Clear();
      var input := new CodedInputStream(data);
      ok := MergePartialFromCodedStream(input);
      ok := ok && input.legitimateEnd && IsInitialized();
    }

    method InternalSerializeWithCachedSizesToArray(target: array<byte>, at: nat) returns (end: nat)
      requires Valid() && at + |M.Serialize(Value())| <= target.Length
      modifies target
      ensures end == at + |M.Serialize(Value())|
      ensures target[..end] == old(target[..at]) + M.Serialize(Value())
      ensures forall i :: end <= i < target.Length ==> target[i] == old(target[i])
    {
      EmptyBytes(Value());
      end := at;
      if hasBits & 1 != 0 {
        end := WriteIntToArray(1, id, target, end);
      }
    }

    method ByteSizeLong() returns (total: nat)
      requires Valid()
      ensures total == |M.Serialize(Value())|
    {
      total := 0;
      if HasId() {
        EmptySize(id);
        total := total + 1 + Int32Size(id);
      }
    }

    method MergeFrom(from: Empty)
      requires Valid() && from.Valid() && from != this
      modifies this
      ensures Valid() && Value() == M.Merge(old(Value()), from.Value())
    {
      if from.HasId() {
        SetHasId();
        id := from.id;
      }
    }

    method CopyFrom(from: Empty)
      requires Valid() && from.Valid()
      modifies this
      ensures Valid() && Value() == old(from.Value())
    {
      if from == this {
        return;
      }
      Clear();
      MergeFrom(from);
    }
  }

  /** A message of any of the three types, for the code that works through the common base class. */
  datatype MessageRef = QueryRef(query: Query) | AnswerRef(answer: Answer) | EmptyRef(empty: Empty) {
    function Object(): object {
      match this
      case QueryRef(q) => q
      case AnswerRef(a) => a
      case EmptyRef(e) => e
    }

    ghost predicate Valid()
      reads Object()
    {
      match this
      case QueryRef(q) => q.Valid()
      case AnswerRef(a) => a.Valid()
      case EmptyRef(e) => e.Valid()
    }

    function Value(): M.Message
      reads Object()
    {
      match this
      case QueryRef(q) => q.Value()
      case AnswerRef(a) => a.Value()
      case EmptyRef(e) => e.Value()
    }

    method ByteSize() returns (total: nat)
      requires Valid()
      ensures total == |M.Serialize(Value())|
    {
      hide M.Serialize;
      match this
      case QueryRef(q) => total := q.ByteSizeLong();
      case AnswerRef(a) => total := a.ByteSizeLong();
      case EmptyRef(e) => total := e.ByteSizeLong();
    }

    method SerializeWithCachedSizesToArray(target: array<byte>, at: nat) returns (end: nat)
      requires Valid() && at + |M.Serialize(Value())| <= target.Length
      modifies target
      ensures end == at + |M.Serialize(Value())|
      ensures target[..end] == old(target[..at]) + M.Serialize(Value())
      ensures forall i :: end <= i < target.Length ==> target[i] == old(target[i])
    {
      hide M.Serialize;
      match this
      case QueryRef(q) => end := q.InternalSerializeWithCachedSizesToArray(target, at);
      case AnswerRef(a) => end := a.InternalSerializeWithCachedSizesToArray(target, at);
      case EmptyRef(e) => end := e.InternalSerializeWithCachedSizesToArray(target, at);
    }

    method ParseFromArray(data: bytes) returns (ok: bool)
      requires Valid()
      modifies Object()
      ensures Valid() && Value().Kind() == old(Value()).Kind()
      ensures M.ParseFromArray(Value().Kind(), data) == if ok then Some(Value()) else None
    {
      hide M.ParseFromArray;
      match this
      case QueryRef(q) => ok := q.ParseFromArray(data);
      case AnswerRef(a) => ok := a.ParseFromArray(data);
      case EmptyRef(e) => ok := e.ParseFromArray(data);
    }
  }

  /** A new message of the given type, as a prototype's `New` makes it. */
  method NewMessage(kind: M.Kind) returns (message: MessageRef)
    ensures message.Valid() && fresh(message.Object()) && message.Value() == M.Fresh(kind)
  {
    match kind
    case QueryKind =>
      var q := new Query();
      message := QueryRef(q);
    case AnswerKind =>
      var a := new Answer();
      message := AnswerRef(a);
    case EmptyKind =>
      var e := new Empty();
      message := EmptyRef(e);
  }
}
