/**
 The frame as bytes, and what the receiver reports of every frame that is not one: which error, from which bytes,
 and after which messages.
 */
module FrameFormat {
  import opened Bytes
  import opened Wrappers
  import opened Codec
  import opened CodecStream
  import opened Endian
  import Adler
  import M = Messages
  import WireFormat

  // ---------------------------------------------------------------------------------------------
  // What is written
  // ---------------------------------------------------------------------------------------------

  predicate Spells(name: bytes, text: string) {
    |name| == |text| && forall i :: 0 <= i < |text| ==> name[i] == text[i] as int
  }

  /** The name of a kind of message, as its descriptor has it. */
  predicate Names(name: bytes, kind: M.Kind) {
    match kind
    case QueryKind => Spells(name, "muduo.Query")
    case AnswerKind => Spells(name, "muduo.Answer")
    case EmptyKind => Spells(name, "muduo.Empty")
  }

  lemma SpellsAscii(name: bytes, text: string)
    requires forall i :: 0 <= i < |text| ==> text[i] < 128 as char
    ensures Spells(name, text) <==> name == Ascii(text)
  {
    forall i | 0 <= i < |text| ensures Ascii(text)[i] == text[i] as int {
    }
  }

  lemma NamesTypeName(name: bytes, kind: M.Kind)
    ensures Names(name, kind) <==> name == TypeName(kind)
  {
    hide Ascii, Spells;
    SpellsAscii(name, "muduo.Query");
    SpellsAscii(name, "muduo.Answer");
    SpellsAscii(name, "muduo.Empty");
  }

  /** The checksum of the bytes between length and checksum, in closed form. */
  function ClosedSum(covered: bytes): int {
    (|covered| + Adler.WeightedSum(covered)) % 65521 * 0x1_0000 + (1 + Adler.ByteSum(covered)) % 65521
  }

  lemma ClosedSumIsAdler(covered: bytes)
    ensures Adler.Adler32(covered) == ClosedSum(covered)
  {
    hide Adler.Adler32, Adler.WeightedSum, Adler.ByteSum;
    Adler.Adler32IsClosedForm(covered);
  }

  lemma CheckSumBytes(covered: bytes)
    ensures BeValue(Be32(CheckSum(covered))) == ClosedSum(covered)
  {
    hide Adler.Adler32, ClosedSum, Be32, BeValue;
    ClosedSumIsAdler(covered);
    Be32IsBigEndian(CheckSum(covered), []);
  }

  /** Every part of a frame, by its place: lengths and checksum are big-endian, the name ends in a zero. */
  lemma FrameIs(m: M.Message)
    requires Encodable(m)
    ensures
      var f, n := Frame(m), |Frame(m)|;
      var name := if m.Answer? then 12 else 11;
      && n == 17 + name - 4 + |M.Serialize(m)|
      && BeValue(f[..4]) == n - 4 && BeValue(f[4..8]) == name + 1
      && Names(f[8..8 + name], m.Kind()) && f[8 + name] == 0
      && f[9 + name..n - 4] == M.Serialize(m)
      && BeValue(f[n - 4..]) == ClosedSum(f[4..n - 4])
  {
    hide M.Serialize, TypeName, Be32, CheckSum, BeValue, ClosedSum, Names;
    var f, body, covered, data := Frame(m), Body(m), Covered(m), M.Serialize(m);
    var n, name := |Frame(m)|, TypeName(m.Kind());
    TypeNameLength(m.Kind());
    NamesTypeName(name, m.Kind());
    Be32IsBigEndian(|body|, []);
    Be32IsBigEndian(|name| + 1, []);
    CheckSumBytes(covered);
    assert f == Be32(|body|) + (Be32(|name| + 1) + (name + [0]) + data + Be32(CheckSum(covered)));
    assert f[..4] == Be32(|body|) && f[4..8] == Be32(|name| + 1);
    assert f[8..8 + |name|] == name;
    assert f[9 + |name|..n - 4] == data;
    assert f[4..n - 4] == covered && f[n - 4..] == Be32(CheckSum(covered));
  }

  lemma TypeNameLength(kind: M.Kind)
    ensures |TypeName(kind)| == if kind == M.AnswerKind then 12 else 11
  {
  }

  // ---------------------------------------------------------------------------------------------
  // One frame without its length
  // ---------------------------------------------------------------------------------------------

  /** The last four bytes are the checksum of the others. */
  predicate SumIsRight(body: bytes)
    requires |body| >= 4
  {
    BeValue(body[|body| - 4..]) == ClosedSum(body[..|body| - 4])
  }

  lemma SumIsRightIff(body: bytes)
    requires |body| >= 4
    ensures SumIsRight(body) <==> ChecksumHolds(body)
  {
    hide Adler.Adler32, ClosedSum, BeValue, AsInt32;
    var tail, covered := body[|body| - 4..], body[..|body| - 4];
    ClosedSumIsAdler(covered);
    Be32IsBigEndian(CheckSum(covered), []);
    Be32IsBigEndian(AsInt32(tail), tail);
    CheckSumBytes(covered);
    Be32OfAsInt32(tail);
    assert tail[..4] == tail;
    AsInt32OfBe32(CheckSum(covered), []);
    assert Be32(CheckSum(covered)) + [] == Be32(CheckSum(covered));
  }

  /** The stored name length leaves room for a name and its zero before the payload. */
  predicate NameFits(body: bytes)
    requires |body| >= 4
  {
    2 <= AsInt32(body) <= |body| - 8
  }

  function NameIn(body: bytes): bytes
    requires |body| >= 4 && NameFits(body)
  {
    body[4..4 + AsInt32(body) - 1]
  }

  function PayloadIn(body: bytes): bytes
    requires |body| >= 4 && NameFits(body)
  {
    body[4 + AsInt32(body)..|body| - 4]
  }

  /** `parse` in full: each error from its own condition, and the message from the kind the name spells. */
  lemma ParseBodyExactly(body: bytes)
    requires |body| >= 4
    ensures ParseBody(body) == Rejected(CheckSumError) <==> !SumIsRight(body)
    ensures ParseBody(body) == Rejected(InvalidNameLen) <==> SumIsRight(body) && !NameFits(body)
    ensures SumIsRight(body) && NameFits(body) ==>
      (ParseBody(body) == Rejected(UnknownMessageType) <==> forall kind :: !Names(NameIn(body), kind))
    ensures forall kind :: SumIsRight(body) && NameFits(body) && Names(NameIn(body), kind) ==>
      && (ParseBody(body) == Rejected(ParseError) <==> M.ParseFromArray(kind, PayloadIn(body)) == None)
      && (forall m :: ParseBody(body) == Parsed(m) <==> M.ParseFromArray(kind, PayloadIn(body)) == Some(m))
  {
    hide M.ParseFromArray, CheckSum, AsInt32, Names, TypeName, SumIsRight;
    SumIsRightIff(body);
    forall kind | NameFits(body)
      ensures Names(NameIn(body), kind) <==> NameIn(body) == TypeName(kind)
    {
      NamesTypeName(NameIn(body), kind);
    }
    if NameFits(body) {
      KindIsNamed(NameIn(body));
    }
  }

  lemma KindIsNamed(name: bytes)
    ensures forall kind :: KindOf(name) == Some(kind) <==> name == TypeName(kind)
    ensures KindOf(name) == None <==> forall kind :: name != TypeName(kind)
  {
    hide TypeName;
    forall kind: M.Kind
      ensures KindOf(name) == Some(kind) <==> name == TypeName(kind)
    {
      KindOfTypeName(kind);
    }
  }

  /** A parsed message is of the kind the frame names, and has every required field. */
  lemma ParsedIsNamed(body: bytes, m: M.Message)
    requires |body| >= 4 && ParseBody(body) == Parsed(m)
    ensures SumIsRight(body) && NameFits(body) && Names(NameIn(body), m.Kind()) && WireFormat.HasRequired(m)
  {
    hide M.ParseFromArray, AsInt32, Names, SumIsRight, NameIn, PayloadIn, WireFormat.HasRequired;
    ParseBodyExactly(body);
    assert !(forall kind :: !Names(NameIn(body), kind));
    var kind :| Names(NameIn(body), kind);
    assert M.ParseFromArray(kind, PayloadIn(body)) == Some(m);
    WireFormat.AcceptedExactly(kind, PayloadIn(body), m);
  }

  // ---------------------------------------------------------------------------------------------
  // The head of the input
  // ---------------------------------------------------------------------------------------------

  /** The stored length is one the receiver takes: the limit is 64 MiB. */
  predicate LengthIsValid(s: bytes)
    requires |s| >= 4
  {
    10 <= AsInt32(s) <= 67_108_864
  }

  predicate HasWholeBody(s: bytes) {
    |s| >= 14 && LengthIsValid(s) && |s| >= AsInt32(s) + 4
  }

  function HeadBody(s: bytes): bytes
    requires HasWholeBody(s)
  {
    s[4..4 + AsInt32(s)]
  }

  /** The loop waits only for bytes that are missing, and every frame there in full is delivered or reported. */
  lemma DecideExactly(s: bytes)
    ensures Decide(s) == Wait <==> |s| < 14 || (LengthIsValid(s) && |s| < AsInt32(s) + 4)
    ensures Decide(s) == Stop(InvalidLength) <==> |s| >= 14 && !LengthIsValid(s)
    ensures HasWholeBody(s) ==>
      && (forall code :: Decide(s) == Stop(code) <==> ParseBody(HeadBody(s)) == Rejected(code))
      && (forall m, n :: Decide(s) == Take(m, n) <==> ParseBody(HeadBody(s)) == Parsed(m) && n == AsInt32(s) + 4)
  {
    hide AsInt32;
    if HasWholeBody(s) {
      NeverInvalidLength(HeadBody(s));
      hide ParseBody;
    }
  }

  lemma NeverInvalidLength(body: bytes)
    requires |body| >= 4
    ensures ParseBody(body) != Rejected(InvalidLength) && ParseBody(body) != Rejected(NoError)
  {
    hide M.ParseFromArray, AsInt32, CheckSum, KindOf;
  }

  /** What stopped the loop can be read off the bytes it left. */
  lemma {:induction false} DeliverStopsForAReason(s: bytes)
    ensures var d := Deliver(s);
      && (d.error == None <==> |d.rest| < 14 || (LengthIsValid(d.rest) && |d.rest| < AsInt32(d.rest) + 4))
      && (d.error == Some(InvalidLength) <==> |d.rest| >= 14 && !LengthIsValid(d.rest))
      && (HasWholeBody(d.rest) ==> d.error.Some? && ParseBody(HeadBody(d.rest)) == Rejected(d.error.value))
    decreases |s|
  {
    hide Decide, Deliver, ParseBody, AsInt32;
    if Decide(s).Take? {
      DeliverTakes(s);
      DeliverStopsForAReason(s[Decide(s).size..]);
    } else {
      DeliverStops(s);
      DecideExactly(s);
    }
  }

  // ---------------------------------------------------------------------------------------------
  // A bad frame in a stream
  // ---------------------------------------------------------------------------------------------

  /** Frames before the head are delivered, whatever the head is. */
  lemma {:induction false} DeliverAfter(ms: seq<M.Message>, tail: bytes)
    requires forall m :: m in ms ==> Sendable(m)
    ensures var d, e := Deliver(Stream(ms) + tail), Deliver(tail);
      d.messages == ms + e.messages && d.error == e.error && d.rest == e.rest
    decreases |ms|
  {
    hide Deliver, Frame, Sendable;
    if ms == [] {
      assert Stream(ms) + tail == tail;
    } else {
      assert Stream(ms) + tail == Frame(ms[0]) + (Stream(ms[1..]) + tail);
      TakeFirst(ms[0], Stream(ms[1..]) + tail);
      DeliverAfter(ms[1..], tail);
    }
  }

  /** A body that `parse` rejects is reported with its code after the messages before it, and left in the buffer. */
  lemma RejectedBodyIsReported(ms: seq<M.Message>, body: bytes, code: ErrorCode, rest: bytes)
    requires forall m :: m in ms ==> Sendable(m)
    requires 10 <= |body| <= 67_108_864 && ParseBody(body) == Rejected(code)
    ensures var bad := Be32(|body|) + body + rest;
      var d := Deliver(Stream(ms) + bad);
      d.messages == ms && d.error == Some(code) && d.rest == bad
  {
    hide Deliver, Decide, ParseBody, AsInt32, Be32;
    var bad := Be32(|body|) + body + rest;
    assert bad == Be32(|body|) + (body + rest);
    AsInt32OfBe32(|body|, body + rest);
    assert bad[4..4 + |body|] == body;
    DecideExactly(bad);
    DeliverStops(bad);
    DeliverAfter(ms, bad);
    assert ms + [] == ms;
  }

  /** One changed byte of a frame's body, anywhere in a stream: what came before arrives, the rest is reported. */
  lemma CorruptFrameIsReported(ms: seq<M.Message>, m: M.Message, k: nat, v: byte, rest: bytes)
    requires Sendable(m) && forall a :: a in ms ==> Sendable(a)
    requires k < |Body(m)| && v != Body(m)[k]
    ensures var bad := Be32(|Body(m)|) + Body(m)[k := v] + rest;
      var d := Deliver(Stream(ms) + bad);
      d.messages == ms && d.error == Some(CheckSumError) && d.rest == bad
  {
    hide Deliver, ParseBody, Be32, Body, ChecksumHolds;
    BodyIsLong(m);
    BodyRoundTrip(m);
    ChecksumFailureIsReported(Body(m));
    OneByteIsCaught(Body(m), k, v);
    RejectedBodyIsReported(ms, Body(m)[k := v], CheckSumError, rest);
  }

  /** A length outside the limits is reported as soon as 14 bytes are there. */
  lemma BadLengthIsReported(ms: seq<M.Message>, len: int32, rest: bytes)
    requires forall m :: m in ms ==> Sendable(m)
    requires (len < 10 || len > 67_108_864) && |rest| >= 10
    ensures var d := Deliver(Stream(ms) + (Be32(len) + rest));
      d.messages == ms && d.error == Some(InvalidLength) && d.rest == Be32(len) + rest
  {
    hide Deliver, Decide, AsInt32, Be32;
    AsInt32OfBe32(len, rest);
    DecideExactly(Be32(len) + rest);
    DeliverStops(Be32(len) + rest);
    DeliverAfter(ms, Be32(len) + rest);
    assert ms + [] == ms;
  }
}
