/**
 The length-prefixed transport: `len | nameLen | typeName | data | adler32`, all integers big-endian and
 the checksum over everything between it and `len`.
 */
module Codec {
  import opened Bytes
  import opened Wrappers
  import opened NetBuffer
  import Adler
  import M = Messages
  import O = MessageObjects

  // ---------------------------------------------------------------------------------------------
  // The format
  // ---------------------------------------------------------------------------------------------

  function Ascii(s: string): bytes {
    seq(|s|, i requires 0 <= i < |s| => s[i] as int % 0x100)
  }

  function TypeName(kind: M.Kind): bytes {
    match kind
    case QueryKind => Ascii("muduo.Query")
    case AnswerKind => Ascii("muduo.Answer")
    case EmptyKind => Ascii("muduo.Empty")
  }

  /** The descriptor lookup of `createMessage`. */
  function KindOf(name: bytes): Option<M.Kind> {
    if name == TypeName(M.QueryKind) then Some(M.QueryKind)
    else if name == TypeName(M.AnswerKind) then Some(M.AnswerKind)
    else if name == TypeName(M.EmptyKind) then Some(M.EmptyKind)
    else None
  }

  lemma KindOfTypeName(kind: M.Kind)
    ensures KindOf(TypeName(kind)) == Some(kind)
    ensures 11 <= |TypeName(kind)| <= 12
  {
    assert TypeName(M.QueryKind)[6] != TypeName(M.EmptyKind)[6];
  }

  /** The bytes under the checksum. */
  function Covered(m: M.Message): bytes {
    var name := TypeName(m.Kind());
    Be32(|name| + 1) + (name + [0]) + M.Serialize(m)
  }

  function CheckSum(covered: bytes): int32 {
    ToInt32(Adler.Adler32(covered))
  }

  function Seal(covered: bytes): bytes {
    covered + Be32(CheckSum(covered))
  }

  /** A frame without its length. */
  function Body(m: M.Message): bytes {
    Seal(Covered(m))
  }

  /** `static_cast<int32_t>` of a size. */
  function AsLength(n: nat): int32 {
    ToInt32(n % 0x1_0000_0000)
  }

  /** Lengths travel as `int32_t`. */
  predicate Encodable(m: M.Message) {
    |Body(m)| < 0x8000_0000
  }

  function Frame(m: M.Message): bytes {
    Be32(AsLength(|Body(m)|)) + Body(m)
  }

  // ---------------------------------------------------------------------------------------------
  // Parsing one frame
  // ---------------------------------------------------------------------------------------------

  datatype ErrorCode = NoError | InvalidLength | CheckSumError | InvalidNameLen | UnknownMessageType | ParseError

  datatype Outcome = Parsed(message: M.Message) | Rejected(error: ErrorCode)

  function ParseBody(body: bytes): (r: Outcome)
    requires |body| >= 4
    ensures r.Rejected? ==> r.error != NoError
  {
    var len := |body|;
    if AsInt32(body[len - 4..]) != CheckSum(body[..len - 4]) then Rejected(CheckSumError)
    else
      var nameLen := AsInt32(body);
      if !(2 <= nameLen <= len - 8) then Rejected(InvalidNameLen)
      else
        match KindOf(body[4..4 + nameLen - 1])
        case None => Rejected(UnknownMessageType)
        case Some(kind) =>
          match M.ParseFromArray(kind, body[4 + nameLen..len - 4])
          case None => Rejected(ParseError)
          case Some(m) => Parsed(m)
  }

  /** Strings in an encodable message are short enough to be read back. */
  lemma EncodableIsReadable(m: M.Message)
    requires Encodable(m)
    ensures M.Readable(m)
  {
    hide M.EncodeFields, M.EncodeField, Adler.Adler32, TypeName, Be32;
    forall f | f in M.Fields(m) && f.Text? ensures |f.text| < 0x8000_0000 {
      FieldFits(M.Fields(m), f);
    }
  }

  lemma {:induction false} FieldFits(fs: seq<M.Field>, f: M.Field)
    requires f in fs && f.Text?
    ensures |f.text| <= |M.EncodeFields(fs)|
  {
    if fs[0] != f {
      FieldFits(fs[1..], f);
    }
  }

  /** `parse` undoes `fillEmptyBuffer`: a complete message comes back equal. */
  lemma BodyRoundTrip(m: M.Message)
    requires Encodable(m)
    ensures ParseBody(Body(m)) == if m.Initialized() then Parsed(m) else Rejected(ParseError)
  {
    hide M.Serialize, Adler.Adler32, TypeName, Be32, AsInt32, M.ParseFromArray, KindOf;
    var name, data, covered, body := TypeName(m.Kind()), M.Serialize(m), Covered(m), Body(m);
    var len := |body|;
    KindOfTypeName(m.Kind());
    assert body[..len - 4] == covered && body[len - 4..] == Be32(CheckSum(covered));
    AsInt32OfBe32(CheckSum(covered), []);
    assert Be32(CheckSum(covered)) + [] == Be32(CheckSum(covered));
    assert body == Be32(|name| + 1) + ((name + [0]) + data + Be32(CheckSum(covered)));
    AsInt32OfBe32(|name| + 1, (name + [0]) + data + Be32(CheckSum(covered)));
    assert body[4..4 + |name|] == name;
    assert body[5 + |name|..len - 4] == data;
    EncodableIsReadable(m);
    M.PayloadRoundTrip(m);
  }

  /** The length in front counts what follows it, and that parses back. */
  lemma FrameRoundTrip(m: M.Message)
    requires Encodable(m) && m.Initialized()
    ensures AsInt32(Frame(m)) == |Frame(m)| - 4
    ensures ParseBody(Frame(m)[4..]) == Parsed(m)
  {
    hide AsInt32, Be32, Body, ParseBody;
    AsInt32OfBe32(|Body(m)|, Body(m));
    assert Frame(m)[4..] == Body(m);
    BodyRoundTrip(m);
  }

  // ---------------------------------------------------------------------------------------------
  // What the checksum catches
  // ---------------------------------------------------------------------------------------------

  predicate ChecksumHolds(body: bytes)
    requires |body| >= 4
  {
    AsInt32(body[|body| - 4..]) == CheckSum(body[..|body| - 4])
  }

  lemma ChecksumFailureIsReported(body: bytes)
    requires |body| >= 4
    ensures ParseBody(body) == Rejected(CheckSumError) <==> !ChecksumHolds(body)
  {
    hide M.ParseFromArray, KindOf;
  }

  /** Equal checksums are equal sums. */
  lemma CheckSumDistinguishes(a: bytes, b: bytes)
    ensures CheckSum(a) == CheckSum(b) <==> Adler.S1(a) == Adler.S1(b) && Adler.S2(a) == Adler.S2(b)
  {
    hide Adler.S1, Adler.S2;
    if CheckSum(a) == CheckSum(b) {
      Adler.Adler32Injective(a, b);
    }
  }

  /** Any one changed byte of a body that passes, the checksum's own included, is caught. */
  lemma OneByteIsCaught(body: bytes, k: nat, v: byte)
    requires |body| >= 4 && ChecksumHolds(body)
    requires k < |body| && v != body[k]
    ensures ParseBody(body[k := v]) == Rejected(CheckSumError)
  {
    hide CheckSum, AsInt32, ParseBody;
    var n := |body| - 4;
    var changed := body[k := v];
    ChecksumFailureIsReported(changed);
    if k < n {
      assert changed[..n] == body[..n][k := v];
      assert changed[n..] == body[n..];
      Adler.OneByteChangesS1(body[..n], k, v);
      CheckSumDistinguishes(body[..n], changed[..n]);
    } else {
      assert changed[..n] == body[..n];
      assert changed[n..] == body[n..][k - n := v];
      Be32OfAsInt32(body[n..]);
      Be32OfAsInt32(changed[n..]);
      assert changed[n..][k - n] != body[n..][k - n];
    }
  }

  /** A swap of two unequal covered bytes is caught unless their distance is a multiple of 65521. */
  lemma SwapIsCaught(body: bytes, i: nat, j: nat)
    requires |body| >= 4 && ChecksumHolds(body)
    requires i < j < |body| - 4 && body[i] != body[j]
    ensures ParseBody(Adler.Swapped(body, i, j)) == Rejected(CheckSumError) <==> (j - i) % 65521 != 0
  {
    hide CheckSum, AsInt32, ParseBody, Adler.S1, Adler.S2;
    var n := |body| - 4;
    var swapped := Adler.Swapped(body, i, j);
    ChecksumFailureIsReported(swapped);
    assert swapped[..n] == Adler.Swapped(body[..n], i, j);
    assert swapped[n..] == body[n..];
    Adler.SwapChangesS2(body[..n], i, j);
    CheckSumDistinguishes(body[..n], swapped[..n]);
  }

  // ---------------------------------------------------------------------------------------------
  // The receive loop
  // ---------------------------------------------------------------------------------------------

  /** What one iteration of the loop decides. */
  datatype Decision = Wait | Stop(code: ErrorCode) | Take(message: M.Message, size: nat)

  /** An iteration that goes on takes a frame of at least 14 bytes. */
  function Decide(s: bytes): (r: Decision)
    ensures r.Take? ==> 14 <= r.size <= |s|
  {
    if |s| < 14 then Wait
    else
      var len := AsInt32(s);
      if len > 64 * 1024 * 1024 || len < 10 then Stop(InvalidLength)
      else if |s| < len + 4 then Wait
      else
        match ParseBody(s[4..4 + len])
        case Rejected(code) => Stop(code)
        case Parsed(m) => Take(m, 4 + len)
  }

  /** The messages delivered, the frames they came in, the error that stopped the loop, and the bytes left. */
  datatype Delivery = Delivery(messages: seq<M.Message>, frames: seq<bytes>, error: Option<ErrorCode>, rest: bytes)

  function Deliver(s: bytes): (d: Delivery)
    ensures |d.messages| == |d.frames|
    decreases |s|
  {
    match Decide(s)
    case Wait => Delivery([], [], None, s)
    case Stop(code) => Delivery([], [], Some(code), s)
    case Take(m, size) =>
      var d := Deliver(s[size..]);
      Delivery([m] + d.messages, [s[..size]] + d.frames, d.error, d.rest)
  }

  lemma DeliverTakes(s: bytes)
    requires Decide(s).Take?
    ensures
      var d, m, size := Deliver(s[Decide(s).size..]), Decide(s).message, Decide(s).size;
      Deliver(s) == Delivery([m] + d.messages, [s[..size]] + d.frames, d.error, d.rest)
  {
    hide Decide;
  }

  lemma DeliverStops(s: bytes)
    requires !Decide(s).Take?
    ensures Deliver(s) == Delivery([], [], if Decide(s).Stop? then Some(Decide(s).code) else None, s)
  {
    hide Decide;
  }

  // ---------------------------------------------------------------------------------------------
  // The methods
  // ---------------------------------------------------------------------------------------------

  /** An append, as far as the encoder cares: the content grows and the length still fits in front. */
  method Extend(buf: Buffer, data: bytes)
    requires buf.Valid() && buf.PrependableBytes() >= 4
    modifies buf, buf.buffer
    ensures buf.Valid() && buf.PrependableBytes() >= 4 && (buf.buffer == old(buf.buffer) || fresh(buf.buffer))
    ensures buf.Readable() == old(buf.Readable()) + data
  {
    buf.Append(data);
  }

  method Reserve(buf: Buffer, len: nat)
    requires buf.Valid() && buf.PrependableBytes() >= 4
    modifies buf, buf.buffer
    ensures buf.Valid() && buf.PrependableBytes() >= 4 && (buf.buffer == old(buf.buffer) || fresh(buf.buffer))
    ensures buf.Readable() == old(buf.Readable()) && buf.WritableBytes() >= len
  {
    buf.EnsureWritableBytes(len);
  }

  method Commit(buf: Buffer, len: nat, ghost data: bytes)
    requires buf.Valid() && len <= buf.WritableBytes()
    requires buf.buffer[buf.writerIndex..buf.writerIndex + len] == data
    modifies buf
    ensures buf.Valid() && buf.buffer == old(buf.buffer) && buf.PrependableBytes() == old(buf.PrependableBytes())
    ensures buf.Readable() == old(buf.Readable()) + data
  {
    buf.HasWritten(len);
  }

  /** Writing behind the writer index leaves the readable bytes alone. */
  lemma SplitWritten(buf: Buffer, head: bytes, data: bytes, readable: bytes)
    requires buf.Valid() && |head| == buf.writerIndex && |head| + |data| <= buf.buffer.Length
    requires buf.buffer[..|head| + |data|] == head + data && readable == head[buf.readerIndex..]
    ensures buf.Readable() == readable && buf.buffer[|head|..|head| + |data|] == data
  {
    var written := buf.buffer[..|head| + |data|];
    assert buf.Readable() == written[buf.readerIndex..|head|];
    assert buf.buffer[|head|..|head| + |data|] == written[|head|..];
  }

  /** Reserves what `ByteSize` says, serializes there, and commits. */
  method ExtendWithPayload(buf: Buffer, message: O.MessageRef, ghost m: M.Message)
    requires buf.Valid() && buf.PrependableBytes() >= 4 && message.Valid() && message.Value() == m
    modifies buf, buf.buffer
    ensures buf.Valid() && buf.PrependableBytes() >= 4 && (buf.buffer == old(buf.buffer) || fresh(buf.buffer))
    ensures buf.Readable() == old(buf.Readable()) + M.Serialize(m)
  {
    hide M.Serialize;
    var byteSize := message.ByteSize();
    Reserve(buf, byteSize);
    assert message.Valid() && message.Value() == m;
    var start := buf.writerIndex;
    ghost var head, readable := buf.buffer[..start], buf.Readable();
    var end := message.SerializeWithCachedSizesToArray(buf.buffer, start);
    assert end - start == byteSize;
    SplitWritten(buf, head, M.Serialize(m), readable);
    Commit(buf, byteSize, M.Serialize(m));
  }

  method PrependLength(buf: Buffer)
    requires buf.Valid() && buf.PrependableBytes() >= 4
    modifies buf, buf.buffer
    ensures buf.Valid() && buf.Readable() == Be32(AsLength(|old(buf.Readable())|)) + old(buf.Readable())
  {
    buf.Prepend(Be32(AsLength(buf.ReadableBytes())));
  }

  /** The name, its length and the payload. */
  method FillCovered(buf: Buffer, message: O.MessageRef, ghost m: M.Message)
    requires buf.Valid() && buf.Readable() == [] && buf.PrependableBytes() >= 4
    requires message.Valid() && message.Value() == m
    modifies buf, buf.buffer
    ensures buf.Valid() && buf.PrependableBytes() >= 4 && (buf.buffer == old(buf.buffer) || fresh(buf.buffer))
    ensures buf.Readable() == Covered(m)
  {
    hide M.Serialize, TypeName, Be32;
    KindOfTypeName(m.Kind());
    var typeName := TypeName(message.Value().Kind());
    Extend(buf, Be32(|typeName| + 1));
    Extend(buf, typeName + [0]);
    ExtendWithPayload(buf, message, m);
  }

  /**
   Writes the frame of a message into an empty buffer with room for the length in front. That the message is
   complete is only asserted in debug builds.
   */
  method FillEmptyBuffer(buf: Buffer, message: O.MessageRef)
    requires buf.Valid() && buf.Readable() == [] && buf.PrependableBytes() >= 4
    requires message.Valid() && Encodable(message.Value())
    modifies buf, buf.buffer
    ensures buf.Valid() && buf.Readable() == Frame(old(message.Value()))
  {
    hide Covered, Be32, CheckSum, AsLength;
    ghost var m := message.Value();
    FillCovered(buf, message, m);
    var checkSum := CheckSum(buf.Readable());
    Extend(buf, Be32(checkSum));
    assert buf.Readable() == Body(m);
    PrependLength(buf);
  }

  /** `parse`, creating and filling the message object. The object also exists after a parse error. */
  method Parse(buf: bytes) returns (message: Option<O.MessageRef>, error: ErrorCode)
    requires |buf| >= 4
    ensures message.Some? ==> message.value.Valid() && fresh(message.value.Object())
    ensures message.Some? <==> error == NoError || error == ParseError
    ensures ParseBody(buf) == if error == NoError then Parsed(message.value.Value()) else Rejected(error)
  {
    hide M.ParseFromArray, KindOf, CheckSum, AsInt32;
    message := None;
    var len := |buf|;
    var expectedCheckSum := AsInt32(buf[len - 4..]);
    var checkSum := CheckSum(buf[..len - 4]);
    if checkSum != expectedCheckSum {
      return None, CheckSumError;
    }
    var nameLen := AsInt32(buf);
    if !(nameLen >= 2 && nameLen <= len - 8) {
      return None, InvalidNameLen;
    }
    var kind := KindOf(buf[4..4 + nameLen - 1]);
    if kind.None? {
      return None, UnknownMessageType;
    }
    var created := O.NewMessage(kind.value);
    message := Some(created);
    var dataLen := len - nameLen - 8;
    assert 4 + nameLen + dataLen == len - 4;
    var ok := created.ParseFromArray(buf[4 + nameLen..4 + nameLen + dataLen]);
    error := if ok then NoError else ParseError;
  }

  method Drop(buf: Buffer, len: nat)
    requires buf.Valid() && len <= buf.ReadableBytes()
    modifies buf
    ensures buf.Valid() && buf.buffer == old(buf.buffer)
    ensures buf.Readable() == old(buf.Readable())[len..]
  {
    buf.Retrieve(len);
  }

  /** The receive loop; the message callback is the growing `delivered`, the error callback the result `error`. */
  method OnMessage(buf: Buffer) returns (delivered: seq<M.Message>, error: Option<ErrorCode>)
    requires buf.Valid()
    modifies buf
    ensures buf.Valid() && buf.buffer == old(buf.buffer)
    ensures
      var d := Deliver(old(buf.Readable()));
      delivered == d.messages && error == d.error && buf.Readable() == d.rest
  {
    hide ParseBody, AsInt32, Deliver;
    delivered := [];
    error := None;
    ghost var all := Deliver(buf.Readable());
    while buf.ReadableBytes() >= 14
      invariant buf.Valid() && buf.buffer == old(buf.buffer) && error == None
      invariant delivered + Deliver(buf.Readable()).messages == all.messages
      invariant Deliver(buf.Readable()).error == all.error && Deliver(buf.Readable()).rest == all.rest
      decreases buf.ReadableBytes()
    {
      ghost var s := buf.Readable();
      var len := AsInt32(buf.Readable());
      if len > 64 * 1024 * 1024 || len < 10 {
        error := Some(InvalidLength);
        break;
      } else if buf.ReadableBytes() >= len + 4 {
        var message, errorCode := Parse(buf.Readable()[4..4 + len]);
        if errorCode == NoError && message.Some? {
          delivered := delivered + [message.value.Value()];
          DeliverTakes(s);
          Drop(buf, 4 + len);
          assert delivered + Deliver(buf.Readable()).messages == all.messages;
        } else {
          error := Some(errorCode);
          break;
        }
      } else {
        break;
      }
    }
    DeliverStops(buf.Readable());
  }
}
