/** The second codec for the same format, which builds and reads strings. */
module DescriptorCodec {
  import opened Bytes
  import opened Wrappers
  import Adler
  import Codec
  import M = Messages
  import O = MessageObjects

  /** `AppendToString`: the string grows by the message's size, which the library limits to an `int`. */
  method AppendToString(message: O.MessageRef, result: bytes, ghost m: M.Message) returns (grown: bytes, succeed: bool)
    requires message.Valid() && message.Value() == m
    ensures succeed <==> |M.Serialize(m)| < 0x8000_0000
    ensures succeed ==> grown == result + M.Serialize(m)
  {
    hide M.Serialize;
    var byteSize := message.ByteSize();
    if byteSize >= 0x8000_0000 {
      return result, false;
    }
    var target := new byte[byteSize](_ => 0);
    var end := message.SerializeWithCachedSizesToArray(target, 0);
    assert target[..end] == M.Serialize(m);
    return result + target[..end], true;
  }

  /** Grows the string part by part and patches the length in last; cleared if the message is too long. */
  method Encode(message: O.MessageRef) returns (result: bytes)
    requires message.Valid()
    ensures result == if |M.Serialize(message.Value())| < 0x8000_0000 then Codec.Frame(message.Value()) else []
  {
    hide M.Serialize, Adler.Adler32, Codec.TypeName, Be32, Codec.CheckSum;
    ghost var m := message.Value();
    Codec.KindOfTypeName(m.Kind());
    result := [0, 0, 0, 0];
    var typeName := Codec.TypeName(message.Value().Kind());
    result := result + Be32(|typeName| + 1);
    result := result + (typeName + [0]);
    var succeed;
    result, succeed := AppendToString(message, result, m);
    if succeed {
      assert result[4..] == Codec.Covered(m);
      var checkSum := Codec.CheckSum(result[4..]);
      result := result + Be32(checkSum);
      assert result[4..] == Codec.Body(m);
      var len := Be32(Codec.AsLength(|result| - 4));
      result := len + result[4..];
    } else {
      result := [];
    }
  }

  /** `decode` as nested tests, with its own length guard and no error codes; the length is cast to an `int32_t`. */
  function DecodeString(buf: bytes): Option<M.Message> {
    var len := Codec.AsLength(|buf|);
    if len >= 10 && Codec.CheckSum(buf[..len - 4]) == AsInt32(buf[|buf| - 4..]) && 2 <= AsInt32(buf) <= len - 8 then
      var nameLen := AsInt32(buf);
      var kind := Codec.KindOf(buf[4..4 + nameLen - 1]);
      if kind.Some? then M.ParseFromArray(kind.value, buf[4 + nameLen..4 + nameLen + (len - nameLen - 8)])
      else None
    else None
  }

  method Decode(buf: bytes) returns (result: Option<O.MessageRef>)
    ensures result.Some? ==> result.value.Valid() && fresh(result.value.Object())
    ensures DecodeString(buf) == if result.Some? then Some(result.value.Value()) else None
  {
    hide M.ParseFromArray, Codec.KindOf, Codec.CheckSum, AsInt32;
    result := None;
    var len := Codec.AsLength(|buf|);
    if len >= 10 {
      var expectedCheckSum := AsInt32(buf[|buf| - 4..]);
      var checkSum := Codec.CheckSum(buf[..len - 4]);
      if checkSum == expectedCheckSum {
        var nameLen := AsInt32(buf);
        if nameLen >= 2 && nameLen <= len - 8 {
          var kind := Codec.KindOf(buf[4..4 + nameLen - 1]);
          if kind.Some? {
            var message := O.NewMessage(kind.value);
            var dataLen := len - nameLen - 8;
            var ok := message.ParseFromArray(buf[4 + nameLen..4 + nameLen + dataLen]);
            if ok {
              result := Some(message);
            }
          }
        }
      }
    }
  }

  /**
   The two decoders accept the same strings and read the same messages from them. `parse` lacks the length
   guard, but its test of `nameLen` rejects everything the guard does. `parse` takes its length as an `int`.
   */
  lemma DecodersAgree(buf: bytes)
    requires 4 <= |buf| < 0x8000_0000
    ensures DecodeString(buf) ==
      match Codec.ParseBody(buf)
      case Parsed(m) => Some(m)
      case Rejected(_) => None
  {
    hide M.ParseFromArray, Codec.KindOf, Codec.CheckSum, AsInt32;
    var nameLen := AsInt32(buf);
    if 2 <= nameLen <= |buf| - 8 {
      assert 4 + nameLen + (|buf| - nameLen - 8) == |buf| - 4;
    }
  }

  /** Strings of 2 to 4 GiB have a negative length as an `int32_t` and are refused. */
  lemma LongStringIsRefused(buf: bytes)
    requires 0x8000_0000 <= |buf| < 0x1_0000_0000
    ensures DecodeString(buf) == None
  {
    hide M.ParseFromArray, Codec.KindOf, Codec.CheckSum, AsInt32;
  }

  /** What one codec writes the other reads: `decode` undoes `fillEmptyBuffer` past the length. */
  lemma CrossRoundTrip(m: M.Message)
    requires Codec.Encodable(m) && m.Initialized()
    ensures DecodeString(Codec.Frame(m)[4..]) == Some(m)
  {
    hide Codec.Body, DecodeString, Codec.ParseBody;
    Codec.FrameRoundTrip(m);
    LongEnough(m);
    DecodersAgree(Codec.Frame(m)[4..]);
  }

  lemma LongEnough(m: M.Message)
    ensures |Codec.Frame(m)| >= 8
  {
  }
}
