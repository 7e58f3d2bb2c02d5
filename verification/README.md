# A verified model of LearningMuduo

This project models five parts of the repository in Dafny and proves what they promise for every input,
every sequence of calls and every interleaving.

- **The protobuf transport.** `Buffer.dfy` is the network buffer (one array, two indices, compaction, growth,
  cheap prepend). `Wire.dfy`, `Messages.dfy`, `ArrayWriter.dfy` and `MessageObjects.dfy` are the generated
  `Query`, `Answer` and `Empty` classes down to varints. `Adler.dfy` is the checksum of section 2.2 of
  RFC 1950. `Codec.dfy` and `CodecStream.dfy` are the length-prefixed codec and its receive loop on a
  stream, `DescriptorCodec.dfy` the second codec for the same format. `WireFormat.dfy` and `FrameFormat.dfy` say in
  bytes what payloads and frames are and what becomes of everything else.
- **Byte order.** `Endian.dfy` is the repository's own `Endian.h`.
- **Two idle-connection servers.** `TimingWheel.dfy` (buckets of counted entries), `SortedList.dfy` (a list in
  order of last activity) and `WheelVersusList.dfy` (both on one trace).
- **Copy-on-write and lock order.** `CopyOnWrite.dfy`, `CopyOnWriteProgress.dfy`, `InventoryLocks.dfy`,
  `InventoryPrinting.dfy` and `InventoryDeadlock.dfy`, as interleaved atomic steps of any number of calls or threads.
- **Integer formatting.** `LogStream.dfy`, in place into a bounded buffer.

Code that changes state in the source is imperative here: classes with the source's fields, and loops with
invariants. The methods of the buffer, the messages, the codecs, the two servers and the log stream are proved
equal to functions on values (`Step`, `Scan`, `ParseLoop`, `Deliver`, `Numeral`), and the promises are proved
about those functions. Concurrent code is a state machine of atomic steps; the two critical sections of
copy-on-write are also given as methods (`CopyOnWrite.Shared`), and `CopyOnWrite.WriterIsWrite` and
`CopyOnWrite.ReaderIsAcquire` say which steps of the machine they are. The lock-order modules have no methods.

## Main results

1. *Streaming.* For any list of complete messages with bodies of at most 64 MiB and any cut of what has
   arrived of their frames, the receive loop delivers exactly the messages whose frames are complete and
   keeps a proper prefix of the next one (`CodecStream.StreamingIsLossless`). For arbitrary bytes, malformed
   ones included, the outcome does not depend on the cut (`CodecStream.ChunkIndependence`).
   Every frame that is there in full is delivered or reported: the loop stops only for missing bytes or for an error
   that the bytes left show (`FrameFormat.DeliverStopsForAReason`), and `parse` gives each error exactly under its own
   condition (`FrameFormat.ParseBodyExactly`). A corrupt frame is reported after the messages before it
   (`FrameFormat.CorruptFrameIsReported`).
2. *Merge law.* Parsing concatenated encodings is merging (`Messages.MergeLaw`), and so it is for any bytes the
   parser accepts, whether or not this serializer wrote them (`Messages.AcceptedIsMerged`). The classes' loops,
   serializers and size computations are proved against the same wire form. Fields of any wire type that a message
   does not declare, groups included, are skipped (`WireFormat.UnknownFieldIsSkipped`); a payload is accepted exactly
   if its fields reach to its end and the required ones are among them (`WireFormat.AcceptedExactly`).
3. *Checksum.* It is Adler-32 in closed form (`Adler.Adler32IsClosedForm`). Any one changed byte is reported
   (`Codec.OneByteIsCaught`); a swap of unequal covered bytes is reported if and only if their distance is no
   multiple of 65521 (`Codec.SwapIsCaught`), which needs that 65521 has no common factor with a byte difference.
4. *Buffer.* Any sequence of calls on the object refines a byte queue (`NetBuffer.PerformAll`), making space is
   sound, and the space bound is exact: `M + L + 7` for requests of at most `L` below the total `M`
   (`NetBuffer.SpaceBound`, `NetBuffer.SpaceBoundIsTight`), one less when one request may be for the whole total
   (`NetBuffer.SpaceBoundWhole`, `NetBuffer.SpaceBoundWholeIsTight`).
5. *Idle connections.* The wheel is a last-active counter per connection (`TimingWheel.WheelIsCounters`),
   and what it drops is decided by the events alone (`TimingWheel.DropsAreByTrace`). The
   early-exit scan shuts down exactly those not heard from for longer than the limit when the clock is monotone,
   and errs by at most the clock skew either way otherwise (`SortedList.EveryTickIsExact`); neither limit can be
   improved (`SortedList.LowerLimitIsSharp`, `SortedList.UpperLimitIsSharp`). The list shuts down one tick after
   the wheel and never before it, also when times within a second are out of order (`WheelVersusList`).
6. *Copy-on-write and locks.* In every interleaving, with posts made from inside a traversal, lists change only
   under their sole owner, traversals see the posts before their lock point, and the order is that of real time
   (`CopyOnWrite.TraversalsAreLinearizable`, `CopyOnWrite.RealTimeOrder`), and all calls finish
   (`CopyOnWriteProgress.EveryCallFinishes`). `printAll` prints what is registered while it has the inventory,
   whatever others do (`InventoryPrinting.PrintAllPrintsRegistered`). The fixed inventory never deadlocks
   and always finishes (`InventoryLocks.FixedAlwaysFinishes`). The original one deadlocks on some schedule if
   and only if the programs have a conflict that can be read off them
   (`InventoryDeadlock.DeadlocksExactlyOnConflict`).
7. *Formatting.* Decimals and integers are in bijection, the loops produce them in place, and a chain of
   inserts keeps a prefix (`LogStream.InsertsKeepAPrefix`).

## Where the code falls short

- `PracticeMuduo/socket.muduo/Endian.h` declares `networkToHost32` and `networkToHost64` to return `uint16_t`
  and `hostToNetwork64` to return `uint32_t`. With these helpers a 32-bit integer survives `appendInt32` and
  `readInt32` exactly when it is in `[0, 65536)` (`Endian.Int32RoundTripIff`), and `appendInt64` followed by
  `readInt64` always gives 0, so only 0 survives (`Endian.Int64RoundTripIff`). 16-bit and 8-bit integers
  survive always. The codec includes muduo's own `Buffer` and `Endian`, which do not narrow; `Codec.dfy`
  follows that, and `CodecStream.NarrowLengthIff` says which frames the narrow helper would still understand.
- `Inventory::printAll` of ch2/2.1.cpp calls `print()` inside its critical section. Some schedule of given
  programs then gets stuck exactly when one thread's `printAll` and another thread's `process` or destructor of
  a request can meet with that request registered (`InventoryDeadlock.Conflict`); the two threads then never
  take another step (`InventoryDeadlock.EmbraceIsForGood`).
- When the clock jumps back, `onTimer` of sortedlist.cc moves stored times back with it. A connection may then be
  shut down though it was heard from less than the limit ago, by at most the size of the jump
  (`SortedList.LowerLimitIsSharp`).
- `fillEmptyBuffer` has no length limit although `onMessage` has one. A frame is delivered exactly when its
  body is at most 64 MiB and is an `InvalidLength` otherwise (`CodecStream.DecideFrame`).
- `decode` guards against strings shorter than 10 bytes and `parse` does not. The guard changes nothing for
  strings of at least 4 bytes (`DescriptorCodec.DecodersAgree`).

## Conventions

A `byte` is an integer below 256. Sizes are unbounded naturals; where the source casts to `int32_t`, so does
the model (`Codec.AsLength`); a string's length is an `int` in the protobuf library, so the merge law is about
strings below 2^31 bytes (`Messages.Readable`), and `AppendToString` refuses messages of 2^31 bytes or more. Hosts are little-endian. `TcpConnection`, timers and `readv` are events and
parameters. Times are integers: microseconds in `WheelVersusList.dfy`, any one unit in `SortedList.dfy`. A
skew of 0 is a monotone clock. `hide` statements keep definitions out of proofs that do not need them.

## Model

| member | source | states |
|---|---|---|
| `Endian.Int16RoundTrip` | PracticeMuduo/tcp.muduo/Buffer.h:235-239 | every int16 appended is read back, whatever follows |
| `Endian.Int8RoundTrip` | PracticeMuduo/tcp.muduo/Buffer.h:314-319 | every int8 appended is read back |
| `Endian.Int32RoundTripIff` | PracticeMuduo/tcp.muduo/Buffer.h:298-304 | an int32 is read back unchanged exactly when it is in [0, 65536), and otherwise modulo 65536 |
| `Endian.Int64RoundTripIff` | PracticeMuduo/tcp.muduo/Buffer.h:286-292 | an appended int64 is always read back as 0 |
| `Endian.Be32IsBigEndian` | protobuf/codec/codec.cc:45-46 | the 32-bit conversions are big-endian and two's complement |
| `Endian.StoreInt64IsUpperHalf` | PracticeMuduo/tcp.muduo/Buffer.h:220-224 | the eight bytes of an appended int64 hold its upper half, big-endian, and then zeros |
| `Endian.LoadsAre` | PracticeMuduo/tcp.muduo/Buffer.h:286-310 | the narrowed reads of 32 and 64 bits see the last two bytes only |
| `NetBuffer.MakeSpaceIsSound` | PracticeMuduo/tcp.muduo/Buffer.h:390-409 | under the caller's guard the compaction assertion holds, space suffices, the array never shrinks and prepend room is kept |
| `NetBuffer.Step` | PracticeMuduo/tcp.muduo/Buffer.h:105-214 | every enabled operation keeps 0 <= reader <= writer <= size and content length = writer - reader |
| `NetBuffer.PerformAll` | PracticeMuduo/tcp.muduo/Buffer.h:105-214 | over every sequence of calls on a buffer object the bytes between its indices are those of a plain byte queue, and size and indices are those of the layout run |
| `NetBuffer.AppendInTwoSteps` | PracticeMuduo/tcp.muduo/Buffer.h:174-179 | reserving and then committing is appending |
| `NetBuffer.ReadFdInTwoSteps` | PracticeMuduo/tcp.muduo/Buffer.cpp:37-41 | a read that overflows the tail is a commit of the tail and an append of the rest |
| `NetBuffer.SpaceBound` | PracticeMuduo/tcp.muduo/Buffer.h:186-193 | with requests of at most L and readable plus requested at most M the array stays within max(size, M + L + 7) |
| `NetBuffer.SpaceBoundIsTight` | PracticeMuduo/tcp.muduo/Buffer.h:390-396 | for all 1 <= L < M a run from an initial buffer of M - 1 bytes ends at a size of exactly M + L + 7 |
| `NetBuffer.SpaceBoundWhole` | PracticeMuduo/tcp.muduo/Buffer.h:390-409 | when L = M >= 2 the array stays within max(size, 2M + 6) |
| `NetBuffer.SpaceBoundWholeIsTight` | PracticeMuduo/tcp.muduo/Buffer.h:211-215 | for all L = M >= 2 a run with an `unwrite` ends at a size of exactly 2M + 6 |
| `NetBuffer.GrowsExactlyWhenFull` | PracticeMuduo/tcp.muduo/Buffer.h:390-409 | the array grows if and only if the readable bytes, the request and 8 bytes do not fit in it, and then to exactly the request |
| `NetBuffer.TakingAllResets` | PracticeMuduo/tcp.muduo/Buffer.h:105-149 | taking everything gives the whole array back behind 8 prependable bytes; taking less moves the reader index only |
| `NetBuffer.ShrinkIsSnug` | PracticeMuduo/tcp.muduo/Buffer.h:358-365 | shrinking leaves the content, the reserve and 8 bytes, but at least the initial size |
| `NetBuffer.RoomInFront` | PracticeMuduo/tcp.muduo/Buffer.h:350-356 | on every run without prepend 8 bytes stay prependable |
| `NetBuffer.Buffer.constructor` | PracticeMuduo/tcp.muduo/Buffer.h:32-40 | an empty buffer with 8 prependable and initialSize writable bytes |
| `NetBuffer.Buffer.Swap` | PracticeMuduo/tcp.muduo/Buffer.h:45-50 | content, indices and arrays change places |
| `NetBuffer.Buffer.Retrieve` | PracticeMuduo/tcp.muduo/Buffer.h:105-116 | drops a prefix; taking everything resets the indices |
| `NetBuffer.Buffer.RetrieveAll` | PracticeMuduo/tcp.muduo/Buffer.h:145-149 | drops everything |
| `NetBuffer.Buffer.RetrieveAsString` | PracticeMuduo/tcp.muduo/Buffer.h:156-162 | returns the prefix it drops |
| `NetBuffer.Buffer.MakeSpace` | PracticeMuduo/tcp.muduo/Buffer.h:390-409 | grows or slides down; the readable bytes are unchanged |
| `NetBuffer.Buffer.EnsureWritableBytes` | PracticeMuduo/tcp.muduo/Buffer.h:186-193 | at least the asked room, the readable bytes unchanged |
| `NetBuffer.Buffer.HasWritten` | PracticeMuduo/tcp.muduo/Buffer.h:205-209 | the bytes behind the writer index become readable |
| `NetBuffer.Buffer.Append` | PracticeMuduo/tcp.muduo/Buffer.h:174-179 | the content grows by the data at its end |
| `NetBuffer.Buffer.Unwrite` | PracticeMuduo/tcp.muduo/Buffer.h:211-215 | drops a suffix |
| `NetBuffer.Buffer.Prepend` | PracticeMuduo/tcp.muduo/Buffer.h:350-356 | the content grows by the data at its front, in the same array |
| `NetBuffer.Buffer.Shrink` | PracticeMuduo/tcp.muduo/Buffer.h:358-365 | the same content in a fresh array with the reserve |
| `NetBuffer.Buffer.ReadFd` | PracticeMuduo/tcp.muduo/Buffer.cpp:15-47 | the received bytes end up appended across both segments; an error changes nothing |
| `NetBuffer.Buffer.AppendInt64` | PracticeMuduo/tcp.muduo/Buffer.h:220-224 | appends the narrowed big-endian bytes |
| `NetBuffer.Buffer.AppendInt32` | PracticeMuduo/tcp.muduo/Buffer.h:229-233 | appends the four big-endian bytes |
| `NetBuffer.Buffer.AppendInt16` | PracticeMuduo/tcp.muduo/Buffer.h:235-239 | appends the two big-endian bytes |
| `NetBuffer.Buffer.ReadInt64` | PracticeMuduo/tcp.muduo/Buffer.h:250-255 | reads through the narrowing helper and drops 8 bytes |
| `NetBuffer.Buffer.ReadInt32` | PracticeMuduo/tcp.muduo/Buffer.h:261-266 | reads through the narrowing helper and drops 4 bytes |
| `NetBuffer.Buffer.ReadInt16` | PracticeMuduo/tcp.muduo/Buffer.h:268-273 | reads and drops 2 bytes |
| `NetBuffer.Buffer.PrependInt32` | PracticeMuduo/tcp.muduo/Buffer.h:333-337 | prepends the four big-endian bytes |
| `Adler.Adler32IsClosedForm` | protobuf/codec/codec.cc:39-43 | the low half is one plus the sum of the bytes, the high half n plus the sum of (n - i) times byte i, both modulo 65521 |
| `Adler.ReducedSums` | protobuf/codec/codec.cc:39-42 | the modular sums differ from the plain ones by multiples of 65521 |
| `Adler.ChangedSums` | protobuf/codec/codec.cc:166-169 | what one changed byte does to both sums |
| `Adler.OneByteChangesS1` | protobuf/codec/codec.cc:166-170 | one changed byte changes the first sum |
| `Adler.NoZeroProduct` | protobuf/codec/codec.cc:166-170 | no distance below 65521 times a byte difference is a multiple of 65521 |
| `Adler.SwapChangesS2` | protobuf/codec/codec.cc:166-170 | swapping two unequal bytes keeps the first sum, and changes the second if and only if their distance is no multiple of 65521 |
| `Wire.DecodeOfEncode` | protobuf/codec/query.pb.cc:301-303 | decoding undoes encoding of any varint within the byte limit, whatever follows |
| `Wire.VarintSizeIsLength` | protobuf/codec/query.pb.cc:455-460 | the size function is the encoded length |
| `Wire.ReadVarint64OfEncode` | protobuf/codec/query.pb.cc:301-303 | any 64-bit value is read back, and its low 32 bits by the 32-bit read |
| `Wire.Int32SizeIsInt64Size` | protobuf/codec/query.pb.cc:1190-1194 | a negative int32 is counted as the ten bytes its sign extension takes |
| `Wire.ReadStringOfEncode` | protobuf/codec/query.pb.cc:314-315 | a string shorter than 2^31 is read back, whatever follows |
| `Wire.SkipIgnoresRest` | protobuf/codec/query.pb.cc:343-351 | how much of the input an unknown field takes does not depend on what follows it |
| `Wire.SkipField` | protobuf/codec/query.pb.cc:343-351 | skipping an unknown field, groups included, stays inside the input |
| `Wire.ReadVarintIs` | protobuf/codec/query.pb.cc:301-315 | any varint that ends within ten bytes, shortest or not, is read by its groups of seven bits, and a string by the length it gives if that is below 2^31 and inside the input |
| `WireFormat.VarintIsShortest` | protobuf/codec/query.pb.cc:409-413 | the written varint is the shortest, its groups of seven bits make up the value |
| `WireFormat.SerializeIs` | protobuf/codec/query.pb.cc:402-442 | the bytes of each kind of message, by tags and in the order of field numbers, negative integers as 64-bit two's complement |
| `WireFormat.UnknownFieldIsSkipped` | protobuf/codec/query.pb.cc:343-351 | an undeclared field of any wire type changes nothing if its groups nest at most 100 deep, and is an error otherwise |
| `WireFormat.MalformedTagIsRefused` | protobuf/codec/query.pb.cc:343-351 | wire types 4, 6 and 7 and field number 0 are errors |
| `WireFormat.EmptyTakesLowBits` | protobuf/codec/query.pb.cc:1105-1118 | an `Empty` takes the low 32 bits of any varint |
| `WireFormat.AcceptedExactly` | protobuf/codec/query.pb.cc:552-555 | a payload is accepted as a message if and only if the loop reaches the end of the input with it and every required field of its kind is present |
| `WireFormat.ZeroTagIsRefused` | protobuf/codec/query.pb.cc:345-347 | a zero tag behind an accepted payload makes it refused |
| `WireFormat.TruncatedFieldIsRefused` | protobuf/codec/query.pb.cc:297-341 | no proper part of a declared field is taken for the end of the input |
| `Messages.ParseEncodedField` | protobuf/codec/query.pb.cc:291-353 | one turn of the tag loop applies one encoded field and continues with the rest |
| `Messages.ApplyFieldsIsMerge` | protobuf/codec/query.pb.cc:517-536 | applying a message's fields one by one is merging it |
| `Messages.ParseSerialized` | protobuf/codec/query.pb.cc:286-361 | parsing a serialized message into any message merges it and leaves the rest of the input |
| `Messages.MergeLaw` | protobuf/codec/query.pb.cc:286-536 | parsing serialize(a) ++ serialize(b) into m gives m merged with a and then b, for all has-bit patterns of all three types and strings below 2^31 bytes |
| `Messages.AcceptedIsMerged` | protobuf/codec/query.pb.cc:286-361 | bytes a new message accepts to their end, canonical or not and with unknown fields among them, are merged into any message whatever follows them |
| `Messages.ConcatenationIsMerge` | protobuf/codec/query.pb.cc:286-536 | the concatenation of two accepted inputs parses to the merge of what they parse to |
| `Messages.PayloadRoundTrip` | protobuf/codec/query.pb.cc:402-442 | a serialized message parses back equal if complete, and is refused otherwise |
| `Messages.MergeIntoFresh` | protobuf/codec/query.pb.cc:545-550 | merging into a new message copies |
| `ArrayWriter.WriteVarintToArray` | protobuf/codec/query.pb.cc:409-413 | the varint loop writes the encoding and nothing outside it |
| `ArrayWriter.WriteIntToArray` | protobuf/codec/query.pb.cc:411-413 | writes an encoded varint field at the position and nothing else |
| `ArrayWriter.WriteStringToArray` | protobuf/codec/query.pb.cc:421-423 | writes an encoded string field at the position and nothing else |
| `ArrayWriter.WriteStringsToArray` | protobuf/codec/query.pb.cc:426-434 | the repeated-field loop writes the encodings in order |
| `ArrayWriter.StringsSize` | protobuf/codec/query.pb.cc:487-493 | the repeated-field size loop counts the encoded bytes |
| `MessageObjects.CodedInputStream.ReadTagWithCutoffNoLastTag` | protobuf/codec/query.pb.cc:292-294 | a tag, or zero at the end of the input and for a malformed tag, and whether the end is legitimate |
| `MessageObjects.Query.Clear` | protobuf/codec/query.pb.cc:269-284 | the fields are those of a new message, relying on absent fields being empty |
| `MessageObjects.Query.MergeField` | protobuf/codec/query.pb.cc:295-351 | the switch on one tag does what the value-level field parser does |
| `MessageObjects.Query.MergePartialFromCodedStream` | protobuf/codec/query.pb.cc:286-361 | the loop ends on every input with the value-level outcome |
| `MessageObjects.Query.ParseFromArray` | protobuf/codec/codec.cc:184-191 | succeeds exactly when the whole input parses to a complete message, which is then the object's value |
| `MessageObjects.Query.InternalSerializeWithCachedSizesToArray` | protobuf/codec/query.pb.cc:402-442 | writes the wire form at the position and nothing else |
| `MessageObjects.Query.RequiredFieldsByteSizeFallback` | protobuf/codec/query.pb.cc:444-463 | the encoded size of the present singular fields |
| `MessageObjects.Query.ByteSizeLong` | protobuf/codec/query.pb.cc:464-500 | fast path or fallback, the number of bytes the serializer writes |
| `MessageObjects.Query.MergeFrom` | protobuf/codec/query.pb.cc:517-536 | the object becomes the merge of both values |
| `MessageObjects.Query.CopyFrom` | protobuf/codec/query.pb.cc:545-550 | the object becomes equal to the other, also when it is the other |
| `MessageObjects.Answer.Clear` | protobuf/codec/query.pb.cc:655-676 | the fields are those of a new message |
| `MessageObjects.Answer.MergeField` | protobuf/codec/query.pb.cc:687-759 | the switch on one tag does what the value-level field parser does |
| `MessageObjects.Answer.MergePartialFromCodedStream` | protobuf/codec/query.pb.cc:678-769 | the loop ends on every input with the value-level outcome |
| `MessageObjects.Answer.InternalSerializeWithCachedSizesToArray` | protobuf/codec/query.pb.cc:820-871 | writes the wire form at the position and nothing else |
| `MessageObjects.Answer.RequiredFieldsByteSizeFallback` | protobuf/codec/query.pb.cc:873-899 | the encoded size of the present singular fields |
| `MessageObjects.Answer.ByteSizeLong` | protobuf/codec/query.pb.cc:900-941 | the number of bytes the serializer writes |
| `MessageObjects.Answer.MergeFrom` | protobuf/codec/query.pb.cc:958-981 | the object becomes the merge of both values |
| `MessageObjects.Answer.CopyFrom` | protobuf/codec/query.pb.cc:990-995 | the object becomes equal to the other |
| `MessageObjects.Empty.Clear` | protobuf/codec/query.pb.cc:1085-1094 | the fields are those of a new message |
| `MessageObjects.Empty.MergeField` | protobuf/codec/query.pb.cc:1105-1128 | the switch on one tag, the id taken from the low 32 bits |
| `MessageObjects.Empty.MergePartialFromCodedStream` | protobuf/codec/query.pb.cc:1096-1138 | the loop ends on every input with the value-level outcome |
| `MessageObjects.Empty.InternalSerializeWithCachedSizesToArray` | protobuf/codec/query.pb.cc:1159-1178 | writes the wire form, a negative id sign-extended |
| `MessageObjects.Empty.ByteSizeLong` | protobuf/codec/query.pb.cc:1180-1201 | the number of bytes the serializer writes |
| `MessageObjects.Empty.MergeFrom` | protobuf/codec/query.pb.cc:1218-1228 | the object becomes the merge of both values |
| `MessageObjects.Empty.CopyFrom` | protobuf/codec/query.pb.cc:1237-1242 | the object becomes equal to the other |
| `MessageObjects.NewMessage` | protobuf/codec/codec.cc:141-156 | a fresh empty object of the named type |
| `Codec.KindOfTypeName` | protobuf/codec/codec.cc:141-156 | the three type names are told apart |
| `Codec.BodyRoundTrip` | protobuf/codec/codec.cc:160-214 | `parse` undoes `fillEmptyBuffer` on every complete message and refuses every incomplete one |
| `Codec.FrameRoundTrip` | protobuf/codec/codec.cc:15-47 | the length in front of a complete message's frame counts what follows it, and that parses back to the message |
| `Codec.OneByteIsCaught` | protobuf/codec/codec.cc:164-211 | changing any one byte of a body that passes gives a checksum error |
| `Codec.SwapIsCaught` | protobuf/codec/codec.cc:164-211 | swapping two unequal covered bytes of a body that passes gives a checksum error if and only if their distance is no multiple of 65521 |
| `FrameFormat.FrameIs` | protobuf/codec/codec.h:26-33 | every part of a frame by its place: big-endian lengths, the literal name and its zero, the payload, the big-endian Adler-32 |
| `FrameFormat.ParseBodyExactly` | protobuf/codec/codec.cc:160-214 | each error of `parse` if and only if its own condition holds, in the order of the tests, with the names as literals; the message otherwise |
| `FrameFormat.ParsedIsNamed` | protobuf/codec/codec.cc:178-191 | a parsed message is of the kind the frame spells out and has every required field |
| `FrameFormat.DecideExactly` | protobuf/codec/codec.cc:109-137 | the loop waits only for missing bytes, reports a bad length, and delivers or reports every frame there in full |
| `FrameFormat.DeliverStopsForAReason` | protobuf/codec/codec.cc:107-138 | for every input, the error or its absence can be read off the bytes the loop left |
| `FrameFormat.RejectedBodyIsReported` | protobuf/codec/codec.cc:127-131 | after any list of frames, a body that `parse` rejects is reported with its code and left with what follows |
| `FrameFormat.CorruptFrameIsReported` | protobuf/codec/codec.cc:107-138 | one changed byte in a body anywhere in a stream: the messages before arrive, a checksum error is reported, the rest stays |
| `FrameFormat.BadLengthIsReported` | protobuf/codec/codec.cc:111-116 | a length outside 10 bytes to 64 MiB is reported after the messages before it |
| `Codec.Decide` | protobuf/codec/codec.cc:109-137 | an iteration stops or takes a frame of at least 14 bytes that has arrived |
| `Codec.FillEmptyBuffer` | protobuf/codec/codec.cc:15-47 | from an empty buffer with 4 prependable bytes, the readable bytes become the frame |
| `Codec.ExtendWithPayload` | protobuf/codec/codec.cc:28-37 | the reserved size is the size written and committed |
| `Codec.Parse` | protobuf/codec/codec.cc:160-214 | the error code and message of the value-level parser, in a fresh object |
| `Codec.OnMessage` | protobuf/codec/codec.cc:107-138 | the loop delivers, reports and leaves what the value-level loop does |
| `CodecStream.DeliverReconstructs` | protobuf/codec/codec.cc:107-138 | consumed frames and residue are the input, and each frame carries the message delivered for it |
| `CodecStream.DecisionIsFinal` | protobuf/codec/codec.cc:109-137 | a decision other than waiting is not changed by later bytes |
| `CodecStream.PrefixFirst` | protobuf/codec/codec.cc:107-138 | running the loop on a prefix first gives the same deliveries, residue and error |
| `CodecStream.ChunkIndependence` | protobuf/codec/codec.cc:107-138 | for arbitrary bytes the outcome depends only on the total received |
| `CodecStream.AnyTwoCutsAgree` | protobuf/codec/codec.cc:107-138 | two ways of cutting a stream cannot be told apart |
| `CodecStream.DecideFrame` | protobuf/codec/codec.cc:111-126 | a whole frame is delivered if and only if its body is at most 64 MiB, and is a length error otherwise |
| `CodecStream.DeliverStream` | protobuf/codec/codec.cc:107-138 | from any prefix of a stream of frames exactly the complete ones are delivered |
| `CodecStream.StreamingIsLossless` | protobuf/codec/codec.cc:15-138 | the same however the prefix is cut into chunks, with a proper prefix of the next frame left |
| `CodecStream.WholeStreamArrives` | protobuf/codec/codec_test.cc:224-238 | once everything has arrived everything is delivered and nothing is left |
| `CodecStream.Session` | protobuf/codec/codec_test.cc:224-238 | appending chunks to a buffer and calling `onMessage` after each delivers, reports and leaves what it would had all come at once |
| `CodecStream.NarrowLengthIff` | PracticeMuduo/tcp.muduo/Buffer.h:298-304 | the narrowing helper would read the length of exactly the frames with bodies below 65536 bytes |
| `DescriptorCodec.Encode` | protobuf/descriptor_test/codec.h:54-86 | for every message, complete or not, the string is byte for byte the frame of the other codec, or empty if the message has 2^31 bytes or more |
| `DescriptorCodec.Decode` | protobuf/descriptor_test/codec.h:97-134 | a fresh object exactly when the string decodes, its length cast to an `int32_t` |
| `DescriptorCodec.DecodersAgree` | protobuf/descriptor_test/codec.h:97-134 | both decoders accept the same strings of 4 bytes to 2^31 - 1 and read the same messages |
| `DescriptorCodec.LongStringIsRefused` | protobuf/descriptor_test/codec.h:101-102 | strings of 2 to 4 GiB are refused |
| `DescriptorCodec.CrossRoundTrip` | protobuf/descriptor_test/codec.h:97-134 | `decode` undoes `fillEmptyBuffer` past the length |
| `TimingWheel.StepKeepsCounted` | idleconnection/echo.h:47-71 | an entry's use count is the number of buckets holding it, on every event |
| `TimingWheel.DroppedIsDue` | idleconnection/echo.cc:80-84 | the entries a tick destroys are those last active N ticks ago |
| `TimingWheel.StepRefines` | idleconnection/echo.cc:36-84 | every event keeps bucket i equal to the connections active N-1-i ticks ago |
| `TimingWheel.WheelIsCounters` | idleconnection/echo.cc:36-84 | over every run the wheel equals one last-active counter per connection, shutdowns included |
| `TimingWheel.ShutdownsAreTimely` | idleconnection/echo.h:54-59 | an entry is dropped at exactly the N-th tick after its last activity, those shut down at a tick are exactly the dropped whose connection exists at that tick, and nobody is shut down twice |
| `TimingWheel.DropsAreByTrace` | idleconnection/echo.cc:36-84 | on every run an entry is dropped at a tick if and only if its connection connected or sent something N intervals before, nothing since, and was not dropped before |
| `TimingWheel.EchoServer.constructor` | idleconnection/echo.cc:15-29 | N empty buckets |
| `TimingWheel.EchoServer.OnConnection` | idleconnection/echo.cc:36-55 | a new entry goes into the back bucket with one owner left; a down callback changes nothing |
| `TimingWheel.EchoServer.OnMessage` | idleconnection/echo.cc:59-76 | a live entry goes into the back bucket once; a dead one does nothing |
| `TimingWheel.EchoServer.ReleaseBucket` | idleconnection/echo.h:54-59 | the loop over the overwritten bucket destroys exactly the entries without other owners and shuts down those alive |
| `TimingWheel.EchoServer.OnTimer` | idleconnection/echo.cc:80-84 | the tick of the wheel |
| `SortedList.StepKeepsListed` | idleconnection/sortedlist.cc:63-124 | each up connection is listed once and its iterator designates its own cell |
| `SortedList.MessageKeepsListed` | idleconnection/sortedlist.cc:81-86 | after the splice the connection's own cell is the last one |
| `SortedList.StepKeepsOrder` | idleconnection/sortedlist.cc:63-124 | later cells are at most the skew older, also after the negative-age reset |
| `SortedList.ScanFindsOverdue` | idleconnection/sortedlist.cc:95-118 | stopping at the first fresh cell misses nobody overdue by more than the skew |
| `SortedList.StepRemembers` | idleconnection/sortedlist.cc:63-118 | the stored time never exceeds the time of the connection's last up or message event, and is less by at most the skew |
| `SortedList.EveryTickByStoredTimes` | idleconnection/sortedlist.cc:91-124 | by the stored times: on every run a tick shuts down everyone older than idle + skew and nobody of age idle or less, and nobody twice |
| `SortedList.EveryTickIsExact` | idleconnection/sortedlist.cc:91-124 | by the events of the run and the earlier shutdowns alone: the next tick shuts down every up connection not heard from for more than idle + skew and none heard from within idle - skew; without skew, exactly those not heard from for more than idle |
| `SortedList.LowerLimitIsSharp` | idleconnection/sortedlist.cc:110-113 | for every positive skew a run in which the negative-age reset gets a connection shut down that was heard from idle - skew + 1 ago |
| `SortedList.UpperLimitIsSharp` | idleconnection/sortedlist.cc:114-117 | for every skew a run in which a connection not heard from for idle + skew is not reached by the scan |
| `SortedList.NobodyListedIsExpired` | idleconnection/sortedlist.cc:118-122 | on every run everyone listed can be locked when the scan comes, so it erases nothing |
| `SortedList.EchoServer.OnConnection` | idleconnection/sortedlist.cc:63-79 | up appends a cell and stores its iterator; down erases that cell |
| `SortedList.EchoServer.OnMessage` | idleconnection/sortedlist.cc:81-89 | the cell moves to the back and the assertion after the splice holds |
| `SortedList.EchoServer.ScanList` | idleconnection/sortedlist.cc:95-123 | the iterator loop does what the recursive scan does |
| `SortedList.EchoServer.OnTimer` | idleconnection/sortedlist.cc:91-124 | the tick of the list |
| `WheelVersusList.StepKeepsAgree` | idleconnection/sortedlist.cc:81-124 | on one trace, with times in any order within a second, both servers agree on the second of the last activity, and the list has not shut down anyone the wheel still counts for |
| `WheelVersusList.ListIsNeverFirst` | idleconnection/echo.cc:80-84 | on every trace, whoever the list has recorded as shut down at a tick the wheel has recorded at an earlier tick |
| `WheelVersusList.ListFollowsOneTickLater` | idleconnection/sortedlist.cc:91-124 | on every trace, if the wheel records the shutdown of an up connection at a tick and there is no further activity, the list does not record it at that tick and does at the next |
| `CopyOnWrite.StepKeepsInv` | ch2/2.8.cpp:9-34 | every step of every interleaving keeps use counts, mutual exclusion, snapshots and the log right |
| `CopyOnWrite.OnlySoleOwnerMutates` | ch2/2.8.cpp:25-34 | a list changes only while the global pointer is its sole owner and no reader is on it |
| `CopyOnWrite.AssertionsHold` | ch2/2.8.cpp:12-32 | both uniqueness assertions hold when made |
| `CopyOnWrite.LogOnlyGrows` | ch2/2.8.cpp:13-16 | posts are only added, and a traversal's view is fixed at its lock point |
| `CopyOnWrite.TraversalsAreLinearizable` | ch2/2.8.cpp:9-34 | a finished traversal has visited exactly the posts before its lock point, and no post is lost or doubled |
| `CopyOnWrite.RealTimeOrder` | ch2/2.8.cpp:9-34 | posts and traversals that have taken effect at some moment of a run come before those that take effect later |
| `CopyOnWrite.ReplayOfPushes` | ch2/2.8.cpp:33 | for g_foos the view is the items posted, in order |
| `CopyOnWrite.ReplayOfInventory` | ch2/2.8.cpp:75-92 | for the inventory the view is the requests registered, each once and in order |
| `CopyOnWrite.SomeCallCanAdvance` | ch2/2.8.cpp:18-21 | some unfinished call can go on, posts from `doit()` included |
| `CopyOnWriteProgress.CallsAreBegun` | ch2/2.8.cpp:9-34 | the calls of a run are those begun in it, with their updates |
| `CopyOnWriteProgress.EveryCallFinishes` | ch2/2.8.cpp:9-34 | after any run the calls there are take a bounded number of steps and then have all finished |
| `CopyOnWrite.WriterIsWrite` | ch2/2.8.cpp:25-34 | in the interleaved machine the writer's three steps under the mutex change the heap by `Write` at the global pointer and nowhere else |
| `CopyOnWrite.Shared.Acquire` | ch2/2.8.cpp:11-16 | one more owner of the same list |
| `CopyOnWrite.Shared.Update` | ch2/2.8.cpp:25-34 | does what `Write` says: a shared list is left as it is and copied, a sole one updated in place |
| `CopyOnWrite.Shared.TraverseAndPost` | ch2/2.8.cpp:18-21 | a loop that posts at each element still sees the list it started with |
| `InventoryLocks.StepKeepsInv` | ch2/2.1.cpp:75-90 | each mutex is held by one thread, the one it says |
| `InventoryLocks.SomeoneGoesOn` | ch2/2.8.cpp:59-70 | while a thread is unfinished some thread has a step that does not wait |
| `InventoryLocks.GoesOnOrEmbraced` | ch2/2.1.cpp:58-84 | in either version, while a thread is unfinished some thread has a step that does not wait, or one prints inside the critical section a request whose holder wants the inventory |
| `InventoryLocks.FixedNeverDeadlocks` | ch2/2.8.cpp:59-70 | with `print()` moved out no run of any threads and programs gets stuck |
| `InventoryLocks.FixedAlwaysFinishes` | ch2/2.8.cpp:59-70 | every run ends within a bound computed from the programs, and one that cannot go on has finished every thread |
| `InventoryPrinting.PrintAllPrintsRegistered` | ch2/2.8.cpp:59-70 | in either version, on every run, a `printAll` takes the mutexes of the requests registered at a moment it had the inventory, each once and in order, whatever other threads do |
| `InventoryPrinting.OperationTakes` | ch2/2.1.cpp:75-90 | on every run, `process` and the destructor take their own request's mutex and no other, `add` and `remove` none |
| `InventoryLocks.UnfixedDeadlocks` | ch2/2.1.cpp:58-84 | with `print()` inside, a destructor and `printAll` reach a state where both wait for good |
| `InventoryDeadlock.DeadlocksExactlyOnConflict` | ch2/2.1.cpp:35-90 | with `print()` inside, some schedule of the programs gets stuck if and only if one thread's `printAll` and another's `process` or destructor can meet with the request registered |
| `InventoryDeadlock.StuckIsAnEmbrace` | ch2/2.1.cpp:58-84 | when nobody can go on and somebody has not finished, two threads wait for each other's mutex |
| `InventoryDeadlock.EmbraceIsForGood` | ch2/2.1.cpp:58-84 | two such threads never take another step, whatever the others do |
| `InventoryDeadlock.StepKeepsTraced` | ch2/2.1.cpp:35-84 | whatever is registered some thread's program has registered last, and what is printed inside is what is registered |
| `LogStream.NumeralIsRight` | logging/LogStream.cpp:11-31 | a numeral is canonical and stands for its number, in base 10 and 16 |
| `LogStream.NumeralIsUnique` | logging/LogStream.cpp:11-31 | there is one canonical numeral to a number |
| `LogStream.DecimalRoundTrip` | logging/LogStream.cpp:10-31 | formatting then parsing is the identity on all integers |
| `LogStream.DecimalIsUnique` | logging/LogStream.cpp:10-31 | parsing then formatting is the identity on canonical decimals |
| `LogStream.DecimalLength` | logging/LogStream.h:75 | every value of every integer type takes at most 20 characters |
| `LogStream.HexLength` | logging/LogStream.cpp:107-119 | an address takes at most 16 hexadecimal digits |
| `LogStream.MirroredTable` | logging/LogStream.cpp:4-5 | the table gives the same digit for a remainder and its negative |
| `LogStream.ReverseRange` | logging/LogStream.cpp:28 | the stretch is reversed and the rest of the array untouched |
| `LogStream.WriteDigits` | logging/LogStream.cpp:14-21 | the digit loop, with truncating division on a value of either sign |
| `LogStream.Convert` | logging/LogStream.cpp:11-31 | the array holds the decimal and a terminator, and nothing else changed |
| `LogStream.ConvertHex` | logging/LogStream.cpp:33-47 | the array holds the hexadecimal numeral, and nothing else changed |
| `LogStream.FixedBuffer.AppendString` | common/FixedBuffer.h:30-36 | the part that fits is appended |
| `LogStream.FixedBuffer.AppendBytes` | common/FixedBuffer.h:48-55 | all of it is appended if it leaves a byte free, and nothing otherwise |
| `LogStream.FixedBuffer.Reset` | common/FixedBuffer.h:57 | empties the buffer |
| `LogStream.Stream.FormatInteger` | logging/LogStream.cpp:49-57 | the decimal is appended if 32 bytes are free |
| `LogStream.Stream.FormatPointer` | logging/LogStream.cpp:107-119 | "0x" and the address are appended if 32 bytes are free |
| `LogStream.InsertsKeepAPrefix` | logging/LogStream.cpp:49-57 | a chain of inserts leaves the decimals of a prefix of it, with at most 31 bytes unused once one is dropped and at least 32 free before each one that is not |
| `LogStream.Stream.FormatAll` | logging/LogStream.cpp:71-105 | a chain of inserts on the object |

## Left out

- MessageObjects.Query.MergePartialFromCodedStream: says nothing of the fields after a failed parse (nor do the loops of `Answer` and `Empty`), because how far the library fills a string before failing is not in the repository and every caller discards the message.
- MessageObjects.Query.MergeField: the same for one field; nor in `Answer` and `Empty`.
- MessageObjects.Query.ParseFromArray: unknown fields are skipped and not kept, since unknown-field sets belong to the protobuf library.
- MessageObjects.Query.InternalSerializeWithCachedSizesToArray: kept unknown fields are not written, for the same reason; nor in `Answer` and `Empty`.
- MessageObjects.Query.ByteSizeLong: kept unknown fields are not counted, for the same reason; nor in `Answer` and `Empty`.
- MessageObjects.Query.MergeFrom: kept unknown fields are not merged, for the same reason; nor in `Answer` and `Empty`.
- Codec.FillEmptyBuffer: takes messages whose body is below 2^31 bytes, since the source holds their size in an `int`.
- Codec.OnMessage: the callbacks leave the buffer alone; the default error callback only logs and shuts the connection down.
- NetBuffer.Buffer.ReadFd: what the kernel delivers is a parameter, cut to the offered segments; `errno` is not modelled.
- CopyOnWrite.Next: copying a list and resetting the pointer to it is one step, since the copy is made under the lock and nobody else has it yet.
- Big-endian hosts: the narrowing in `Endian.h` would keep other bytes there.
- `findCRLF`, `findEOL` and `retrieveUntil` of `Buffer`: searches in the readable bytes for text protocols; the codec never calls them and they change no index that `Retrieve` does not.
- `prependInt64`, `prependInt16` and the 8-bit accessors of `Buffer`: compositions of `Prepend`, `Append` and `Retrieve` with the byte orders of `Endian.dfy`, which are modelled; the codec does not call them.
- `operator<<` for doubles, characters and strings, `FixedBuffer::bzero` and `debugString`: doubles are formatted by the C library, characters and strings go straight to the modelled `append`, and the last two only help a debugger.
- Sockets, `TcpConnection`, event loops and timers: not part of this model; their effects are the events and parameters of the servers.
- Arenas, descriptors, default instances, cached sizes and UTF-8 verification: protobuf library machinery that does not change parse results.
- The dispatchers: they pick a callback by message type after a frame has been parsed, and no result here depends on which callback runs.
- `Slice`, `Atomic` and the thread-local singletons: nothing in the modelled files uses them.
- `Timestamp` formatting: turns times into text for logs; the servers only compare times and take differences.
- Object lifetime of `Request` in ch2/2.8.2.cpp: only locks and use counts are modelled.
- Re-encoding a parsed frame: `parse` ignores the name's last byte and accepts payloads in other than canonical form, so only decoding after encoding is an identity.
