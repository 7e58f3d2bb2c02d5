/**
 What the receive loop makes of a byte stream that arrives in pieces: arbitrary bytes first, then the
 concatenated frames of a list of messages.
 */
module CodecStream {
  import opened Bytes
  import opened Wrappers
  import opened NetBuffer
  import opened Codec
  import Endian
  import M = Messages

  // ---------------------------------------------------------------------------------------------
  // Arbitrary bytes
  // ---------------------------------------------------------------------------------------------

  /** A frame the loop accepts, and the message in it. */
  predicate IsFrameOf(frame: bytes, m: M.Message) {
    |frame| >= 14 && AsInt32(frame) == |frame| - 4 && ParseBody(frame[4..]) == Parsed(m)
  }

  /** The consumed frames and the residue make up the input, and each frame carries its message. */
  lemma {:induction false} DeliverReconstructs(s: bytes)
    ensures Concat(Deliver(s).frames) + Deliver(s).rest == s
    ensures forall i :: 0 <= i < |Deliver(s).frames| ==> IsFrameOf(Deliver(s).frames[i], Deliver(s).messages[i])
    decreases |s|
  {
    hide ParseBody;
    hide Decide, IsFrameOf, Deliver;
    if Decide(s).Take? {
      var size := Decide(s).size;
      var d := Deliver(s[size..]);
      DeliverTakes(s);
      DeliverReconstructs(s[size..]);
      TakenIsFrame(s);
      assert ([s[..size]] + d.frames)[1..] == d.frames;
      assert s[..size] + Concat(d.frames) + d.rest == s[..size] + s[size..] == s;
    } else {
      DeliverStops(s);
    }
  }

  lemma TakenIsFrame(s: bytes)
    requires Decide(s).Take?
    ensures IsFrameOf(s[..Decide(s).size], Decide(s).message)
  {
    hide ParseBody;
    var size := Decide(s).size;
    assert s[..size][4..] == s[4..size];
  }

  /** A decision, once taken, does not depend on what arrives later. */
  lemma DecisionIsFinal(s: bytes, t: bytes)
    requires !Decide(s).Wait?
    ensures Decide(s + t) == Decide(s)
  {
    hide ParseBody;
    var len := AsInt32(s);
    if 10 <= len <= 64 * 1024 * 1024 {
      assert (s + t)[4..4 + len] == s[4..4 + len];
    }
  }

  function Joined(d: Delivery, e: Delivery): Delivery {
    Delivery(d.messages + e.messages, d.frames + e.frames, e.error, e.rest)
  }

  /** Running the loop on a prefix first changes nothing. */
  lemma {:induction false} PrefixFirst(s: bytes, t: bytes)
    ensures Deliver(s + t) == Joined(Deliver(s), Deliver(Deliver(s).rest + t))
    decreases |s|
  {
    hide Decide;
    if Decide(s).Take? {
      hide Deliver;
      var size := Decide(s).size;
      DecisionIsFinal(s, t);
      DeliverTakes(s);
      DeliverTakes(s + t);
      assert (s + t)[size..] == s[size..] + t;
      assert (s + t)[..size] == s[..size];
      PrefixFirst(s[size..], t);
      var d, e := Deliver(s[size..]), Deliver(Deliver(s[size..]).rest + t);
      assert [Decide(s).message] + (d.messages + e.messages) == [Decide(s).message] + d.messages + e.messages;
      assert [s[..size]] + (d.frames + e.frames) == [s[..size]] + d.frames + e.frames;
    } else if Decide(s).Stop? {
      DecisionIsFinal(s, t);
    }
  }

  /** Appending each chunk to what is left and running the loop. */
  function Receive(rest: bytes, chunks: seq<bytes>): Delivery
    requires chunks != []
    decreases |chunks|
  {
    var d := Deliver(rest + chunks[0]);
    if |chunks| == 1 then d else Joined(d, Receive(d.rest, chunks[1..]))
  }

  /** However a stream is cut, the deliveries, the residue and the final error are those of the whole. */
  lemma {:induction false} ChunkIndependence(rest: bytes, chunks: seq<bytes>)
    requires chunks != []
    ensures Receive(rest, chunks) == Deliver(rest + Concat(chunks))
    decreases |chunks|
  {
    hide Deliver;
    var s, t := rest + chunks[0], Concat(chunks[1..]);
    assert rest + Concat(chunks) == s + t;
    if |chunks| == 1 {
      assert s + t == s;
    } else {
      ChunkIndependence(Deliver(s).rest, chunks[1..]);
      PrefixFirst(s, t);
    }
  }

  /** Two ways of cutting the same stream cannot be told apart. */
  lemma AnyTwoCutsAgree(a: seq<bytes>, b: seq<bytes>)
    requires a != [] && b != [] && Concat(a) == Concat(b)
    ensures Receive([], a) == Receive([], b)
  {
    hide Deliver, Receive;
    ChunkIndependence([], a);
    ChunkIndependence([], b);
  }

  // ---------------------------------------------------------------------------------------------
  // Streams of frames
  // ---------------------------------------------------------------------------------------------

  predicate Complete(m: M.Message) {
    Encodable(m) && m.Initialized()
  }

  /** The encoder has no length limit of its own; the receiver takes bodies of up to 64 MiB. */
  predicate Sendable(m: M.Message) {
    Complete(m) && |Body(m)| <= 64 * 1024 * 1024
  }

  function Stream(ms: seq<M.Message>): bytes {
    if ms == [] then [] else Frame(ms[0]) + Stream(ms[1..])
  }

  lemma BodyIsLong(m: M.Message)
    ensures |Body(m)| >= 20
  {
    hide M.Serialize, Adler.Adler32, TypeName, Be32;
    KindOfTypeName(m.Kind());
  }

  /** A whole frame is delivered exactly when it keeps the receiver's limit, and is a length error otherwise. */
  lemma DecideFrame(m: M.Message, rest: bytes)
    requires Complete(m)
    ensures Decide(Frame(m) + rest) ==
      if |Body(m)| <= 64 * 1024 * 1024 then Take(m, |Frame(m)|) else Stop(InvalidLength)
  {
    hide ParseBody, AsInt32, Be32, Body;
    var s, body := Frame(m) + rest, Body(m);
    BodyIsLong(m);
    assert s == Be32(|body|) + (body + rest);
    AsInt32OfBe32(|body|, body + rest);
    assert s[4..4 + |body|] == body;
    BodyRoundTrip(m);
  }

  /** Part of a frame is waited for. */
  lemma DecidePartialFrame(m: M.Message, p: bytes)
    requires Sendable(m) && p < Frame(m)
    ensures Decide(p) == Wait
  {
    hide ParseBody, AsInt32, Be32, Body;
    BodyIsLong(m);
    if |p| >= 14 {
      assert p == Be32(|Body(m)|) + p[4..];
      AsInt32OfBe32(|Body(m)|, p[4..]);
    }
  }

  /** What arrived of a stream is delivered frame by frame; what is left is the beginning of the next frame. */
  ghost predicate DeliversPrefix(d: Delivery, ms: seq<M.Message>, k: nat, arrived: bytes) {
    && k <= |ms|
    && d.messages == ms[..k]
    && d.error == None
    && arrived == Stream(ms[..k]) + d.rest
    && (if k == |ms| then d.rest == [] else d.rest < Frame(ms[k]))
  }

  lemma {:induction false} DeliverStream(ms: seq<M.Message>, p: bytes) returns (k: nat)
    requires forall m :: m in ms ==> Sendable(m)
    requires p <= Stream(ms)
    ensures DeliversPrefix(Deliver(p), ms, k, p)
    decreases |ms|
  {
    hide Decide, Frame, Sendable;
    if ms == [] {
      k := 0;
      NothingToDecide();
    } else {
      var f := Frame(ms[0]);
      if |p| < |f| {
        k := 0;
        assert p < f by {
          assert p == Stream(ms)[..|p|] == f[..|p|];
        }
        DecidePartialFrame(ms[0], p);
      } else {
        var tail := p[|f|..];
        assert tail <= Stream(ms[1..]);
        assert p == f + tail by {
          assert p == Stream(ms)[..|p|];
        }
        TakeFirst(ms[0], tail);
        var j := DeliverStream(ms[1..], tail);
        k := j + 1;
        assert ms[..k][1..] == ms[1..][..j];
        assert ms[..k] == [ms[0]] + ms[1..][..j];
        assert f + Stream(ms[1..][..j]) + Deliver(tail).rest == p;
      }
    }
  }

  lemma NothingToDecide()
    ensures Decide([]) == Wait
  {
  }

  lemma TakeFirst(m: M.Message, tail: bytes)
    requires Sendable(m)
    ensures
      var d, e := Deliver(Frame(m) + tail), Deliver(tail);
      d.messages == [m] + e.messages && d.error == e.error && d.rest == e.rest
  {
    hide Decide, Frame, Deliver;
    DecideFrame(m, tail);
    DeliverTakes(Frame(m) + tail);
    assert (Frame(m) + tail)[|Frame(m)|..] == tail;
  }

  /**
   End to end: any list of messages, any cut of what has arrived of its frames. The delivered messages are
   those whose frames have arrived in full, and the buffer holds the beginning of the next frame.
   */
  lemma StreamingIsLossless(ms: seq<M.Message>, chunks: seq<bytes>) returns (k: nat)
    requires forall m :: m in ms ==> Sendable(m)
    requires chunks != [] && Concat(chunks) <= Stream(ms)
    ensures DeliversPrefix(Receive([], chunks), ms, k, Concat(chunks))
  {
    hide Deliver, Receive;
    ChunkIndependence([], chunks);
    assert [] + Concat(chunks) == Concat(chunks);
    k := DeliverStream(ms, Concat(chunks));
  }

  /** When everything has arrived, everything has been delivered. */
  lemma WholeStreamArrives(ms: seq<M.Message>, chunks: seq<bytes>)
    requires forall m :: m in ms ==> Sendable(m)
    requires chunks != [] && Concat(chunks) == Stream(ms)
    ensures Receive([], chunks).messages == ms && Receive([], chunks).rest == []
  {
    hide Deliver, Receive, Frame, Sendable;
    var k := StreamingIsLossless(ms, chunks);
    assert ms == ms[..k] + ms[k..];
    StreamAppend(ms[..k], ms[k..]);
    assert Receive([], chunks).rest == Stream(ms[k..]);
  }

  lemma {:induction false} StreamAppend(a: seq<M.Message>, b: seq<M.Message>)
    ensures Stream(a + b) == Stream(a) + Stream(b)
    decreases |a|
  {
    hide Frame;
    if a == [] {
      assert a + b == b;
    } else {
      assert (a + b)[1..] == a[1..] + b;
      StreamAppend(a[1..], b);
    }
  }

  /**
   The connection's side of it: every chunk is appended to the input buffer and `onMessage` called. `error` is
   what the last call reported.
   */
  method Session(buf: Buffer, chunks: seq<bytes>) returns (delivered: seq<M.Message>, error: Option<ErrorCode>)
    requires buf.Valid() && chunks != []
    modifies buf, buf.buffer
    ensures buf.Valid()
    ensures
      var d := Deliver(old(buf.Readable()) + Concat(chunks));
      delivered == d.messages && error == d.error && buf.Readable() == d.rest
  {
    hide Deliver;
    hide Concat;
    ghost var seen := buf.Readable();
    ghost var start := seen;
    NoChunks(chunks);
    delivered, error := ReceiveChunk(buf, chunks[0]);
    var i := 1;
    seen := start + chunks[0];
    while i < |chunks|
      invariant buf.Valid() && 1 <= i <= |chunks|
      invariant buf.buffer == old(buf.buffer) || fresh(buf.buffer)
      invariant seen == start + Concat(chunks[..i])
      invariant delivered == Deliver(seen).messages && error == Deliver(seen).error
      invariant buf.Readable() == Deliver(seen).rest
    {
      PrefixFirst(seen, chunks[i]);
      var more;
      more, error := ReceiveChunk(buf, chunks[i]);
      delivered := delivered + more;
      NextChunk(chunks, i);
      seen := seen + chunks[i];
      i := i + 1;
    }
    assert chunks[..i] == chunks;
  }

  lemma NoChunks(chunks: seq<bytes>)
    requires chunks != []
    ensures Concat(chunks[..1]) == chunks[0]
  {
    assert chunks[..1][1..] == [];
  }

  lemma NextChunk(chunks: seq<bytes>, i: nat)
    requires i < |chunks|
    ensures Concat(chunks[..i + 1]) == Concat(chunks[..i]) + chunks[i]
  {
    assert chunks[..i + 1] == chunks[..i] + [chunks[i]];
    ConcatAppend(chunks[..i], [chunks[i]]);
    NoChunks([chunks[i]]);
    assert [chunks[i]][..1] == [chunks[i]];
  }

  method ReceiveChunk(buf: Buffer, chunk: bytes) returns (delivered: seq<M.Message>, error: Option<ErrorCode>)
    requires buf.Valid()
    modifies buf, buf.buffer
    ensures buf.Valid() && (buf.buffer == old(buf.buffer) || fresh(buf.buffer))
    ensures
      var d := Deliver(old(buf.Readable()) + chunk);
      delivered == d.messages && error == d.error && buf.Readable() == d.rest
  {
    hide Deliver;
    AppendChunk(buf, chunk);
    delivered, error := OnMessage(buf);
  }

  method AppendChunk(buf: Buffer, chunk: bytes)
    requires buf.Valid()
    modifies buf, buf.buffer
    ensures buf.Valid() && (buf.buffer == old(buf.buffer) || fresh(buf.buffer))
    ensures buf.Readable() == old(buf.Readable()) + chunk
  {
    buf.Append(chunk);
  }

  /**
   Were `onMessage` to read the length with the repository's own `networkToHost32`, exactly the frames with
   bodies of less than 65536 bytes would be understood.
   */
  lemma NarrowLengthIff(m: M.Message)
    requires Encodable(m)
    ensures Endian.LoadInt32(Frame(m)) == |Body(m)| <==> |Body(m)| < 0x1_0000
  {
    hide Endian.LoadInt32, Body, Be32;
    Endian.Int32RoundTripIff(|Body(m)|, Body(m));
  }
}
