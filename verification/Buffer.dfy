/**
 The network buffer: one array, a reader index and a writer index. The readable bytes lie between the
 indices; `Step` says what each operation does to them and to the indices.
 */
module NetBuffer {
  import opened Bytes
  import opened Wrappers
  import Endian

  const CHEAP_PREPEND: nat := 8
  const INITIAL_SIZE: nat := 1024
  const EXTRA_SIZE: nat := 65536

  // ---------------------------------------------------------------------------------------------
  // Indices
  // ---------------------------------------------------------------------------------------------

  datatype Layout = Layout(size: nat, reader: nat, writer: nat) {
    predicate Valid() {
      reader <= writer <= size && CHEAP_PREPEND <= size
    }

    function Readable(): nat
      requires Valid()
    {
      writer - reader
    }

    function Writable(): nat
      requires Valid()
    {
      size - writer
    }

    predicate MustGrow(len: nat)
      requires Valid()
    {
      Writable() + reader < len + CHEAP_PREPEND
    }

    function MakeSpace(len: nat): Layout
      requires Valid()
    {
      if MustGrow(len) then this.(size := writer + len)
      else Layout(size, CHEAP_PREPEND, CHEAP_PREPEND + Readable())
    }

    function EnsureWritable(len: nat): (l: Layout)
      requires Valid()
    {
      if Writable() < len then MakeSpace(len) else this
    }

    function Append(len: nat): Layout
      requires Valid()
    {
      var l := EnsureWritable(len);
      l.(writer := l.writer + len)
    }

    /** `readv` is offered the writable tail and, when that is short, an extra segment. */
    function ReadvCapacity(): nat
      requires Valid()
    {
      Writable() + if Writable() < EXTRA_SIZE then EXTRA_SIZE else 0
    }

    function ReadFd(n: nat): Layout
      requires Valid()
    {
      if n <= Writable() then this.(writer := writer + n)
      else this.(writer := size).Append(n - Writable())
    }

    function Retrieve(len: nat): Layout
      requires Valid()
    {
      if len < Readable() then this.(reader := reader + len)
      else Layout(size, CHEAP_PREPEND, CHEAP_PREPEND)
    }

    function Shrink(reserve: nat): Layout
      requires Valid()
    {
      InitialLayout(INITIAL_SIZE).EnsureWritable(Readable() + reserve).Append(Readable())
    }
  }

  function InitialLayout(initialSize: nat): Layout {
    Layout(CHEAP_PREPEND + initialSize, CHEAP_PREPEND, CHEAP_PREPEND)
  }

  /** The caller's guard makes the assertion before compaction true, and makes both ways of making space enough. */
  lemma MakeSpaceIsSound(l: Layout, len: nat)
    requires l.Valid() && l.Writable() < len
    ensures !l.MustGrow(len) ==> CHEAP_PREPEND < l.reader
    ensures l.MakeSpace(len).Valid() && l.MakeSpace(len).Writable() >= len
    ensures l.MakeSpace(len).Readable() == l.Readable()
    ensures l.MakeSpace(len).size >= l.size
    ensures CHEAP_PREPEND <= l.reader ==> CHEAP_PREPEND <= l.MakeSpace(len).reader
  {
  }

  // ---------------------------------------------------------------------------------------------
  // Operations on the whole buffer
  // ---------------------------------------------------------------------------------------------

  datatype State = State(content: bytes, layout: Layout) {
    predicate Valid() {
      layout.Valid() && |content| == layout.Readable()
    }
  }

  datatype Op =
    | Append(data: bytes)
    | EnsureWritable(len: nat)
    | Commit(data: bytes)       // bytes written behind the writer index, then `hasWritten`
    | ReadFd(data: bytes)
    | Retrieve(len: nat)
    | RetrieveAll
    | Prepend(data: bytes)
    | Unwrite(len: nat)
    | Shrink(reserve: nat)

  /** What the source asserts of each operation's arguments, and what `readv` can return. */
  predicate Enabled(s: State, op: Op)
    requires s.Valid()
  {
    match op
    case Commit(data) => |data| <= s.layout.Writable()
    case ReadFd(data) => |data| <= s.layout.ReadvCapacity()
    case Retrieve(len) => len <= s.layout.Readable()
    case Prepend(data) => |data| <= s.layout.reader
    case Unwrite(len) => len <= s.layout.Readable()
    case _ => true
  }

  /** The buffer as a byte queue open at both ends. */
  function StepContent(content: bytes, op: Op): bytes {
    match op
    case Append(data) => content + data
    case Commit(data) => content + data
    case ReadFd(data) => content + data
    case Retrieve(len) => if len <= |content| then content[len..] else []
    case RetrieveAll => []
    case Prepend(data) => data + content
    case Unwrite(len) => if len <= |content| then content[..|content| - len] else []
    case EnsureWritable(_) => content
    case Shrink(_) => content
  }

  function StepLayout(l: Layout, op: Op): Layout
    requires l.Valid()
  {
    match op
    case Append(data) => l.Append(|data|)
    case EnsureWritable(len) => l.EnsureWritable(len)
    case Commit(data) => l.(writer := l.writer + |data|)
    case ReadFd(data) => l.ReadFd(|data|)
    case Retrieve(len) => l.Retrieve(len)
    case RetrieveAll => l.Retrieve(l.Readable())
    case Prepend(data) => if |data| <= l.reader then l.(reader := l.reader - |data|) else l
    case Unwrite(len) => if len <= l.writer then l.(writer := l.writer - len) else l
    case Shrink(reserve) => l.Shrink(reserve)
  }

  function Step(s: State, op: Op): (t: State)
    requires s.Valid() && Enabled(s, op)
    ensures t.Valid()
  {
    AppendedLayout(s.layout, op);
    State(StepContent(s.content, op), StepLayout(s.layout, op))
  }

  /** The operations that may make space. */
  lemma AppendedLayout(l: Layout, op: Op)
    requires l.Valid()
    ensures op.Append? ==> StepLayout(l, op).Valid() && StepLayout(l, op).Readable() == l.Readable() + |op.data|
    ensures op.ReadFd? ==> StepLayout(l, op).Valid() && StepLayout(l, op).Readable() == l.Readable() + |op.data|
    ensures op.Shrink? ==> StepLayout(l, op).Valid() && StepLayout(l, op).Readable() == l.Readable()
  {
  }

  lemma AppendInTwoSteps(s: State, data: bytes)
    requires s.Valid()
    ensures
      var t := Step(s, EnsureWritable(|data|));
      Enabled(t, Commit(data)) && Step(t, Commit(data)) == Step(s, Append(data))
  {
  }

  /** Shrinking is appending the content to a new buffer with room reserved. */
  lemma ShrinkInTwoSteps(s: State, reserve: nat)
    requires s.Valid()
    ensures
      var blank := State([], InitialLayout(INITIAL_SIZE));
      Step(Step(blank, EnsureWritable(|s.content| + reserve)), Append(s.content)) == Step(s, Shrink(reserve))
  {
  }

  lemma ReadFdThatFits(s: State, data: bytes)
    requires s.Valid() && |data| <= s.layout.Writable()
    ensures Enabled(s, ReadFd(data)) && Step(s, ReadFd(data)) == Step(s, Commit(data))
  {
  }

  /** A read that overflows the tail is a commit of the full tail followed by an append. */
  lemma ReadFdInTwoSteps(s: State, data: bytes)
    requires s.Valid() && s.layout.Writable() < |data| && Enabled(s, ReadFd(data))
    ensures
      var n := s.layout.Writable();
      Step(Step(s, Commit(data[..n])), Append(data[n..])) == Step(s, ReadFd(data))
  {
    var n := s.layout.Writable();
    assert s.content + data[..n] + data[n..] == s.content + data;
  }

  lemma ReadFdInParts(s: State, head: bytes, rest: bytes)
    requires s.Valid() && |head| == s.layout.Writable() < EXTRA_SIZE && 0 < |rest| <= EXTRA_SIZE
    ensures Enabled(s, Commit(head)) && Enabled(s, ReadFd(head + rest))
    ensures Step(Step(s, Commit(head)), Append(rest)) == Step(s, ReadFd(head + rest))
  {
    hide Step;
    ReadFdInTwoSteps(s, head + rest);
    assert (head + rest)[..|head|] == head && (head + rest)[|head|..] == rest;
  }

  predicate Runs(s: State, ops: seq<Op>)
    requires s.Valid()
    decreases |ops|
  {
    ops != [] ==> Enabled(s, ops[0]) && Runs(Step(s, ops[0]), ops[1..])
  }

  function Run(s: State, ops: seq<Op>): (t: State)
    requires s.Valid() && Runs(s, ops)
    ensures t.Valid()
    decreases |ops|
  {
    if ops == [] then s else Run(Step(s, ops[0]), ops[1..])
  }

  function RunContent(content: bytes, ops: seq<Op>): bytes
    decreases |ops|
  {
    if ops == [] then content else RunContent(StepContent(content, ops[0]), ops[1..])
  }

  /** Over every run the readable bytes are those of the plain byte queue, whatever the indices did. */
  lemma {:induction false} RunRefinesQueue(s: State, ops: seq<Op>)
    requires s.Valid() && Runs(s, ops)
    ensures Run(s, ops).content == RunContent(s.content, ops)
    decreases |ops|
  {
    if ops != [] {
      RunRefinesQueue(Step(s, ops[0]), ops[1..]);
    }
  }

  // ---------------------------------------------------------------------------------------------
  // Space bound
  // ---------------------------------------------------------------------------------------------

  /** The length an operation passes to `ensureWritableBytes`. */
  function Requested(s: State, op: Op): nat
    requires s.Valid()
  {
    match op
    case Append(data) => |data|
    case EnsureWritable(len) => len
    case ReadFd(data) => if |data| <= s.layout.Writable() then 0 else |data| - s.layout.Writable()
    case _ => 0
  }

  /** The readable bytes at the moment of that request. */
  function ReadableAtRequest(s: State, op: Op): nat
    requires s.Valid()
  {
    match op
    case ReadFd(data) => if |data| <= s.layout.Writable() then s.layout.Readable() else s.layout.size - s.layout.reader
    case _ => s.layout.Readable()
  }

  predicate Within(s: State, op: Op, maxRequest: nat, maxTotal: nat)
    requires s.Valid()
  {
    && !op.Shrink?
    && Requested(s, op) <= maxRequest
    && ReadableAtRequest(s, op) + Requested(s, op) <= maxTotal
  }

  predicate Bounded(s: State, ops: seq<Op>, maxRequest: nat, maxTotal: nat)
    requires s.Valid() && Runs(s, ops)
    decreases |ops|
  {
    ops != [] ==>
      && Within(s, ops[0], maxRequest, maxTotal)
      && Bounded(Step(s, ops[0]), ops[1..], maxRequest, maxTotal)
  }

  function Max(a: nat, b: nat): nat {
    if a < b then b else a
  }

  /** The array never outgrows what is asked of it at one time: growth does not chase the consumed prefix. */
  lemma {:induction false} SpaceBound(s: State, ops: seq<Op>, maxRequest: nat, maxTotal: nat)
    requires s.Valid() && Runs(s, ops) && Bounded(s, ops, maxRequest, maxTotal)
    ensures Run(s, ops).layout.size <= Max(s.layout.size, maxTotal + maxRequest + 7)
    decreases |ops|
  {
    if ops != [] {
      var t := Step(s, ops[0]);
      assert t.layout.size <= Max(s.layout.size, maxTotal + maxRequest + 7);
      SpaceBound(t, ops[1..], maxRequest, maxTotal);
    }
  }

  /** Three operations, one after the other. */
  lemma RunOfThree(s: State, a: Op, b: Op, c: Op, maxRequest: nat, maxTotal: nat)
    requires s.Valid() && Enabled(s, a) && Enabled(Step(s, a), b) && Enabled(Step(Step(s, a), b), c)
    ensures Runs(s, [a, b, c]) && Run(s, [a, b, c]) == Step(Step(Step(s, a), b), c)
    ensures Bounded(s, [a, b, c], maxRequest, maxTotal) <==>
      && Within(s, a, maxRequest, maxTotal) && Within(Step(s, a), b, maxRequest, maxTotal)
      && Within(Step(Step(s, a), b), c, maxRequest, maxTotal)
  {
    hide Enabled, Step, Within;
    var s1 := Step(s, a);
    var s2 := Step(s1, b);
    var s3 := Step(s2, c);
    assert [a, b, c][1..] == [b, c] && [b, c][1..] == [c] && [c][1..] == [];
    assert Runs(s3, []) && Run(s3, []) == s3;
    assert Runs(s2, [c]) && Run(s2, [c]) == s3;
    assert Runs(s1, [b, c]) && Run(s1, [b, c]) == s3;
    assert Bounded(s3, [], maxRequest, maxTotal);
    assert Bounded(s2, [c], maxRequest, maxTotal) == Within(s2, c, maxRequest, maxTotal);
    assert Bounded(s1, [b, c], maxRequest, maxTotal)
      == (Within(s1, b, maxRequest, maxTotal) && Within(s2, c, maxRequest, maxTotal));
  }

  /** Requests below the most that is ever held reach the bound: it cannot be lowered for any of them. */
  lemma SpaceBoundIsTight(a: bytes, b: bytes, maxRequest: nat, maxTotal: nat)
    requires 1 <= maxRequest < maxTotal && |a| == maxTotal - 1 && |b| == maxRequest
    ensures
      var s := State([], InitialLayout(maxTotal - 1));
      var ops := [Op.Commit(a), Op.Retrieve(maxRequest - 1), Op.Append(b)];
      && Runs(s, ops) && Bounded(s, ops, maxRequest, maxTotal)
      && Run(s, ops).layout.size == maxTotal + maxRequest + 7
  {
    var s := State([], InitialLayout(maxTotal - 1));
    RunOfThree(s, Op.Commit(a), Op.Retrieve(maxRequest - 1), Op.Append(b), maxRequest, maxTotal);
  }

  /** The reader index is at the end of the array only in the smallest one. */
  predicate ReaderInside(l: Layout) {
    l.reader < l.size || l.size == CHEAP_PREPEND
  }

  /** When one request may be for all that is ever held, two bytes or more, the bound is one less. */
  lemma {:induction false} SpaceBoundWhole(s: State, ops: seq<Op>, max: nat)
    requires s.Valid() && Runs(s, ops) && Bounded(s, ops, max, max) && max >= 2 && ReaderInside(s.layout)
    ensures Run(s, ops).layout.size <= Max(s.layout.size, max + max + 6)
    decreases |ops|
  {
    if ops != [] {
      var t := Step(s, ops[0]);
      assert ReaderInside(t.layout) && t.layout.size <= Max(s.layout.size, max + max + 6);
      SpaceBoundWhole(t, ops[1..], max);
    }
  }

  /** `unwrite` leaves an empty buffer with its reader index at the far end: then the lower bound is reached. */
  lemma SpaceBoundWholeIsTight(a: bytes, b: bytes, max: nat)
    requires max >= 2 && |a| == max - 1 && |b| == max
    ensures
      var s := State([], InitialLayout(max - 1));
      var ops := [Op.Commit(a)] + [Op.Retrieve(max - 2), Op.Unwrite(1), Op.Append(b)];
      && ReaderInside(s.layout) && Runs(s, ops) && Bounded(s, ops, max, max)
      && Run(s, ops).layout.size == max + max + 6
  {
    var s := State([], InitialLayout(max - 1));
    var last := [Op.Retrieve(max - 2), Op.Unwrite(1), Op.Append(b)];
    RunOfThree(Step(s, Op.Commit(a)), Op.Retrieve(max - 2), Op.Unwrite(1), Op.Append(b), max, max);
    assert ([Op.Commit(a)] + last)[1..] == last;
  }

  /** With one byte at most, the general bound is reached by the smallest buffer. */
  lemma SpaceBoundOfOne(b: byte)
    ensures
      var s, ops := State([], InitialLayout(0)), [Op.Append([b])];
      Runs(s, ops) && Bounded(s, ops, 1, 1) && Run(s, ops).layout.size == 1 + 1 + 7
  {
    var s, op := State([], InitialLayout(0)), Op.Append([b]);
    assert Runs(Step(s, op), []) && Bounded(Step(s, op), [], 1, 1);
    assert Run(Step(s, op), []) == Step(s, op);
    assert [op][1..] == [];
  }

  // ---------------------------------------------------------------------------------------------
  // Room in front
  // ---------------------------------------------------------------------------------------------

  /** The array grows exactly when the readable bytes, the request and the prepend area do not fit in it. */
  lemma GrowsExactlyWhenFull(s: State, len: nat)
    requires s.Valid()
    ensures var t := Step(s, EnsureWritable(len));
      && t.layout.Writable() >= len && t.content == s.content
      && (t.layout.size != s.layout.size <==> s.layout.Writable() < len && |s.content| + len + 8 > s.layout.size)
      && (t.layout.size != s.layout.size ==> t.layout.Writable() == len && t.layout.reader == s.layout.reader)
      && (s.layout.Writable() >= len ==> t == s)
      && (s.layout.Writable() < len && |s.content| + len + 8 <= s.layout.size ==> t.layout.reader == 8)
  {
  }

  /** Taking everything, in whichever way, gives the whole array back behind 8 prependable bytes. */
  lemma TakingAllResets(s: State)
    requires s.Valid()
    ensures Step(s, RetrieveAll) == State([], Layout(s.layout.size, 8, 8))
    ensures Step(s, Retrieve(|s.content|)) == State([], Layout(s.layout.size, 8, 8))
    ensures forall n :: 0 <= n < |s.content| ==>
      Step(s, Retrieve(n)) == State(s.content[n..], s.layout.(reader := s.layout.reader + n))
  {
  }

  /** A buffer shrinks to its content, the reserve and the prepend area, but not below the initial size. */
  lemma ShrinkIsSnug(s: State, reserve: nat)
    requires s.Valid()
    ensures var t := Step(s, Shrink(reserve));
      t.content == s.content && t.layout.reader == 8 && t.layout.size == 8 + Max(1024, |s.content| + reserve)
  {
  }

  /** A short tail is helped out by 65536 bytes: what does not fit in the tail makes the array grow or compact. */
  lemma ReadvTakesMore(s: State, data: bytes)
    requires s.Valid()
    ensures Enabled(s, ReadFd(data)) <==>
      |data| <= s.layout.Writable() + if s.layout.Writable() < 65536 then 65536 else 0
    ensures Enabled(s, ReadFd(data)) && |data| <= s.layout.Writable() ==>
      Step(s, ReadFd(data)).layout == s.layout.(writer := s.layout.writer + |data|)
  {
  }

  /** Without a prepend there are always 8 bytes to prepend to. */
  lemma {:induction false} RoomInFront(s: State, ops: seq<Op>)
    requires s.Valid() && Runs(s, ops) && s.layout.reader >= 8 && forall op :: op in ops ==> !op.Prepend?
    ensures Run(s, ops).layout.reader >= 8
    decreases |ops|
  {
    if ops != [] {
      assert ops[0] in ops;
      RoomInFront(Step(s, ops[0]), ops[1..]);
    }
  }

  // ---------------------------------------------------------------------------------------------
  // The class
  // ---------------------------------------------------------------------------------------------

  lemma TakeAndDrop(s: bytes, n: nat)
    requires n <= |s|
    ensures s[..n] + s[n..] == s
  {
  }

  lemma PrefixSlice(a: bytes, b: bytes, from: nat, to: nat)
    requires from <= to <= |a| <= |b| && b[..|a|] == a
    ensures b[from..to] == a[from..to]
  {
    forall k | from <= k < to ensures b[k] == a[k] {
      assert b[..|a|][k] == a[k];
    }
  }

  class Buffer {
    var buffer: array<byte>
    var readerIndex: nat
    var writerIndex: nat

    ghost predicate Valid()
      reads this
    {
      CurrentLayout().Valid()
    }

    ghost function CurrentLayout(): Layout
      reads this
    {
      Layout(buffer.Length, readerIndex, writerIndex)
    }

    /** The readable bytes, from `peek()` to `beginWrite()`. */
    function Readable(): (s: bytes)
      requires Valid()
      reads this, buffer
      ensures |s| == writerIndex - readerIndex
    {
      buffer[readerIndex..writerIndex]
    }

    ghost function Snapshot(): (s: State)
      requires Valid()
      reads this, buffer
      ensures s.Valid()
    {
      State(Readable(), CurrentLayout())
    }

    constructor (initialSize: nat)
      ensures Valid() && fresh(buffer)
      ensures Snapshot() == State([], InitialLayout(initialSize))
    {
      buffer := new byte[CHEAP_PREPEND + initialSize](_ => 0);
      readerIndex := CHEAP_PREPEND;
      writerIndex := CHEAP_PREPEND;
    }

    method Swap(rhs: Buffer)
      requires Valid() && rhs.Valid()
      modifies this, rhs
      ensures Valid() && rhs.Valid()
      ensures buffer == old(rhs.buffer) && rhs.buffer == old(buffer)
      ensures Snapshot() == old(rhs.Snapshot()) && rhs.Snapshot() == old(Snapshot())
    {
      buffer, rhs.buffer := rhs.buffer, buffer;
      readerIndex, rhs.readerIndex := rhs.readerIndex, readerIndex;
      writerIndex, rhs.writerIndex := rhs.writerIndex, writerIndex;
    }

    function ReadableBytes(): nat
      requires Valid()
      reads this
    {
      writerIndex - readerIndex
    }

    function WritableBytes(): nat
      requires Valid()
      reads this
    {
      buffer.Length - writerIndex
    }

    function PrependableBytes(): nat
      reads this
    {
      readerIndex
    }

    method RetrieveAll()
      requires Valid()
      modifies this
      ensures Valid() && buffer == old(buffer)
      ensures Snapshot() == Step(old(Snapshot()), Op.RetrieveAll)
    {
      readerIndex := CHEAP_PREPEND;
      writerIndex := CHEAP_PREPEND;
    }

    method Retrieve(len: nat)
      requires Valid() && len <= ReadableBytes()
      modifies this
      ensures Valid() && buffer == old(buffer)
      ensures Snapshot() == Step(old(Snapshot()), Op.Retrieve(len))
    {
      if len < ReadableBytes() {
        readerIndex := readerIndex + len;
      } else {
        RetrieveAll();
      }
    }

    method RetrieveAsString(len: nat) returns (result: bytes)
      requires Valid() && len <= ReadableBytes()
      modifies this
      ensures Valid() && buffer == old(buffer)
      ensures result == old(Readable())[..len]
      ensures Snapshot() == Step(old(Snapshot()), Op.Retrieve(len))
    {
      result := Readable()[..len];
      Retrieve(len);
    }

    /** `buffer_.resize(size)`, upwards. */
    method Resize(size: nat)
      requires buffer.Length <= size
      modifies this`buffer
      ensures fresh(buffer) && buffer.Length == size
      ensures buffer[..old(buffer.Length)] == old(buffer[..])
    {
      var bigger := new byte[size](_ => 0);
      forall i | 0 <= i < buffer.Length {
        bigger[i] := buffer[i];
      }
      buffer := bigger;
    }

    /** `std::copy` of `n` bytes down to the prepend area, front to back. */
    method CopyDown(from: nat, n: nat)
      requires CHEAP_PREPEND < from && from + n <= buffer.Length
      modifies buffer
      ensures buffer[CHEAP_PREPEND..CHEAP_PREPEND + n] == old(buffer[from..from + n])
    {
      var k := 0;
      while k < n
        invariant k <= n
        invariant buffer[CHEAP_PREPEND..CHEAP_PREPEND + k] == old(buffer[from..from + k])
        invariant forall i :: CHEAP_PREPEND + k <= i < buffer.Length ==> buffer[i] == old(buffer[i])
      {
        buffer[CHEAP_PREPEND + k] := buffer[from + k];
        k := k + 1;
      }
    }

    /** Grows the array, or slides the readable bytes down over the consumed prefix. */
    method MakeSpace(len: nat)
      requires Valid() && WritableBytes() < len
      modifies this, buffer
      ensures Valid() && (buffer == old(buffer) || fresh(buffer))
      ensures CurrentLayout() == old(CurrentLayout()).MakeSpace(len)
      ensures Readable() == old(Readable())
    {
      MakeSpaceIsSound(CurrentLayout(), len);
      ghost var content := Readable();
      if WritableBytes() + PrependableBytes() < len + CHEAP_PREPEND {
        ghost var whole := buffer[..];
        assert whole[readerIndex..writerIndex] == content;
        Resize(writerIndex + len);
        assert buffer[..][..|whole|] == whole;
        PrefixSlice(whole, buffer[..], readerIndex, writerIndex);
        assert Readable() == buffer[..][readerIndex..writerIndex];
      } else {
        assert CHEAP_PREPEND < readerIndex;
        var readable := ReadableBytes();
        assert buffer[readerIndex..readerIndex + readable] == content;
        CopyDown(readerIndex, readable);
        readerIndex := CHEAP_PREPEND;
        writerIndex := readerIndex + readable;
        assert Readable() == buffer[CHEAP_PREPEND..CHEAP_PREPEND + readable] == content;
      }
    }

    method EnsureWritableBytes(len: nat)
      requires Valid()
      modifies this, buffer
      ensures Valid() && (buffer == old(buffer) || fresh(buffer))
      ensures WritableBytes() >= len
      ensures Snapshot() == Step(old(Snapshot()), Op.EnsureWritable(len))
    {
      if WritableBytes() < len {
        MakeSpaceIsSound(CurrentLayout(), len);
        MakeSpace(len);
      }
    }

    /** Commits bytes the caller has stored behind the writer index. */
    method HasWritten(len: nat)
      requires Valid() && len <= WritableBytes()
      modifies this
      ensures Valid() && buffer == old(buffer)
      ensures Snapshot() == Step(old(Snapshot()), Op.Commit(old(buffer[writerIndex..writerIndex + len])))
    {
      writerIndex := writerIndex + len;
      assert Readable() == old(Readable()) + old(buffer[writerIndex..writerIndex + len]);
    }

    /** `std::copy` into the writable tail. */
    method CopyIn(data: bytes)
      requires Valid() && |data| <= WritableBytes()
      modifies buffer
      ensures buffer[writerIndex..writerIndex + |data|] == data
      ensures Readable() == old(Readable())
    {
      forall i | 0 <= i < |data| {
        buffer[writerIndex + i] := data[i];
      }
    }

    method Append(data: bytes)
      requires Valid()
      modifies this, buffer
      ensures Valid() && (buffer == old(buffer) || fresh(buffer))
      ensures Snapshot() == Step(old(Snapshot()), Op.Append(data))
    {
      hide Step, StepContent, StepLayout;
      ghost var s := Snapshot();
      EnsureWritableBytes(|data|);
      ghost var t := Snapshot();
      CopyIn(data);
      assert Snapshot() == t;
      HasWritten(|data|);
      AppendInTwoSteps(s, data);
    }

    method Unwrite(len: nat)
      requires Valid() && len <= ReadableBytes()
      modifies this
      ensures Valid() && buffer == old(buffer)
      ensures Snapshot() == Step(old(Snapshot()), Op.Unwrite(len))
    {
      writerIndex := writerIndex - len;
    }

    method Prepend(data: bytes)
      requires Valid() && |data| <= PrependableBytes()
      modifies this, buffer
      ensures Valid() && buffer == old(buffer)
      ensures Snapshot() == Step(old(Snapshot()), Op.Prepend(data))
    {
      ghost var content := Readable();
      readerIndex := readerIndex - |data|;
      forall i | 0 <= i < |data| {
        buffer[readerIndex + i] := data[i];
      }
      assert buffer[readerIndex..readerIndex + |data|] == data;
      assert buffer[readerIndex + |data|..writerIndex] == content;
      assert Readable() == data + content;
    }

    /** Moves the content to a fresh buffer with `reserve` bytes to spare. */
    method Shrink(reserve: nat)
      requires Valid()
      modifies this
      ensures Valid() && fresh(buffer)
      ensures Snapshot() == Step(old(Snapshot()), Op.Shrink(reserve))
    {
      hide Step, StepContent, StepLayout;
      ghost var s, o := Snapshot(), State([], InitialLayout(INITIAL_SIZE));
      ShrinkInTwoSteps(s, reserve);
      var other := new Buffer(INITIAL_SIZE);
      other.EnsureWritableBytes(ReadableBytes() + reserve);
      other.Append(Readable());
      assert other.Snapshot() == Step(Step(o, Op.EnsureWritable(|s.content| + reserve)), Op.Append(s.content));
      Swap(other);
    }

    /**
     One `readv` into the writable tail and a stack segment. `incoming` is what the kernel had, cut to
     the offered segments by the caller, or `None` for an error.
     */
    method ReadFd(incoming: Option<bytes>) returns (n: int)
      requires Valid()
      requires incoming.Some? ==> |incoming.value| <= CurrentLayout().ReadvCapacity()
      modifies this, buffer
      ensures Valid() && (buffer == old(buffer) || fresh(buffer))
      ensures incoming.None? ==> n < 0 && Snapshot() == old(Snapshot())
      ensures incoming.Some? ==> n == |incoming.value| && Snapshot() == Step(old(Snapshot()), Op.ReadFd(incoming.value))
    {
      var extrabuf := new byte[EXTRA_SIZE](_ => 0);
      var writable := WritableBytes();
      n := Readv(writable, extrabuf, incoming);
      hide Step, StepLayout, StepContent;
      ghost var s := Snapshot();
      if n < 0 {
      } else if n <= writable {
        ReadFdThatFits(s, incoming.value);
        HasWritten(n);
        assert Snapshot() == Step(s, Op.Commit(incoming.value));
      } else {
        WrittenPast(extrabuf[..n - writable]);
      }
    }

    /** The tail has been filled: it becomes readable, and what is left over is appended. */
    method WrittenPast(rest: bytes)
      requires Valid() && 0 < |rest| <= EXTRA_SIZE && WritableBytes() < EXTRA_SIZE
      modifies this, buffer
      ensures Valid() && (buffer == old(buffer) || fresh(buffer))
      ensures Snapshot() == Step(old(Snapshot()), Op.ReadFd(old(buffer[writerIndex..]) + rest))
    {
      hide Step, StepLayout, StepContent, Enabled;
      ghost var s, head := Snapshot(), buffer[writerIndex..];
      ReadFdInParts(s, head, rest);
      assert buffer[writerIndex..writerIndex + WritableBytes()] == head;
      HasWritten(WritableBytes());
      assert Snapshot() == Step(s, Op.Commit(head));
      Append(rest);
    }

    /** The kernel's half of `readFd`: fill the first segment, then the second. */
    method Readv(writable: nat, extrabuf: array<byte>, incoming: Option<bytes>) returns (n: int)
      requires Valid() && writable == WritableBytes()
      requires extrabuf.Length == EXTRA_SIZE && extrabuf != buffer
      requires incoming.Some? ==> |incoming.value| <= CurrentLayout().ReadvCapacity()
      modifies buffer, extrabuf
      ensures incoming.None? ==> n == -1
      ensures incoming.Some? ==> n == |incoming.value|
      ensures Readable() == old(Readable())
      ensures incoming.Some? && n <= writable ==> buffer[writerIndex..writerIndex + n] == incoming.value
      ensures incoming.Some? && n > writable ==> buffer[writerIndex..] + extrabuf[..n - writable] == incoming.value
    {
      if incoming.None? {
        return -1;
      }
      var data := incoming.value;
      n := |data|;
      if n <= writable {
        CopyIn(data);
      } else {
        CopyIn(data[..writable]);
        forall i | 0 <= i < n - writable {
          extrabuf[i] := data[writable + i];
        }
        assert extrabuf[..n - writable] == data[writable..];
        assert buffer[writerIndex..] == data[..writable];
        TakeAndDrop(data, writable);
      }
    }

    // Integers in network order, converted by the repository's own helpers.

    method AppendInt64(x: int64)
      requires Valid()
      modifies this, buffer
      ensures Valid() && (buffer == old(buffer) || fresh(buffer))
      ensures Snapshot() == Step(old(Snapshot()), Op.Append(Endian.StoreInt64(x)))
    {
      Append(Endian.StoreInt64(x));
    }

    method AppendInt32(x: int32)
      requires Valid()
      modifies this, buffer
      ensures Valid() && (buffer == old(buffer) || fresh(buffer))
      ensures Snapshot() == Step(old(Snapshot()), Op.Append(Be32(x)))
    {
      Append(Be32(x));
    }

    method AppendInt16(x: int16)
      requires Valid()
      modifies this, buffer
      ensures Valid() && (buffer == old(buffer) || fresh(buffer))
      ensures Snapshot() == Step(old(Snapshot()), Op.Append(Endian.StoreInt16(x)))
    {
      Append(Endian.StoreInt16(x));
    }

    method ReadInt64() returns (x: int64)
      requires Valid() && ReadableBytes() >= 8
      modifies this
      ensures Valid() && buffer == old(buffer)
      ensures x == Endian.LoadInt64(old(Readable()))
      ensures Snapshot() == Step(old(Snapshot()), Op.Retrieve(8))
    {
      x := Endian.LoadInt64(Readable());
      Retrieve(8);
    }

    method ReadInt32() returns (x: int32)
      requires Valid() && ReadableBytes() >= 4
      modifies this
      ensures Valid() && buffer == old(buffer)
      ensures x == Endian.LoadInt32(old(Readable()))
      ensures Snapshot() == Step(old(Snapshot()), Op.Retrieve(4))
    {
      x := Endian.LoadInt32(Readable());
      Retrieve(4);
    }

    method ReadInt16() returns (x: int16)
      requires Valid() && ReadableBytes() >= 2
      modifies this
      ensures Valid() && buffer == old(buffer)
      ensures x == Endian.LoadInt16(old(Readable()))
      ensures Snapshot() == Step(old(Snapshot()), Op.Retrieve(2))
    {
      x := Endian.LoadInt16(Readable());
      Retrieve(2);
    }

    method PrependInt32(x: int32)
      requires Valid() && 4 <= PrependableBytes()
      modifies this, buffer
      ensures Valid() && buffer == old(buffer)
      ensures Snapshot() == Step(old(Snapshot()), Op.Prepend(Be32(x)))
    {
      Prepend(Be32(x));
    }
  }

  // ---------------------------------------------------------------------------------------------
  // Runs of the class
  // ---------------------------------------------------------------------------------------------

  /** One operation on the object; bytes committed by `hasWritten` are first copied behind the writer index. */
  method Perform(buf: Buffer, op: Op)
    requires buf.Valid() && Enabled(buf.Snapshot(), op)
    modifies buf, buf.buffer
    ensures buf.Valid() && (buf.buffer == old(buf.buffer) || fresh(buf.buffer))
    ensures buf.Snapshot() == Step(old(buf.Snapshot()), op)
  {
    hide Step, StepContent, StepLayout;
    match op
    case Append(data) => buf.Append(data);
    case EnsureWritable(len) => buf.EnsureWritableBytes(len);
    case Commit(data) =>
      buf.CopyIn(data);
      buf.HasWritten(|data|);
    case ReadFd(data) => var n := buf.ReadFd(Some(data));
    case Retrieve(len) => buf.Retrieve(len);
    case RetrieveAll => buf.RetrieveAll();
    case Prepend(data) => buf.Prepend(data);
    case Unwrite(len) => buf.Unwrite(len);
    case Shrink(reserve) => buf.Shrink(reserve);
  }

  /** Over every sequence of operations the array and its indices hold what the plain byte queue holds. */
  method PerformAll(buf: Buffer, ops: seq<Op>)
    requires buf.Valid() && Runs(buf.Snapshot(), ops)
    modifies buf, buf.buffer
    ensures buf.Valid()
    ensures buf.Readable() == RunContent(old(buf.Readable()), ops)
    ensures buf.Snapshot() == Run(old(buf.Snapshot()), ops)
  {
    hide Step, Enabled, RunContent;
    ghost var start := buf.Snapshot();
    var i := 0;
    assert ops[0..] == ops;
    while i < |ops|
      invariant buf.Valid() && i <= |ops|
      invariant buf.buffer == old(buf.buffer) || fresh(buf.buffer)
      invariant Runs(buf.Snapshot(), ops[i..])
      invariant Run(buf.Snapshot(), ops[i..]) == Run(start, ops)
    {
      assert ops[i..][1..] == ops[i + 1..];
      Perform(buf, ops[i]);
      i := i + 1;
    }
    RunRefinesQueue(start, ops);
  }
}
