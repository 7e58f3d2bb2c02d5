/**
 Copy-on-write sharing under one mutex, as interleaved atomic steps over explicit use counts. Readers take
 a reference under the lock and drop it outside; writers copy when the list is shared.
 */
module CopyOnWrite {
  import opened Wrappers

  type Item = nat
  type Ref = nat
  type CallId = nat

  /** What a writer does to the shared container: `push_back` on `g_foos`, `insert` and `erase` on the inventory. */
  datatype Update = PushBack(item: Item) | Insert(item: Item) | Erase(item: Item)

  /** `std::set` keeps its elements in order. */
  function InsertSorted(s: seq<Item>, x: Item): seq<Item> {
    if s == [] || x < s[0] then [x] + s
    else if x == s[0] then s
    else [s[0]] + InsertSorted(s[1..], x)
  }

  function EraseFrom(s: seq<Item>, x: Item): seq<Item> {
    if s == [] then []
    else if s[0] == x then s[1..]
    else [s[0]] + EraseFrom(s[1..], x)
  }

  function Apply(s: seq<Item>, u: Update): seq<Item> {
    match u
    case PushBack(x) => s + [x]
    case Insert(x) => InsertSorted(s, x)
    case Erase(x) => EraseFrom(s, x)
  }

  /** The container after a sequence of updates, starting empty. */
  function Replay(log: seq<Update>): seq<Item> {
    if log == [] then [] else Apply(Replay(log[..|log| - 1]), log[|log| - 1])
  }

  // ---------------------------------------------------------------------------------------------
  // States
  // ---------------------------------------------------------------------------------------------

  /** A heap-allocated container and the use count of the pointers to it. */
  datatype Vec = Vec(content: seq<Item>, count: nat)

  datatype TraversePc = TStart | TLocked | TCopied | TVisiting | TDone

  datatype PostPc = PStart | PLocked | PChecked(shared: bool) | PReady | PPushed | PDone

  /**
   A call in progress or finished. `snap` is the number of posts made before the traversal's lock point,
   `slot` the post's place among them. `parent` is the traversal whose `doit()` made the call.
   */
  datatype Call =
    | Traverse(tpc: TraversePc, ptr: Ref, seen: seq<Item>, snap: nat, parent: Option<CallId>)
    | Post(ppc: PostPc, update: Update, slot: nat, parent: Option<CallId>)
  {
    predicate Done() {
      match this
      case Traverse(pc, _, _, _, _) => pc == TDone
      case Post(pc, _, _, _) => pc == PDone
    }

    predicate InCriticalSection() {
      match this
      case Traverse(pc, _, _, _, _) => pc == TLocked || pc == TCopied
      case Post(pc, _, _, _) => pc == PLocked || pc.PChecked? || pc == PReady || pc == PPushed
    }

    /** The call owns a reference to `r`. */
    predicate Holds(r: Ref) {
      Traverse? && (tpc == TCopied || tpc == TVisiting) && ptr == r
    }

    predicate Pushed() {
      Post? && (ppc == PPushed || ppc == PDone)
    }

    /** The traversal is past its lock point. */
    predicate Snapped() {
      Traverse? && (tpc == TCopied || tpc == TVisiting || tpc == TDone)
    }
  }

  /** Call ids are handed out in order; `log` are the updates made so far. */
  datatype State = State(
    heap: map<Ref, Vec>, global: Ref, nextRef: Ref, lock: Option<CallId>, calls: seq<Call>, log: seq<Update>)

  function Initial(): (s: State)
    ensures Inv(s)
  {
    assert Readers([], 0) == {};
    State(map[0 := Vec([], 1)], 0, 1, None, [], [])
  }

  // ---------------------------------------------------------------------------------------------
  // Steps
  // ---------------------------------------------------------------------------------------------

  datatype Step =
    | BeginTraverse(parent: Option<CallId>)
    | BeginPost(update: Update, parent: Option<CallId>)
    | Advance(id: CallId)

  /** A call made from `doit()` is made while its traversal visits an element. */
  predicate ParentVisits(s: State, parent: Option<CallId>) {
    parent.Some? ==>
      parent.value < |s.calls| && s.calls[parent.value].Traverse? && s.calls[parent.value].tpc == TVisiting
      && s.calls[parent.value].seen != [] && NoOpenChild(s, parent.value)
  }

  /** `doit()` has returned. */
  predicate NoOpenChild(s: State, id: CallId) {
    forall k :: 0 <= k < |s.calls| && s.calls[k].parent == Some(id) ==> s.calls[k].Done()
  }

  predicate CanAdvance(s: State, id: CallId) {
    && id < |s.calls|
    && match s.calls[id]
       case Traverse(pc, _, _, _, _) =>
         (pc == TStart ==> s.lock == None) && (pc == TVisiting ==> NoOpenChild(s, id)) && pc != TDone
       case Post(pc, _, _, _) => (pc == PStart ==> s.lock == None) && pc != PDone
  }

  predicate Enabled(s: State, step: Step) {
    match step
    case BeginTraverse(parent) => ParentVisits(s, parent)
    case BeginPost(_, parent) => ParentVisits(s, parent)
    case Advance(id) => CanAdvance(s, id)
  }

  /** One pointer to `r` goes away; the last one frees the container. */
  function DropRef(heap: map<Ref, Vec>, r: Ref): map<Ref, Vec>
    requires r in heap
  {
    if heap[r].count <= 1 then heap - {r} else heap[r := heap[r].(count := heap[r].count - 1)]
  }

  function SetCall(s: State, id: CallId, c: Call): State
    requires id < |s.calls|
  {
    s.(calls := s.calls[id := c])
  }

  function AdvanceTraverse(s: State, id: CallId): State
    requires id < |s.calls| && s.calls[id].Traverse?
    requires s.global in s.heap && (s.calls[id].tpc == TVisiting ==> s.calls[id].ptr in s.heap)
  {
    var c := s.calls[id];
    match c.tpc
    case TStart => SetCall(s.(lock := Some(id)), id, c.(tpc := TLocked))
    case TLocked =>
      var v := s.heap[s.global];
      SetCall(s.(heap := s.heap[s.global := v.(count := v.count + 1)]), id,
              c.(tpc := TCopied, ptr := s.global, snap := |s.log|))
    case TCopied => SetCall(s.(lock := None), id, c.(tpc := TVisiting))
    case TVisiting =>
      var content := s.heap[c.ptr].content;
      if |c.seen| < |content| then SetCall(s, id, c.(seen := c.seen + [content[|c.seen|]]))
      else SetCall(s.(heap := DropRef(s.heap, c.ptr)), id, c.(tpc := TDone))
    case TDone => s
  }

  function AdvancePost(s: State, id: CallId): State
    requires id < |s.calls| && s.calls[id].Post? && s.global in s.heap
  {
    var c := s.calls[id];
    match c.ppc
    case PStart => SetCall(s.(lock := Some(id)), id, c.(ppc := PLocked))
    case PLocked => SetCall(s, id, c.(ppc := PChecked(s.heap[s.global].count != 1)))
    case PChecked(shared) =>
      if shared then
        var copy := Vec(s.heap[s.global].content, 1);
        SetCall(s.(heap := DropRef(s.heap, s.global)[s.nextRef := copy], global := s.nextRef, nextRef := s.nextRef + 1),
                id, c.(ppc := PReady))
      else SetCall(s, id, c.(ppc := PReady))
    case PReady =>
      var v := s.heap[s.global];
      SetCall(s.(heap := s.heap[s.global := v.(content := Apply(v.content, c.update))], log := s.log + [c.update]),
              id, c.(ppc := PPushed, slot := |s.log|))
    case PPushed => SetCall(s.(lock := None), id, c.(ppc := PDone))
    case PDone => s
  }

  function Next(s: State, step: Step): State
    requires Inv(s) && Enabled(s, step)
  {
    match step
    case BeginTraverse(parent) => s.(calls := s.calls + [Traverse(TStart, 0, [], 0, parent)])
    case BeginPost(u, parent) => s.(calls := s.calls + [Post(PStart, u, 0, parent)])
    case Advance(id) => if s.calls[id].Traverse? then AdvanceTraverse(s, id) else AdvancePost(s, id)
  }

  // ---------------------------------------------------------------------------------------------
  // The invariant
  // ---------------------------------------------------------------------------------------------

  function Readers(calls: seq<Call>, r: Ref): set<CallId> {
    set id | 0 <= id < |calls| && calls[id].Holds(r)
  }

  /** The use count of a live container is the number of references to it, and it is not freed while any is left. */
  ghost predicate CountsAreRight(heap: map<Ref, Vec>, global: Ref, nextRef: Ref, calls: seq<Call>) {
    && global in heap
    && (forall r :: r in heap ==> r < nextRef)
    && (forall r :: r in heap ==>
          heap[r].count == |Readers(calls, r)| + (if r == global then 1 else 0) && heap[r].count > 0)
    && (forall id, r :: 0 <= id < |calls| && calls[id].Holds(r) ==> r in heap)
  }

  /** One call at a time is in the critical section, the one the mutex says. */
  ghost predicate LockIsRight(lock: Option<CallId>, calls: seq<Call>) {
    && (lock.Some? ==> lock.value < |calls|)
    && (forall id :: 0 <= id < |calls| ==> (calls[id].InCriticalSection() <==> lock == Some(id)))
  }

  /** A traversal sees the posts made before its lock point, and all of them once it is done. */
  ghost predicate ReaderIsRight(heap: map<Ref, Vec>, global: Ref, log: seq<Update>, c: Call)
    requires c.Traverse?
  {
    && ((c.tpc == TStart || c.tpc == TLocked) ==> c.seen == [])
    && (c.tpc == TCopied ==> c.ptr == global)
    && ((c.tpc == TCopied || c.tpc == TVisiting) ==>
          && c.ptr in heap && c.snap <= |log|
          && heap[c.ptr].content == Replay(log[..c.snap])
          && c.seen <= heap[c.ptr].content)
    && (c.tpc == TDone ==> c.snap <= |log| && c.seen == Replay(log[..c.snap]))
  }

  /** A writer past its test is alone with the list, and a finished one has its update in the log. */
  ghost predicate WriterIsRight(heap: map<Ref, Vec>, global: Ref, log: seq<Update>, c: Call)
    requires c.Post?
  {
    && ((c.ppc == PChecked(false) || c.ppc == PReady) ==> global in heap && heap[global].count == 1)
    && (c.Pushed() ==> c.slot < |log| && log[c.slot] == c.update)
  }

  ghost predicate CallIsRight(heap: map<Ref, Vec>, global: Ref, log: seq<Update>, c: Call) {
    if c.Traverse? then ReaderIsRight(heap, global, log, c) else WriterIsRight(heap, global, log, c)
  }

  /** The log is made of the posts that have pushed, each once. */
  ghost predicate LogIsRight(log: seq<Update>, calls: seq<Call>) {
    && (forall i, j :: 0 <= i < j < |calls| && calls[i].Pushed() && calls[j].Pushed() ==>
          calls[i].slot != calls[j].slot)
    && (forall i :: 0 <= i < |calls| && calls[i].Pushed() ==> calls[i].slot < |log|)
    && (forall k :: 0 <= k < |log| ==> HasPost(calls, k))
  }

  predicate HasPost(calls: seq<Call>, k: nat) {
    exists i :: 0 <= i < |calls| && calls[i].Pushed() && calls[i].slot == k
  }

  ghost predicate ParentsAreOlder(calls: seq<Call>) {
    forall id :: 0 <= id < |calls| && calls[id].parent.Some? ==> calls[id].parent.value < id
  }

  ghost predicate Inv(s: State) {
    && CountsAreRight(s.heap, s.global, s.nextRef, s.calls)
    && s.heap[s.global].content == Replay(s.log)
    && LockIsRight(s.lock, s.calls)
    && (forall id :: 0 <= id < |s.calls| ==> CallIsRight(s.heap, s.global, s.log, s.calls[id]))
    && LogIsRight(s.log, s.calls)
    && ParentsAreOlder(s.calls)
  }

  // ---------------------------------------------------------------------------------------------
  // Every step keeps it
  // ---------------------------------------------------------------------------------------------

  lemma ReadersAfter(calls: seq<Call>, id: CallId, c: Call, r: Ref)
    requires id < |calls|
    ensures Readers(calls[id := c], r) == (if c.Holds(r) then Readers(calls, r) + {id} else Readers(calls, r) - {id})
    ensures calls[id].Holds(r) <==> id in Readers(calls, r)
  {
  }

  lemma ReaderCount(calls: seq<Call>, id: CallId, c: Call, r: Ref)
    requires id < |calls|
    ensures |Readers(calls[id := c], r)|
      == |Readers(calls, r)| + (if c.Holds(r) then 1 else 0) - (if calls[id].Holds(r) then 1 else 0)
  {
    ReadersAfter(calls, id, c, r);
  }

  lemma HolderCounts(calls: seq<Call>, id: CallId, r: Ref)
    requires id < |calls| && calls[id].Holds(r)
    ensures |Readers(calls, r)| >= 1
  {
    assert id in Readers(calls, r);
  }

  lemma NoHolderCounts(calls: seq<Call>, r: Ref)
    requires forall id :: 0 <= id < |calls| ==> !calls[id].Holds(r)
    ensures |Readers(calls, r)| == 0
  {
    assert Readers(calls, r) == {};
  }

  lemma ReadersAfterBegin(calls: seq<Call>, c: Call, r: Ref)
    requires !c.Holds(r)
    ensures Readers(calls + [c], r) == Readers(calls, r)
  {
  }

  /** A step that neither takes nor drops a reference leaves the counts right. */
  lemma CountsKept(heap: map<Ref, Vec>, global: Ref, nextRef: Ref, calls: seq<Call>, id: CallId, c: Call)
    requires CountsAreRight(heap, global, nextRef, calls) && id < |calls|
    requires forall r :: c.Holds(r) <==> calls[id].Holds(r)
    ensures CountsAreRight(heap, global, nextRef, calls[id := c])
  {
    forall r ensures Readers(calls[id := c], r) == Readers(calls, r) {
      ReadersAfter(calls, id, c, r);
    }
  }

  lemma BeginKeepsInv(s: State, c: Call)
    requires Inv(s) && !c.InCriticalSection() && !c.Pushed()
    requires
      || c == Traverse(TStart, 0, [], 0, c.parent)
      || c == Post(PStart, if c.Post? then c.update else Erase(0), 0, c.parent)
    requires c.parent.Some? ==> c.parent.value < |s.calls|
    ensures Inv(s.(calls := s.calls + [c]))
  {
    hide Replay, Readers;
    forall r ensures Readers(s.calls + [c], r) == Readers(s.calls, r) {
      ReadersAfterBegin(s.calls, c, r);
    }
    LogKeptByBegin(s.log, s.calls, c);
  }

  lemma LogKeptByBegin(log: seq<Update>, calls: seq<Call>, c: Call)
    requires LogIsRight(log, calls) && !c.Pushed()
    ensures LogIsRight(log, calls + [c])
  {
    forall k | 0 <= k < |log| ensures HasPost(calls + [c], k) {
      assert HasPost(calls, k);
      var i :| 0 <= i < |calls| && calls[i].Pushed() && calls[i].slot == k;
      assert (calls + [c])[i] == calls[i];
    }
  }

  /** A step of a call that does not push leaves the log right. */
  lemma LogKept(log: seq<Update>, calls: seq<Call>, id: CallId, c: Call)
    requires LogIsRight(log, calls) && id < |calls|
    requires c.Pushed() <==> calls[id].Pushed()
    requires c.Pushed() ==> c.slot == calls[id].slot
    ensures LogIsRight(log, calls[id := c])
  {
    var calls' := calls[id := c];
    forall k | 0 <= k < |log| ensures HasPost(calls', k) {
      assert HasPost(calls, k);
      var i :| 0 <= i < |calls| && calls[i].Pushed() && calls[i].slot == k;
      assert calls'[i].Pushed() && calls'[i].slot == k;
    }
  }

  /** The steps that touch only the mutex and the caller's own state. */
  lemma QuietStepKeepsInv(s: State, id: CallId, c: Call, lock: Option<CallId>)
    requires Inv(s) && id < |s.calls| && c.parent == s.calls[id].parent
    requires forall r :: c.Holds(r) <==> s.calls[id].Holds(r)
    requires (c.Pushed() <==> s.calls[id].Pushed()) && (c.Pushed() ==> c.slot == s.calls[id].slot)
    requires CallIsRight(s.heap, s.global, s.log, c)
    requires LockIsRight(lock, s.calls[id := c])
    ensures Inv(SetCall(s.(lock := lock), id, c))
  {
    hide CountsAreRight, LogIsRight, CallIsRight;
    CountsKept(s.heap, s.global, s.nextRef, s.calls, id, c);
    LogKept(s.log, s.calls, id, c);
    assert s.heap == SetCall(s.(lock := lock), id, c).heap;
    assert s.global in s.heap by {
      CountsHaveGlobal(s);
    }
  }

  lemma CountsHaveGlobal(s: State)
    requires Inv(s)
    ensures s.global in s.heap
  {
  }

  /** What a call relies on: the content of the list it reads, or being alone with the global one. */
  lemma OtherCallKept(heap: map<Ref, Vec>, heap': map<Ref, Vec>, global: Ref, log: seq<Update>, c: Call)
    requires CallIsRight(heap, global, log, c)
    requires c.Traverse? && c.Holds(c.ptr) && c.ptr in heap ==>
      c.ptr in heap' && heap'[c.ptr].content == heap[c.ptr].content
    requires c.Post? && (c.ppc == PChecked(false) || c.ppc == PReady) && global in heap && heap[global].count == 1
      ==> global in heap' && heap'[global].count == 1
    ensures CallIsRight(heap', global, log, c)
  {
    hide Replay;
  }

  lemma CountsAfterTake(heap: map<Ref, Vec>, global: Ref, nextRef: Ref, calls: seq<Call>, id: CallId, c: Call)
    requires CountsAreRight(heap, global, nextRef, calls) && id < |calls|
    requires forall r :: !calls[id].Holds(r) && (c.Holds(r) <==> r == global)
    ensures
      var heap' := heap[global := heap[global].(count := heap[global].count + 1)];
      CountsAreRight(heap', global, nextRef, calls[id := c])
  {
    hide Readers;
    forall r ensures |Readers(calls[id := c], r)| == |Readers(calls, r)| + (if r == global then 1 else 0) {
      ReaderCount(calls, id, c, r);
    }
  }

  /** `foos = g_foos` under the lock: one more owner, and the assertion that the list is now shared holds. */
  lemma CopyPointerKeepsInv(s: State, id: CallId)
    requires Inv(s) && id < |s.calls| && s.calls[id].Traverse? && s.calls[id].tpc == TLocked
    ensures Inv(AdvanceTraverse(s, id))
    ensures AdvanceTraverse(s, id).heap[s.global].count >= 2
  {
    hide Replay, LogIsRight, CountsAreRight, CallIsRight;
    CountsHaveGlobal(s);
    var t, c := AdvanceTraverse(s, id), AdvanceTraverse(s, id).calls[id];
    assert c == s.calls[id].(tpc := TCopied, ptr := s.global, snap := |s.log|);
    CountsAfterTake(s.heap, s.global, s.nextRef, s.calls, id, c);
    LogKept(s.log, s.calls, id, c);
    forall k | 0 <= k < |t.calls| ensures CallIsRight(t.heap, t.global, t.log, t.calls[k]) {
      if k == id {
        NewReaderIsRight(s, id);
      } else {
        assert !s.calls[k].InCriticalSection();
        OtherCallKept(s.heap, t.heap, s.global, s.log, s.calls[k]);
      }
    }
    CountPositive(s);
  }

  lemma CountPositive(s: State)
    requires Inv(s)
    ensures s.heap[s.global].count >= 1
  {
  }

  lemma NewReaderIsRight(s: State, id: CallId)
    requires Inv(s) && id < |s.calls| && s.calls[id].Traverse? && s.calls[id].tpc == TLocked
    ensures CallIsRight(AdvanceTraverse(s, id).heap, s.global, s.log, AdvanceTraverse(s, id).calls[id])
  {
    hide Replay, LogIsRight, CountsAreRight;
    CountsHaveGlobal(s);
    assert CallIsRight(s.heap, s.global, s.log, s.calls[id]);
    assert s.log[..|s.log|] == s.log;
  }

  /** A reader lets go: the list goes away only if nobody else had it. */
  lemma CountsAfterDrop(heap: map<Ref, Vec>, global: Ref, nextRef: Ref, calls: seq<Call>, id: CallId, p: Ref, c: Call)
    requires CountsAreRight(heap, global, nextRef, calls) && id < |calls| && p in heap
    requires forall r :: (calls[id].Holds(r) <==> r == p) && !c.Holds(r)
    ensures CountsAreRight(DropRef(heap, p), global, nextRef, calls[id := c])
    ensures forall k, r :: 0 <= k < |calls| && k != id && calls[k].Holds(r) ==>
      r in DropRef(heap, p) && r in heap && DropRef(heap, p)[r].content == heap[r].content
    ensures global in DropRef(heap, p) && DropRef(heap, p)[global].content == heap[global].content
    ensures heap[global].count == 1 ==> DropRef(heap, p)[global].count == 1
  {
    hide Readers;
    var calls' := calls[id := c];
    forall r ensures |Readers(calls', r)| == |Readers(calls, r)| - (if r == p then 1 else 0) {
      ReaderCount(calls, id, c, r);
    }
    HolderCounts(calls, id, p);
    forall k, r | 0 <= k < |calls| && k != id && calls[k].Holds(r)
      ensures r in DropRef(heap, p)
    {
      HolderCounts(calls', k, r);
    }
  }

  /** Dropping the snapshot outside the lock: nobody else's list goes away. */
  lemma DropPointerKeepsInv(s: State, id: CallId)
    requires Inv(s) && id < |s.calls| && s.calls[id].Traverse? && s.calls[id].tpc == TVisiting
    requires s.calls[id].ptr in s.heap && |s.calls[id].seen| >= |s.heap[s.calls[id].ptr].content|
    ensures Inv(AdvanceTraverse(s, id))
  {
    hide Replay, LogIsRight, CountsAreRight, CallIsRight, DropRef;
    CountsHaveGlobal(s);
    var c, p := s.calls[id].(tpc := TDone), s.calls[id].ptr;
    var t := SetCall(s.(heap := DropRef(s.heap, p)), id, c);
    CountsAfterDrop(s.heap, s.global, s.nextRef, s.calls, id, p, c);
    LogKept(s.log, s.calls, id, c);
    forall k | 0 <= k < |t.calls| ensures CallIsRight(t.heap, t.global, t.log, t.calls[k]) {
      assert CallIsRight(s.heap, s.global, s.log, s.calls[k]);
      if k == id {
        DoneReaderIsRight(s, id, t.heap);
      } else {
        OtherCallKept(s.heap, t.heap, s.global, s.log, s.calls[k]);
      }
    }
    DropPointerIs(s, id);
  }

  lemma DropPointerIs(s: State, id: CallId)
    requires Inv(s) && id < |s.calls| && s.calls[id].Traverse? && s.calls[id].tpc == TVisiting
    requires s.calls[id].ptr in s.heap && |s.calls[id].seen| >= |s.heap[s.calls[id].ptr].content|
    ensures s.global in s.heap
    ensures
      var heap' := DropRef(s.heap, s.calls[id].ptr);
      AdvanceTraverse(s, id) == SetCall(s.(heap := heap'), id, s.calls[id].(tpc := TDone))
  {
  }

  lemma DoneReaderIsRight(s: State, id: CallId, heap: map<Ref, Vec>)
    requires id < |s.calls| && s.calls[id].Traverse? && s.calls[id].tpc == TVisiting
    requires CallIsRight(s.heap, s.global, s.log, s.calls[id])
    requires s.calls[id].ptr in s.heap && |s.calls[id].seen| >= |s.heap[s.calls[id].ptr].content|
    ensures CallIsRight(heap, s.global, s.log, s.calls[id].(tpc := TDone))
  {
    hide Replay;
  }

  lemma CountsAfterCopy(heap: map<Ref, Vec>, global: Ref, nextRef: Ref, calls: seq<Call>, id: CallId, c: Call)
    requires CountsAreRight(heap, global, nextRef, calls) && id < |calls|
    requires forall r :: !calls[id].Holds(r) && !c.Holds(r)
    ensures var heap' := DropRef(heap, global)[nextRef := Vec(heap[global].content, 1)];
      && CountsAreRight(heap', nextRef, nextRef + 1, calls[id := c])
      && forall k, r :: 0 <= k < |calls| && calls[k].Holds(r) ==>
           r in heap && r in heap' && heap'[r].content == heap[r].content
  {
    var heap', calls' := DropRef(heap, global)[nextRef := Vec(heap[global].content, 1)], calls[id := c];
    hide Readers;
    forall r ensures |Readers(calls', r)| == |Readers(calls, r)| {
      ReaderCount(calls, id, c, r);
    }
    forall k | 0 <= k < |calls| ensures !calls[k].Holds(nextRef) {
      assert calls[k].Holds(nextRef) ==> nextRef in heap;
    }
    NoHolderCounts(calls, nextRef);
    forall k, r | 0 <= k < |calls| && calls[k].Holds(r)
      ensures r in heap'
    {
      HolderCounts(calls, k, r);
    }
  }

  /** `reset(new FooList(*g_foos))`: the readers keep the old list, the global pointer gets its own copy. */
  lemma CopyListKeepsInv(s: State, id: CallId)
    requires Inv(s) && id < |s.calls| && s.calls[id].Post? && s.calls[id].ppc == PChecked(true)
    ensures Inv(AdvancePost(s, id))
  {
    hide Replay, LogIsRight, CountsAreRight, CallIsRight, DropRef;
    CountsHaveGlobal(s);
    var t, c := AdvancePost(s, id), s.calls[id].(ppc := PReady);
    CountsAfterCopy(s.heap, s.global, s.nextRef, s.calls, id, c);
    LogKept(s.log, s.calls, id, c);
    forall k | 0 <= k < |t.calls| ensures CallIsRight(t.heap, t.global, t.log, t.calls[k]) {
      assert CallIsRight(s.heap, s.global, s.log, s.calls[k]);
      if k == id {
        ReadyWriterIsRight(t.heap, t.global, t.log, c);
      } else {
        assert !s.calls[k].InCriticalSection();
        OutsiderKept(s.heap, t.heap, s.global, t.global, s.log, s.calls[k]);
      }
    }
  }

  lemma ReadyWriterIsRight(heap: map<Ref, Vec>, global: Ref, log: seq<Update>, c: Call)
    requires c.Post? && c.ppc == PReady && global in heap && heap[global].count == 1
    ensures CallIsRight(heap, global, log, c)
  {
  }

  /** A call outside the critical section does not care which list is the global one. */
  lemma OutsiderKept(heap: map<Ref, Vec>, heap': map<Ref, Vec>, global: Ref, global': Ref, log: seq<Update>, c: Call)
    requires CallIsRight(heap, global, log, c) && !c.InCriticalSection()
    requires c.Traverse? && c.Holds(c.ptr) && c.ptr in heap ==>
      c.ptr in heap' && heap'[c.ptr].content == heap[c.ptr].content
    ensures CallIsRight(heap', global', log, c)
  {
    hide Replay;
  }

  lemma LogGrows(log: seq<Update>, calls: seq<Call>, id: CallId, c: Call)
    requires LogIsRight(log, calls) && id < |calls| && !calls[id].Pushed()
    requires c.Pushed() && c.slot == |log|
    ensures LogIsRight(log + [c.update], calls[id := c])
  {
    var calls' := calls[id := c];
    forall k | 0 <= k < |log| + 1 ensures HasPost(calls', k) {
      if k == |log| {
        assert calls'[id].slot == k;
      } else {
        assert HasPost(calls, k);
        var i :| 0 <= i < |calls| && calls[i].Pushed() && calls[i].slot == k;
        assert calls'[i] == calls[i];
      }
    }
  }

  /** Sole ownership: no reader has the list a writer is about to change. */
  lemma AloneMeansUnread(s: State)
    requires CountsAreRight(s.heap, s.global, s.nextRef, s.calls) && s.heap[s.global].count == 1
    ensures forall k :: 0 <= k < |s.calls| ==> !s.calls[k].Holds(s.global)
  {
    assert |Readers(s.calls, s.global)| == 0;
    forall k | 0 <= k < |s.calls| ensures !s.calls[k].Holds(s.global) {
      assert k !in Readers(s.calls, s.global);
    }
  }

  /** More log does not change what a reader outside the global list sees. */
  lemma ReaderKeptByPush(heap: map<Ref, Vec>, global: Ref, log: seq<Update>, c: Call, u: Update, v: Vec)
    requires CallIsRight(heap, global, log, c) && !c.InCriticalSection() && !c.Holds(global)
    ensures CallIsRight(heap[global := v], global, log + [u], c)
  {
    hide Replay;
    if c.Traverse? && c.snap <= |log| {
      assert (log + [u])[..c.snap] == log[..c.snap];
    }
  }

  /** `push_back` in place: nobody else can see the list, and the update becomes the last of the log. */
  lemma PushKeepsInv(s: State, id: CallId)
    requires Inv(s) && id < |s.calls| && s.calls[id].Post? && s.calls[id].ppc == PReady
    ensures Inv(AdvancePost(s, id))
    ensures s.heap[s.global].count == 1
  {
    hide Apply, LogIsRight, CallIsRight, Readers, Replay;
    CountsHaveGlobal(s);
    var t, c, v := AdvancePost(s, id), AdvancePost(s, id).calls[id], s.heap[s.global];
    ReadyIsAlone(s, id);
    AloneMeansUnread(s);
    CountsKept(s.heap, s.global, s.nextRef, s.calls, id, c);
    ReplayOneMore(s.log, c.update);
    LogGrows(s.log, s.calls, id, c);
    forall k | 0 <= k < |t.calls| ensures CallIsRight(t.heap, t.global, t.log, t.calls[k]) {
      if k == id {
        PushedWriterIsRight(t.heap, t.global, t.log, c);
      } else {
        ReaderKeptByPush(s.heap, s.global, s.log, s.calls[k], c.update, t.heap[s.global]);
      }
    }
  }

  lemma ReadyIsAlone(s: State, id: CallId)
    requires Inv(s) && id < |s.calls| && s.calls[id].Post?
    requires s.calls[id].ppc == PReady || s.calls[id].ppc == PChecked(false)
    ensures s.global in s.heap && s.heap[s.global].count == 1
  {
    hide LogIsRight, CountsAreRight;
    assert CallIsRight(s.heap, s.global, s.log, s.calls[id]);
  }

  lemma PushedWriterIsRight(heap: map<Ref, Vec>, global: Ref, log: seq<Update>, c: Call)
    requires c.Post? && c.ppc == PPushed && c.slot < |log| && log[c.slot] == c.update
    ensures CallIsRight(heap, global, log, c)
  {
  }

  lemma ReplayOneMore(log: seq<Update>, u: Update)
    ensures Replay(log + [u]) == Apply(Replay(log), u)
  {
    assert (log + [u])[..|log|] == log;
  }

  lemma TraverseStepKeepsInv(s: State, id: CallId)
    requires Inv(s) && CanAdvance(s, id) && s.calls[id].Traverse?
    ensures Inv(Next(s, Advance(id)))
  {
    hide Replay, CountsAreRight, LogIsRight;
    CountsHaveGlobal(s);
    var c := s.calls[id];
    assert CallIsRight(s.heap, s.global, s.log, c);
    match c.tpc
    case TStart => QuietStepKeepsInv(s, id, c.(tpc := TLocked), Some(id));
    case TLocked => CopyPointerKeepsInv(s, id);
    case TCopied => QuietStepKeepsInv(s, id, c.(tpc := TVisiting), None);
    case TVisiting =>
      var content := s.heap[c.ptr].content;
      if |c.seen| < |content| {
        QuietStepKeepsInv(s, id, c.(seen := c.seen + [content[|c.seen|]]), s.lock);
      } else {
        DropPointerKeepsInv(s, id);
      }
  }

  lemma PostStepKeepsInv(s: State, id: CallId)
    requires Inv(s) && CanAdvance(s, id) && s.calls[id].Post?
    ensures Inv(Next(s, Advance(id)))
  {
    hide Replay, CountsAreRight, LogIsRight;
    CountsHaveGlobal(s);
    var c := s.calls[id];
    assert CallIsRight(s.heap, s.global, s.log, c);
    match c.ppc
    case PStart => QuietStepKeepsInv(s, id, c.(ppc := PLocked), Some(id));
    case PLocked => QuietStepKeepsInv(s, id, c.(ppc := PChecked(s.heap[s.global].count != 1)), s.lock);
    case PChecked(shared) =>
      if shared {
        CopyListKeepsInv(s, id);
      } else {
        QuietStepKeepsInv(s, id, c.(ppc := PReady), s.lock);
      }
    case PReady => PushKeepsInv(s, id);
    case PPushed => QuietStepKeepsInv(s, id, c.(ppc := PDone), None);
  }

  /** Every step of every interleaving keeps the invariant. */
  lemma StepKeepsInv(s: State, step: Step)
    requires Inv(s) && Enabled(s, step)
    ensures Inv(Next(s, step))
  {
    hide CountsAreRight, LogIsRight, CallIsRight, LockIsRight;
    match step
    case BeginTraverse(parent) => BeginKeepsInv(s, Traverse(TStart, 0, [], 0, parent));
    case BeginPost(u, parent) => BeginKeepsInv(s, Post(PStart, u, 0, parent));
    case Advance(id) =>
      if s.calls[id].Traverse? {
        TraverseStepKeepsInv(s, id);
      } else {
        PostStepKeepsInv(s, id);
      }
  }

  // ---------------------------------------------------------------------------------------------
  // Runs
  // ---------------------------------------------------------------------------------------------

  ghost predicate Runs(s: State, steps: seq<Step>)
    requires Inv(s)
    decreases |steps|
  {
    steps != [] ==> Enabled(s, steps[0]) && (StepKeepsInv(s, steps[0]); Runs(Next(s, steps[0]), steps[1..]))
  }

  ghost function Run(s: State, steps: seq<Step>): State
    requires Inv(s) && Runs(s, steps)
    decreases |steps|
  {
    if steps == [] then s else (StepKeepsInv(s, steps[0]); Run(Next(s, steps[0]), steps[1..]))
  }

  lemma {:induction false} RunKeepsInv(s: State, steps: seq<Step>)
    requires Inv(s) && Runs(s, steps)
    ensures Inv(Run(s, steps)) && s.log <= Run(s, steps).log
    decreases |steps|
  {
    hide Inv, Next, Enabled;
    if steps != [] {
      StepKeepsInv(s, steps[0]);
      LogOnlyGrows(s, steps[0]);
      RunKeepsInv(Next(s, steps[0]), steps[1..]);
    }
  }

  /** Posts are only ever added, and a traversal's view is fixed at its lock point. */
  ghost predicate LogGrown(s: State, step: Step, n: State) {
    && s.log <= n.log && |s.calls| <= |n.calls|
    && forall id :: 0 <= id < |s.calls| && s.calls[id].Traverse? ==>
         && n.calls[id].Traverse?
         && n.calls[id].snap ==
              if step == Advance(id) && s.calls[id].tpc == TLocked then |s.log| else s.calls[id].snap
  }

  lemma LogOnlyGrows(s: State, step: Step)
    requires Inv(s) && Enabled(s, step)
    ensures LogGrown(s, step, Next(s, step))
  {
    hide Inv, Apply, DropRef;
  }

  // ---------------------------------------------------------------------------------------------
  // The promises
  // ---------------------------------------------------------------------------------------------

  /** A list changes only under its sole owner, the global pointer, with no reader on it. */
  lemma OnlySoleOwnerMutates(s: State, step: Step, r: Ref)
    requires Inv(s) && Enabled(s, step)
    requires r in s.heap && r in Next(s, step).heap && Next(s, step).heap[r].content != s.heap[r].content
    ensures r == s.global && s.heap[r].count == 1
    ensures forall id :: 0 <= id < |s.calls| ==> !s.calls[id].Holds(r)
    ensures step.Advance? && s.lock == Some(step.id) && s.calls[step.id].Post?
  {
    hide Replay, Apply, LogIsRight, CallIsRight;
    CountsHaveGlobal(s);
    var c := s.calls[step.id];
    assert c.Post? && c.ppc == PReady;
    ReadyIsAlone(s, step.id);
    AloneMeansUnread(s);
  }

  /** Both assertions of the source hold whenever a call is about to make them. */
  lemma AssertionsHold(s: State, id: CallId)
    requires Inv(s) && id < |s.calls|
    ensures s.global in s.heap
    ensures s.calls[id].Traverse? && s.calls[id].tpc == TCopied ==> s.heap[s.global].count >= 2
    ensures s.calls[id].Post? && s.calls[id].ppc == PReady ==> s.heap[s.global].count == 1
  {
    hide Replay, LogIsRight;
    assert CallIsRight(s.heap, s.global, s.log, s.calls[id]);
    if s.calls[id].Traverse? && s.calls[id].tpc == TCopied {
      assert id in Readers(s.calls, s.global);
      assert |Readers(s.calls, s.global)| >= 1;
    }
  }

  predicate NewlyPushed(s: State, n: State, id: CallId)
    requires id < |n.calls|
  {
    n.calls[id].Pushed() && !(id < |s.calls| && s.calls[id].Pushed())
  }

  predicate NewlySnapped(s: State, n: State, id: CallId)
    requires id < |n.calls|
  {
    n.calls[id].Snapped() && !(id < |s.calls| && s.calls[id].Snapped())
  }

  /**
   From `s` on: posts that had pushed and traversals past their lock point keep their place, and those that
   get there later come after every update of `s`.
   */
  ghost predicate Follows(s: State, n: State) {
    && |s.calls| <= |n.calls| && |s.log| <= |n.log|
    && (forall id :: 0 <= id < |s.calls| && s.calls[id].Pushed() ==>
          n.calls[id].Pushed() && n.calls[id].slot == s.calls[id].slot)
    && (forall id :: 0 <= id < |s.calls| && s.calls[id].Snapped() ==>
          n.calls[id].Snapped() && n.calls[id].snap == s.calls[id].snap)
    && (forall id :: 0 <= id < |n.calls| && NewlyPushed(s, n, id) ==> |s.log| <= n.calls[id].slot)
    && (forall id :: 0 <= id < |n.calls| && NewlySnapped(s, n, id) ==> |s.log| <= n.calls[id].snap)
  }

  lemma TraverseStepFollows(s: State, id: CallId)
    requires Inv(s) && CanAdvance(s, id) && s.calls[id].Traverse?
    ensures Follows(s, Next(s, Advance(id)))
  {
    hide Inv, DropRef;
    assert s.calls[id].tpc == TVisiting ==> s.calls[id].Snapped();
  }

  lemma PostStepFollows(s: State, id: CallId)
    requires Inv(s) && CanAdvance(s, id) && s.calls[id].Post?
    ensures Follows(s, Next(s, Advance(id)))
  {
    hide Inv, Apply, DropRef;
  }

  lemma StepFollows(s: State, step: Step)
    requires Inv(s) && Enabled(s, step)
    ensures Follows(s, Next(s, step))
  {
    hide Inv, AdvanceTraverse, AdvancePost;
    match step
    case BeginTraverse(_) =>
    case BeginPost(_, _) =>
    case Advance(id) =>
      if s.calls[id].Traverse? {
        TraverseStepFollows(s, id);
      } else {
        PostStepFollows(s, id);
      }
  }

  lemma FollowsAll(a: State, b: State, c: State)
    requires Follows(a, b) && Follows(b, c)
    ensures Follows(a, c)
  {
  }

  lemma {:induction false} RunFollows(s: State, steps: seq<Step>)
    requires Inv(s) && Runs(s, steps)
    ensures Follows(s, Run(s, steps))
    decreases |steps|
  {
    hide Inv, Next, Enabled, Follows;
    if steps == [] {
      FollowsSelf(s);
    } else {
      StepKeepsInv(s, steps[0]);
      StepFollows(s, steps[0]);
      RunFollows(Next(s, steps[0]), steps[1..]);
      FollowsAll(s, Next(s, steps[0]), Run(s, steps));
    }
  }

  lemma {:induction false} RunAppend(s: State, a: seq<Step>, b: seq<Step>)
    requires Inv(s) && Runs(s, a + b)
    ensures Runs(s, a) && Inv(Run(s, a)) && Runs(Run(s, a), b)
    ensures Run(s, a + b) == Run(Run(s, a), b)
    decreases |a|
  {
    hide Inv, Next, Enabled;
    if a == [] {
      assert a + b == b;
    } else {
      assert (a + b)[1..] == a[1..] + b;
      StepKeepsInv(s, a[0]);
      RunAppend(Next(s, a[0]), a[1..], b);
    }
  }

  lemma FollowsSelf(s: State)
    ensures Follows(s, s)
  {
  }

  /** Slots and lock points lie within the log. */
  lemma PlacesAreInLog(s: State)
    requires Inv(s)
    ensures forall id :: 0 <= id < |s.calls| && s.calls[id].Pushed() ==> s.calls[id].slot < |s.log|
    ensures forall id :: 0 <= id < |s.calls| && s.calls[id].Snapped() ==> s.calls[id].snap <= |s.log|
  {
    hide Replay, CountsAreRight;
    forall id | 0 <= id < |s.calls| && s.calls[id].Snapped()
      ensures s.calls[id].snap <= |s.log|
    {
      assert CallIsRight(s.heap, s.global, s.log, s.calls[id]);
    }
  }

  /** What has taken effect in `s` comes before what has taken effect in `n` only. */
  ghost predicate InRealTime(s: State, n: State) {
    && |s.calls| <= |n.calls|
    && (forall p, q :: 0 <= p < |s.calls| && 0 <= q < |n.calls| && s.calls[p].Pushed() && NewlySnapped(s, n, q) ==>
          n.calls[p].Pushed() && n.calls[p].slot < n.calls[q].snap)
    && (forall p, q :: 0 <= p < |s.calls| && 0 <= q < |n.calls| && s.calls[p].Snapped() && NewlyPushed(s, n, q) ==>
          n.calls[p].Snapped() && n.calls[p].snap <= n.calls[q].slot)
    && (forall p, q :: 0 <= p < |s.calls| && 0 <= q < |n.calls| && s.calls[p].Snapped() && NewlySnapped(s, n, q) ==>
          n.calls[p].Snapped() && n.calls[p].snap <= n.calls[q].snap)
    && (forall p, q :: 0 <= p < |s.calls| && 0 <= q < |n.calls| && s.calls[p].Pushed() && NewlyPushed(s, n, q) ==>
          n.calls[p].Pushed() && n.calls[p].slot < n.calls[q].slot)
  }

  lemma FollowsInRealTime(s: State, n: State)
    requires Inv(s) && Follows(s, n)
    ensures InRealTime(s, n)
  {
    PlacesAreInLog(s);
    hide Inv;
  }

  /**
   The order of posts and traversals in the log is their real-time order: whatever has taken effect at some
   moment of a run comes before whatever takes effect after it.
   */
  lemma RealTimeOrder(before: seq<Step>, after: seq<Step>)
    requires Runs(Initial(), before) && Runs(Initial(), before + after)
    ensures InRealTime(Run(Initial(), before), Run(Initial(), before + after))
  {
    hide Inv, Run, Runs, Follows, InRealTime;
    RunAppend(Initial(), before, after);
    var s := Run(Initial(), before);
    RunFollows(s, after);
    FollowsInRealTime(s, Run(s, after));
  }

  /**
   On every interleaving: a finished traversal has visited exactly the posts made before its lock point, the
   list is the result of all posts so far, and every post that has pushed is among them once.
   */
  lemma TraversalsAreLinearizable(steps: seq<Step>)
    requires Runs(Initial(), steps)
    ensures var s := Run(Initial(), steps);
      && s.global in s.heap && s.heap[s.global].content == Replay(s.log)
      && (forall id :: 0 <= id < |s.calls| && s.calls[id].Traverse? && s.calls[id].Done() ==>
            s.calls[id].snap <= |s.log| && s.calls[id].seen == Replay(s.log[..s.calls[id].snap]))
      && (forall id :: 0 <= id < |s.calls| && s.calls[id].Pushed() ==>
            s.calls[id].slot < |s.log| && s.log[s.calls[id].slot] == s.calls[id].update)
      && LogIsRight(s.log, s.calls)
  {
    hide Run, Replay, LogIsRight;
    RunKeepsInv(Initial(), steps);
    var s := Run(Initial(), steps);
    forall id | 0 <= id < |s.calls| ensures CallIsRight(s.heap, s.global, s.log, s.calls[id]) {
    }
  }

  /** For `g_foos` a traversal's posts are simply the items posted, in order. */
  lemma {:induction false} ReplayOfPushes(log: seq<Update>)
    requires forall u :: u in log ==> u.PushBack?
    ensures |Replay(log)| == |log| && forall k :: 0 <= k < |log| ==> Replay(log)[k] == log[k].item
  {
    if log != [] {
      ReplayOfPushes(log[..|log| - 1]);
    }
  }

  predicate Sorted(s: seq<Item>) {
    forall i, j :: 0 <= i < j < |s| ==> s[i] < s[j]
  }

  lemma {:induction false} InsertIsInsert(s: seq<Item>, x: Item)
    requires Sorted(s)
    ensures Sorted(InsertSorted(s, x)) && forall y :: y in InsertSorted(s, x) <==> y in s || y == x
  {
    if s != [] && x > s[0] {
      InsertIsInsert(s[1..], x);
      var r := InsertSorted(s[1..], x);
      assert InsertSorted(s, x) == [s[0]] + r;
      assert forall y :: y in s <==> y == s[0] || y in s[1..];
      assert forall k :: 0 <= k < |r| ==> r[k] in r;
    }
  }

  lemma {:induction false} EraseIsErase(s: seq<Item>, x: Item)
    requires Sorted(s)
    ensures Sorted(EraseFrom(s, x)) && forall y :: y in EraseFrom(s, x) <==> y in s && y != x
  {
    if s != [] {
      assert forall y :: y in s <==> y == s[0] || y in s[1..];
      if s[0] != x {
        EraseIsErase(s[1..], x);
        var r := EraseFrom(s[1..], x);
        assert EraseFrom(s, x) == [s[0]] + r;
        assert forall k :: 0 <= k < |r| ==> r[k] in r;
      }
    }
  }

  /** The requests added and not removed again. */
  function Registered(log: seq<Update>): set<Item> {
    if log == [] then {}
    else
      var before := Registered(log[..|log| - 1]);
      match log[|log| - 1]
      case PushBack(x) => before + {x}
      case Insert(x) => before + {x}
      case Erase(x) => before - {x}
  }

  /** For the inventory a traversal visits each request registered at its lock point once. */
  lemma {:induction false} ReplayOfInventory(log: seq<Update>)
    requires forall u :: u in log ==> !u.PushBack?
    ensures Sorted(Replay(log)) && forall x :: x in Replay(log) <==> x in Registered(log)
  {
    if log != [] {
      var init, u := log[..|log| - 1], log[|log| - 1];
      assert u in log;
      ReplayOfInventory(init);
      match u
      case Insert(x) => InsertIsInsert(Replay(init), x);
      case Erase(x) => EraseIsErase(Replay(init), x);
    }
  }

  /** Some call can always go on: nested posts do not deadlock, since no lock is held during `doit()`. */
  lemma SomeCallCanAdvance(s: State) returns (id: CallId)
    requires Inv(s) && exists k :: 0 <= k < |s.calls| && !s.calls[k].Done()
    ensures CanAdvance(s, id)
  {
    hide Replay, LogIsRight, CallIsRight, CountsAreRight;
    if s.lock.Some? {
      id := s.lock.value;
      assert s.calls[id].InCriticalSection();
    } else {
      id := |s.calls| - 1;
      while s.calls[id].Done()
        invariant id < |s.calls|
        invariant forall k :: id < k < |s.calls| ==> s.calls[k].Done()
        decreases id
      {
        assert exists k :: 0 <= k < id && !s.calls[k].Done();
        id := id - 1;
      }
      assert !s.calls[id].InCriticalSection();
      assert NoOpenChild(s, id);
    }
  }

  // ---------------------------------------------------------------------------------------------
  // The writer and the reader as code, and the steps they are
  // ---------------------------------------------------------------------------------------------

  /** What a writer's critical section makes of the global list, and what it leaves to its other owners. */
  datatype Written = Written(current: Vec, left: Option<Vec>)

  function Write(v: Vec, u: Update): Written
    requires v.count > 0
  {
    Written(Vec(Apply(v.content, u), 1), if v.count == 1 then None else Some(v.(count := v.count - 1)))
  }

  /** In the state `n` the heap of `s` has changed by `w` at the global pointer, and nowhere else. */
  ghost predicate WrittenTo(s: State, n: State, w: Written)
    requires s.global in s.heap
  {
    && n.global in n.heap && n.heap[n.global] == w.current
    && (w.left.None? ==> n.global == s.global)
    && (w.left.Some? ==> n.global !in s.heap && s.global in n.heap && n.heap[s.global] == w.left.value)
    && forall r :: r in s.heap && r != s.global ==> r in n.heap && n.heap[r] == s.heap[r]
  }

  /** A run of three steps of one call. */
  lemma RunOfThree(s: State, id: CallId)
    requires Inv(s) && CanAdvance(s, id)
    requires Inv(Next(s, Advance(id))) && CanAdvance(Next(s, Advance(id)), id)
    requires var s2 := Next(Next(s, Advance(id)), Advance(id)); Inv(s2) && CanAdvance(s2, id)
    ensures Runs(s, [Advance(id), Advance(id), Advance(id)])
    ensures
      var a := Advance(id);
      Run(s, [a, a, a]) == Next(Next(Next(s, a), a), a)
  {
    hide Inv, Next, CanAdvance;
    var a := Advance(id);
    var s1 := Next(s, a);
    var s2 := Next(s1, a);
    StepKeepsInv(s2, a);
    var s3 := Next(s2, a);
    assert [a, a, a][1..] == [a, a] && [a, a][1..] == [a] && [a][1..] == [];
    assert Runs(s3, []) && Run(s3, []) == s3;
    assert Runs(s2, [a]) && Run(s2, [a]) == s3;
    assert Runs(s1, [a, a]) && Run(s1, [a, a]) == s3;
  }

  /** The writer's three steps under the mutex do to the shared heap what `Write` says. */
  lemma WriterIsWrite(s: State, id: CallId)
    requires Inv(s) && id < |s.calls| && s.calls[id].Post? && s.calls[id].ppc == PLocked
    ensures s.global in s.heap && s.heap[s.global].count > 0
    ensures
      var steps := [Advance(id), Advance(id), Advance(id)];
      && Runs(s, steps)
      && var n := Run(s, steps);
         && WrittenTo(s, n, Write(s.heap[s.global], s.calls[id].update))
         && n.lock == s.lock && n.log == s.log + [s.calls[id].update]
  {
    hide Inv, Apply, Run, Runs;
    CountsHaveGlobal(s);
    CountPositive(s);
    NextRefIsNew(s);
    var a := Advance(id);
    StepKeepsInv(s, a);
    var s1 := Next(s, a);
    StepKeepsInv(s1, a);
    var s2 := Next(s1, a);
    CountsHaveGlobal(s2);
    RunOfThree(s, id);
  }

  lemma NextRefIsNew(s: State)
    requires Inv(s)
    ensures s.nextRef !in s.heap
  {
  }

  /** The reader's step under the mutex takes one more reference to the global list, and changes nothing else. */
  lemma ReaderIsAcquire(s: State, id: CallId)
    requires Inv(s) && id < |s.calls| && s.calls[id].Traverse? && s.calls[id].tpc == TLocked
    ensures s.global in s.heap
    ensures var v, n := s.heap[s.global], Next(s, Advance(id));
      && n.heap == s.heap[s.global := v.(count := v.count + 1)]
      && n.global == s.global && n.lock == s.lock && n.calls[id].ptr == s.global
  {
    hide Inv;
    CountsHaveGlobal(s);
  }

  /** A container on the heap with its use count. */
  class FooList {
    var items: seq<Item>
    var owners: nat

    ghost function Value(): Vec
      reads this
    {
      Vec(items, owners)
    }

    constructor (items: seq<Item>)
      ensures this.items == items && owners == 1
    {
      this.items := items;
      owners := 1;
    }
  }

  class Shared {
    var foos: FooList

    ghost predicate Valid()
      reads this, foos
    {
      foos.owners >= 1
    }

    constructor ()
      ensures Valid() && fresh(foos) && foos.items == [] && foos.owners == 1
    {
      foos := new FooList([]);
    }

    /** The reader's critical section. */
    method Acquire() returns (snapshot: FooList)
      requires Valid()
      modifies foos
      ensures Valid() && snapshot == foos && foos.Value() == Vec(old(foos.items), old(foos.owners) + 1)
    {
      snapshot := foos;
      foos.owners := foos.owners + 1;
      assert foos.owners != 1;
    }

    /**
     The writer's critical section. A list someone else owns keeps its items and loses one owner; the update
     is made on a fresh copy, or in place when the global pointer is the only owner.
     */
    method Update(u: Update)
      requires Valid()
      modifies this, foos
      ensures Valid() && foos.Value() == Write(old(foos.Value()), u).current
      ensures Write(old(foos.Value()), u).left.None? ==> foos == old(foos)
      ensures Write(old(foos.Value()), u).left.Some? ==>
        fresh(foos) && old(foos).Value() == Write(old(foos.Value()), u).left.value
    {
      if foos.owners != 1 {
        var copy := new FooList(foos.items);
        foos.owners := foos.owners - 1;
        foos := copy;
      }
      assert foos.owners == 1;
      foos.items := Apply(foos.items, u);
    }

    /** A reader's loop over its snapshot while `doit()` posts `u` each time: it sees the snapshot all the same. */
    method TraverseAndPost(u: Update) returns (seen: seq<Item>)
      requires Valid()
      modifies this, foos
      ensures Valid() && seen == old(foos.items)
      ensures foos.items == ApplyTimes(old(foos.items), u, |seen|)
    {
      var snapshot := Acquire();
      ghost var items := snapshot.items;
      seen := [];
      var k := 0;
      while k < |snapshot.items|
        invariant k <= |items| && snapshot.items == items && seen == items[..k]
        invariant Valid() && snapshot.owners >= 1 && (foos == snapshot ==> snapshot.owners >= 2)
        invariant k == 0 ==> foos == snapshot
        invariant k > 0 ==> fresh(foos) && foos != snapshot
        invariant foos.items == ApplyTimes(items, u, k)
        invariant foos == old(foos) || fresh(foos)
      {
        seen := seen + [snapshot.items[k]];
        Update(u);
        k := k + 1;
      }
      snapshot.owners := snapshot.owners - 1;
    }
  }

  function ApplyTimes(s: seq<Item>, u: Update, n: nat): seq<Item> {
    if n == 0 then s else Apply(ApplyTimes(s, u, n - 1), u)
  }
}
