/**
 When the inventory that prints inside its critical section deadlocks: exactly when the programs let one thread
 print a registered request while another has that request's mutex and wants the inventory.
 */
module InventoryDeadlock {
  import opened Wrappers
  import opened InventoryLocks
  import CopyOnWrite

  // ---------------------------------------------------------------------------------------------
  // The condition on programs
  // ---------------------------------------------------------------------------------------------

  predicate Puts(op: Op, r: Req) {
    Adds(op) && op.req == r
  }

  predicate Concerns(op: Op, r: Req) {
    !op.PrintAll? && op.req == r
  }

  /** The last of the operations that concern `r` registers it. */
  predicate Registers(ops: seq<Op>, r: Req) {
    ops != [] &&
    var last := ops[|ops| - 1];
    if Concerns(last, r) then Adds(last) else Registers(ops[..|ops| - 1], r)
  }

  predicate AThirdPuts(programs: seq<seq<Op>>, p: Tid, q: Tid, r: Req) {
    exists t, k :: 0 <= t < |programs| && t != p && t != q && 0 <= k < |programs[t]| && Puts(programs[t][k], r)
  }

  /**
   Operation `i` of thread `p` prints all, operation `j` of another thread `q` takes a request and then the
   inventory, and that request may be registered by then.
   */
  predicate Conflict(programs: seq<seq<Op>>, p: Tid, i: nat, q: Tid, j: nat) {
    && p < |programs| && i < |programs[p]| && programs[p][i].PrintAll?
    && q < |programs| && j < |programs[q]| && (programs[q][j].Process? || programs[q][j].Destruct?) && p != q
    && var r := programs[q][j].req;
       Registers(programs[p][..i], r) || Registers(programs[q][..j], r) || AThirdPuts(programs, p, q, r)
  }

  predicate HaveConflict(programs: seq<seq<Op>>) {
    exists p, i, q, j ::
      && 0 <= p < |programs| && 0 <= i < |programs[p]| && 0 <= q < |programs| && 0 <= j < |programs[q]|
      && Conflict(programs, p, i, q, j)
  }

  lemma RegistersOneMore(ops: seq<Op>, op: Op, r: Req)
    ensures Registers(ops + [op], r) == if Concerns(op, r) then Adds(op) else Registers(ops, r)
  {
    assert (ops + [op])[..|ops|] == ops;
  }

  lemma {:induction false} RegistersPuts(ops: seq<Op>, r: Req) returns (k: nat)
    requires Registers(ops, r)
    ensures k < |ops| && Puts(ops[k], r)
  {
    k := |ops| - 1;
    if !Concerns(ops[k], r) {
      k := RegistersPuts(ops[..k], r);
    }
  }

  // ---------------------------------------------------------------------------------------------
  // Reachable states
  // ---------------------------------------------------------------------------------------------

  ghost predicate Reachable(s: State, e: State) {
    exists schedule :: Runs(s, schedule) && Run(s, schedule) == e
  }

  lemma ReachSelf(s: State)
    ensures Reachable(s, s)
  {
    assert Runs(s, []) && Run(s, []) == s;
  }

  lemma ReachNext(s: State, e: State, t: Tid)
    requires Reachable(s, e) && Enabled(e, t)
    ensures Reachable(s, Next(e, t))
  {
    hide Enabled, Next;
    var schedule :| Runs(s, schedule) && Run(s, schedule) == e;
    assert [t][1..] == [];
    RunAppend(s, schedule, [t]);
  }

  // ---------------------------------------------------------------------------------------------
  // Where a thread is in its program
  // ---------------------------------------------------------------------------------------------

  predicate Fits(op: Op, pc: Pc) {
    match pc
    case Idle => true
    case WantRequest(r, adding) => op == if adding then Process(r) else Destruct(r)
    case HasRequest(r, adding) => op == if adding then Process(r) else Destruct(r)
    case HasBoth(r, adding) => op == if adding then Process(r) else Destruct(r)
    case Leaving(_) => true
    case WantInventory(r, adding) => op == if adding then Add(r) else Remove(r)
    case HasInventory(r, adding) => op == if adding then Add(r) else Remove(r)
    case _ => op == PrintAll
  }

  /** The thread has begun all but its last `|todo|` operations, and is in the midst of the last begun or idle. */
  predicate Follows(program: seq<Op>, th: Thread) {
    && |th.todo| <= |program| && program[|program| - |th.todo|..] == th.todo
    && (!th.pc.Idle? ==> |th.todo| < |program| && Fits(program[|program| - |th.todo| - 1], th.pc))
  }

  /** The operations that have changed the inventory, if they do. */
  function Applied(program: seq<Op>, th: Thread): seq<Op>
    requires Follows(program, th)
  {
    var begun := |program| - |th.todo|;
    if th.pc.Idle? || th.pc.Leaving? then program[..begun] else program[..begun - 1]
  }

  function Effect(registered: seq<Req>, op: Op): seq<Req> {
    if op.PrintAll? then registered else Change(registered, op.req, Adds(op))
  }

  predicate AllFollow(programs: seq<seq<Op>>, threads: seq<Thread>) {
    |threads| == |programs| && forall t :: 0 <= t < |threads| ==> Follows(programs[t], threads[t])
  }

  ghost predicate RegisteredBy(programs: seq<seq<Op>>, threads: seq<Thread>, r: Req)
    requires AllFollow(programs, threads)
  {
    exists t :: 0 <= t < |threads| && Registers(Applied(programs[t], threads[t]), r)
  }

  predicate Prints(pc: Pc, registered: seq<Req>) {
    (pc.PrintingInside? || pc.PrintingOneInside?) ==> forall r :: r in pc.rest ==> r in registered
  }

  /** Whatever is registered some thread has registered last, and printing inside is up to date. */
  ghost predicate Traced(programs: seq<seq<Op>>, s: State) {
    && AllFollow(programs, s.threads)
    && CopyOnWrite.Sorted(s.registered)
    && (forall r :: r in s.registered ==> RegisteredBy(programs, s.threads, r))
    && (forall t :: 0 <= t < |s.threads| ==> Prints(s.threads[t].pc, s.registered))
  }

  /** From `s` to `n` thread `t` begins or goes on with an operation, or applies it to the inventory. */
  predicate GoesAlong(program: seq<Op>, s: State, n: State, t: Tid) {
    && t < |s.threads| && t < |n.threads| && Follows(program, s.threads[t]) && Follows(program, n.threads[t])
    && var before, after := Applied(program, s.threads[t]), Applied(program, n.threads[t]);
       || (after == before && n.registered == s.registered)
       || (|after| == |before| + 1 && after == before + [after[|before|]]
           && n.registered == Effect(s.registered, after[|before|]))
  }

  lemma BeginFollows(program: seq<Op>, s: State, t: Tid)
    requires Enabled(s, t) && Follows(program, s.threads[t]) && s.threads[t].pc.Idle?
    ensures GoesAlong(program, s, Next(s, t), t)
  {
    var begun := |program| - |s.threads[t].todo|;
    assert program[begun] == s.threads[t].todo[0];
    assert program[begun + 1..] == s.threads[t].todo[1..];
  }

  lemma GoOnFollows(program: seq<Op>, s: State, t: Tid)
    requires Enabled(s, t) && Follows(program, s.threads[t]) && !s.threads[t].pc.Idle?
    ensures GoesAlong(program, s, Next(s, t), t)
  {
    hide Change;
    var begun := |program| - |s.threads[t].todo|;
    assert program[..begun] == program[..begun - 1] + [program[begun - 1]];
  }

  lemma StepFollows(program: seq<Op>, s: State, t: Tid)
    requires Enabled(s, t) && Follows(program, s.threads[t])
    ensures GoesAlong(program, s, Next(s, t), t)
  {
    hide Next, Enabled, Follows, GoesAlong;
    EnabledIsAThread(s, t);
    if s.threads[t].pc.Idle? {
      BeginFollows(program, s, t);
    } else {
      GoOnFollows(program, s, t);
    }
  }

  lemma EffectOn(registered: seq<Req>, op: Op, ops: seq<Op>, r: Req)
    requires CopyOnWrite.Sorted(registered)
    ensures CopyOnWrite.Sorted(Effect(registered, op))
    ensures r in Effect(registered, op) <==> if Concerns(op, r) then Adds(op) else r in registered
    ensures Registers(ops + [op], r) == if Concerns(op, r) then Adds(op) else Registers(ops, r)
  {
    hide CopyOnWrite.Sorted;
    RegistersOneMore(ops, op, r);
    if !op.PrintAll? {
      CopyOnWrite.InsertIsInsert(registered, op.req);
      CopyOnWrite.EraseIsErase(registered, op.req);
    }
  }

  lemma StepKeepsRegisteredBy(programs: seq<seq<Op>>, s: State, t: Tid, r: Req)
    requires Enabled(s, t) && Traced(programs, s) && AllFollow(programs, Next(s, t).threads)
    requires r in Next(s, t).registered && t < |s.threads|
    requires Next(s, t).threads == s.threads[t := Next(s, t).threads[t]]
    ensures RegisteredBy(programs, Next(s, t).threads, r)
  {
    hide Next, Enabled, Effect, Registers, Applied, Follows;
    var n := Next(s, t);
    StepFollows(programs[t], s, t);
    var before, after := Applied(programs[t], s.threads[t]), Applied(programs[t], n.threads[t]);
    if after != before {
      EffectOn(s.registered, after[|before|], before, r);
    }
    if !Registers(after, r) {
      assert r in s.registered;
      var u :| 0 <= u < |s.threads| && Registers(Applied(programs[u], s.threads[u]), r);
      assert u != t;
      assert n.threads[u] == s.threads[u];
    }
  }

  /** While a thread prints inside, nobody else changes the inventory. */
  lemma StepKeepsPrints(s: State, t: Tid)
    requires Inv(s) && Enabled(s, t)
    requires forall u :: 0 <= u < |s.threads| ==> Prints(s.threads[u].pc, s.registered)
    ensures forall u :: 0 <= u < |Next(s, t).threads| ==> Prints(Next(s, t).threads[u].pc, Next(s, t).registered)
  {
    hide Change, RequestsAreRight;
  }

  lemma StepKeepsTraced(programs: seq<seq<Op>>, s: State, t: Tid)
    requires Inv(s) && Enabled(s, t) && Traced(programs, s)
    ensures Traced(programs, Next(s, t))
  {
    hide Inv, Next, Enabled, Prints, Follows, Effect, Applied, RegisteredBy;
    var n := Next(s, t);
    EnabledIsAThread(s, t);
    ThreadsAfter(s, t);
    StepFollows(programs[t], s, t);
    StepKeepsPrints(s, t);
    var before, after := Applied(programs[t], s.threads[t]), Applied(programs[t], n.threads[t]);
    if after != before {
      EffectOn(s.registered, after[|before|], before, 0);
    }
    forall r | r in n.registered ensures RegisteredBy(programs, n.threads, r) {
      StepKeepsRegisteredBy(programs, s, t, r);
    }
  }

  lemma ThreadsAfter(s: State, t: Tid)
    requires Enabled(s, t)
    ensures |Next(s, t).threads| == |s.threads| && t < |s.threads|
    ensures Next(s, t).threads == s.threads[t := Next(s, t).threads[t]]
  {
    StepShape(s, t);
  }

  lemma {:induction false} RunKeepsTraced(programs: seq<seq<Op>>, s: State, schedule: seq<Tid>)
    requires Inv(s) && Traced(programs, s) && Runs(s, schedule)
    ensures Inv(Run(s, schedule)) && Traced(programs, Run(s, schedule))
    decreases |schedule|
  {
    hide Inv, Traced, Next, Enabled;
    if schedule != [] {
      StepKeepsInv(s, schedule[0]);
      StepKeepsTraced(programs, s, schedule[0]);
      RunKeepsTraced(programs, Next(s, schedule[0]), schedule[1..]);
    }
  }

  /** An embrace reached in a run shows a conflict of the programs. */
  lemma EmbraceShowsConflict(programs: seq<seq<Op>>, s: State, p: Tid, q: Tid)
    requires Traced(programs, s) && Embraced(s, p, q)
    ensures HaveConflict(programs)
  {
    hide Registers;
    var i, j := |programs[p]| - |s.threads[p].todo| - 1, |programs[q]| - |s.threads[q].todo| - 1;
    var r := programs[q][j].req;
    assert r in s.registered;
    var t :| 0 <= t < |s.threads| && Registers(Applied(programs[t], s.threads[t]), r);
    if t != p && t != q {
      var ops := Applied(programs[t], s.threads[t]);
      var k := RegistersPuts(ops, r);
      assert programs[t][k] == ops[k];
      assert AThirdPuts(programs, p, q, r);
    }
    assert Conflict(programs, p, i, q, j);
  }

  // ---------------------------------------------------------------------------------------------
  // An embrace is for good
  // ---------------------------------------------------------------------------------------------

  lemma EmbracedWait(s: State, p: Tid, q: Tid)
    requires Inv(s) && Embraced(s, p, q)
    ensures !Enabled(s, p) && !Enabled(s, q) && !s.threads[p].Done() && !s.threads[q].Done()
  {
    assert s.threads[p].pc.HoldsInventory();
    assert s.threads[q].pc.HoldsRequest(s.threads[q].pc.req);
  }

  lemma StepKeepsEmbrace(s: State, t: Tid, p: Tid, q: Tid)
    requires Inv(s) && Embraced(s, p, q) && Enabled(s, t)
    ensures Inv(Next(s, t)) && Embraced(Next(s, t), p, q)
  {
    hide Inv, Next, Enabled;
    EmbracedWait(s, p, q);
    StepKeepsInv(s, t);
    ThreadsAfter(s, t);
  }

  /** Once in each other's way, neither of the two threads ever takes another step. */
  lemma {:induction false} EmbraceIsForGood(s: State, schedule: seq<Tid>, p: Tid, q: Tid)
    requires Inv(s) && Embraced(s, p, q) && Runs(s, schedule)
    ensures p !in schedule && q !in schedule
    ensures var e := Run(s, schedule); Embraced(e, p, q) && !Enabled(e, p) && !Enabled(e, q)
    decreases |schedule|
  {
    hide Inv, Next, Enabled, Embraced;
    EmbracedWait(s, p, q);
    if schedule != [] {
      StepKeepsEmbrace(s, schedule[0], p, q);
      EmbraceIsForGood(Next(s, schedule[0]), schedule[1..], p, q);
    }
  }

  /** In every state of any run: if nobody can go on, either everyone has finished or two threads embrace. */
  lemma StuckIsAnEmbrace(s: State)
    requires Inv(s) && Stuck(s)
    ensures exists p, q :: Embraced(s, p, q)
  {
    hide Inv, Enabled, Embraced;
    var t :| 0 <= t < |s.threads| && !s.threads[t].Done();
    var p, q := GoesOnOrEmbraced(s, t);
    if Enabled(s, p) {
      EnabledIsAThread(s, p);
    }
  }

  /** The other threads run until none of them can go on. */
  lemma {:induction false} RunToRest(s: State, e: State, k: nat, p: Tid, q: Tid) returns (rest: State)
    requires Reachable(s, e) && Inv(e) && Embraced(e, p, q) && |e.registered| + Pending(e.threads) <= k
    ensures Reachable(s, rest) && Stuck(rest)
    decreases Work(e.threads, k)
  {
    hide Reachable, Inv, Enabled, Next, Embraced, Work, Pending;
    EmbracedWait(e, p, q);
    if t :| 0 <= t < |e.threads| && Enabled(e, t) {
      StepKeepsEmbrace(e, t, p, q);
      StepDoesWork(e, t, k);
      ReachNext(s, e, t);
      rest := RunToRest(s, Next(e, t), k, p, q);
    } else {
      rest := e;
      EmbracedAreThreads(e, p, q);
    }
  }

  lemma EmbracedAreThreads(s: State, p: Tid, q: Tid)
    requires Embraced(s, p, q)
    ensures p < |s.threads| && q < |s.threads|
  {
  }

  // ---------------------------------------------------------------------------------------------
  // Schedules that lead into a conflict
  // ---------------------------------------------------------------------------------------------

  /** Between operations, with all mutexes free. */
  predicate Quiet(s: State) {
    && !s.fixed && s.inventory == None && s.requests == map[] && CopyOnWrite.Sorted(s.registered)
    && forall t :: 0 <= t < |s.threads| ==> s.threads[t].pc == Idle
  }

  /** The thread prints the first `k` requests of its list if nobody has their mutexes. */
  lemma {:induction false} PrintSome(s: State, e: State, t: Tid, k: nat)
    requires Reachable(s, e) && t < |e.threads| && e.threads[t].pc.PrintingInside? && k <= |e.threads[t].pc.rest|
    requires forall i :: 0 <= i < k ==> e.threads[t].pc.rest[i] !in e.requests
    ensures Reachable(s, Goto(e, t, PrintingInside(e.threads[t].pc.rest[k..])))
    decreases k
  {
    hide Reachable;
    var rest := e.threads[t].pc.rest;
    if k == 0 {
      assert Goto(e, t, PrintingInside(rest[0..])) == e;
    } else {
      PrintSome(s, e, t, k - 1);
      var a := Goto(e, t, PrintingInside(rest[k - 1..]));
      var b := Goto(e.(requests := e.requests[rest[k - 1] := t]), t, PrintingOneInside(rest[k - 1], rest[k..]));
      var c := Goto(e, t, PrintingInside(rest[k..]));
      assert rest[k - 1..][1..] == rest[k..];
      assert Enabled(a, t) && Next(a, t) == b;
      ReachNext(s, a, t);
      assert e.requests[rest[k - 1] := t] - {rest[k - 1]} == e.requests;
      assert Enabled(b, t) && Next(b, t) == c;
      ReachNext(s, b, t);
    }
  }

  function Did(s: State, t: Tid): State
    requires t < |s.threads| && s.threads[t].todo != []
  {
    var todo := s.threads[t].todo;
    s.(threads := s.threads[t := Thread(Idle, todo[1..])], registered := Effect(s.registered, todo[0]))
  }

  /** Process and destruct, alone. */
  lemma RunRequestOp(s: State, e: State, t: Tid)
    requires Reachable(s, e) && Quiet(e) && t < |e.threads| && e.threads[t].todo != []
    requires e.threads[t].todo[0].Process? || e.threads[t].todo[0].Destruct?
    ensures Reachable(s, Did(e, t))
  {
    hide Reachable, CopyOnWrite.Sorted;
    var e1 := Next(e, t);
    var e2 := Next(e1, t);
    var e3 := Next(e2, t);
    var e4 := Next(e3, t);
    ReachNext(s, e, t);
    ReachNext(s, e1, t);
    ReachNext(s, e2, t);
    ReachNext(s, e3, t);
    ReachNext(s, e4, t);
    assert e4.requests - {e4.threads[t].pc.req} == map[];
    assert Next(e4, t).threads == Did(e, t).threads;
  }

  lemma RunInventoryOp(s: State, e: State, t: Tid)
    requires Reachable(s, e) && Quiet(e) && t < |e.threads| && e.threads[t].todo != []
    requires e.threads[t].todo[0].Add? || e.threads[t].todo[0].Remove?
    ensures Reachable(s, Did(e, t))
  {
    hide Reachable, CopyOnWrite.Sorted;
    var e1 := Next(e, t);
    var e2 := Next(e1, t);
    ReachNext(s, e, t);
    ReachNext(s, e1, t);
    ReachNext(s, e2, t);
    assert Next(e2, t).threads == Did(e, t).threads;
  }

  /** `printAll` up to its loop, also while others hold requests. */
  lemma RunToPrinting(s: State, e: State, t: Tid)
    requires Reachable(s, e) && !e.fixed && e.inventory == None && t < |e.threads|
    requires e.threads[t].pc == Idle && e.threads[t].todo != [] && e.threads[t].todo[0].PrintAll?
    ensures Reachable(s, e.(inventory := Some(t),
                            threads := e.threads[t := Thread(PrintingInside(e.registered), e.threads[t].todo[1..])]))
  {
    hide Reachable;
    var e1 := Next(e, t);
    var e2 := Next(e1, t);
    ReachNext(s, e, t);
    ReachNext(s, e1, t);
    ReachNext(s, e2, t);
    assert Next(e2, t).threads == e.threads[t := Thread(PrintingInside(e.registered), e.threads[t].todo[1..])];
  }

  lemma RunPrintAll(s: State, e: State, t: Tid)
    requires Reachable(s, e) && Quiet(e) && t < |e.threads| && e.threads[t].todo != []
    requires e.threads[t].todo[0].PrintAll?
    ensures Reachable(s, Did(e, t))
  {
    hide Reachable, CopyOnWrite.Sorted;
    RunToPrinting(s, e, t);
    var todo := e.threads[t].todo[1..];
    var e1 := e.(inventory := Some(t), threads := e.threads[t := Thread(PrintingInside(e.registered), todo)]);
    PrintSome(s, e1, t, |e.registered|);
    var e2 := Goto(e1, t, PrintingInside([]));
    assert e.registered[|e.registered|..] == [];
    ReachNext(s, e2, t);
    assert Next(e2, t).threads == Did(e, t).threads;
  }

  lemma RunOne(s: State, e: State, t: Tid)
    requires Reachable(s, e) && Quiet(e) && t < |e.threads| && e.threads[t].todo != []
    ensures Reachable(s, Did(e, t)) && Quiet(Did(e, t))
  {
    hide Reachable, Quiet;
    var op := e.threads[t].todo[0];
    if op.PrintAll? {
      RunPrintAll(s, e, t);
    } else if op.Add? || op.Remove? {
      RunInventoryOp(s, e, t);
    } else {
      RunRequestOp(s, e, t);
    }
    DidIsQuiet(e, t);
  }

  lemma DidIsQuiet(e: State, t: Tid)
    requires Quiet(e) && t < |e.threads| && e.threads[t].todo != []
    ensures Quiet(Did(e, t))
  {
    hide CopyOnWrite.Sorted, Effect;
    EffectOn(e.registered, e.threads[t].todo[0], [], 0);
  }

  /** A thread alone can do its next `n` operations, and what they register is then registered. */
  lemma {:induction false} RunAlone(s: State, e: State, t: Tid, n: nat) returns (f: State)
    requires Reachable(s, e) && Quiet(e) && t < |e.threads| && n <= |e.threads[t].todo|
    ensures Reachable(s, f) && Quiet(f) && f.threads == e.threads[t := Thread(Idle, e.threads[t].todo[n..])]
    ensures forall r :: Registers(e.threads[t].todo[..n], r) ==> r in f.registered
    decreases n
  {
    hide Reachable, Effect, CopyOnWrite.Sorted;
    var todo := e.threads[t].todo;
    if n == 0 {
      f := e;
      assert todo[0..] == todo;
    } else {
      var d := RunAlone(s, e, t, n - 1);
      assert d.threads[t].todo == todo[n - 1..] && todo[n - 1..][1..] == todo[n..];
      RunOne(s, d, t);
      f := Did(d, t);
      assert todo[..n] == todo[..n - 1] + [todo[n - 1]];
      forall r | Registers(todo[..n], r) ensures r in f.registered {
        EffectOn(d.registered, todo[n - 1], todo[..n - 1], r);
      }
    }
  }

  /** From a quiet state with the request registered, the two operations embrace. */
  lemma MeetFromQuiet(s: State, e: State, p: Tid, q: Tid, r: Req) returns (f: State)
    requires Reachable(s, e) && Quiet(e) && p < |e.threads| && q < |e.threads| && p != q
    requires e.threads[p].todo != [] && e.threads[p].todo[0].PrintAll?
    requires e.threads[q].todo != [] && (e.threads[q].todo[0] == Process(r) || e.threads[q].todo[0] == Destruct(r))
    requires r in e.registered
    ensures Reachable(s, f) && Embraced(f, p, q)
  {
    hide Reachable;
    var e1 := Next(e, q);
    var e2 := Next(e1, q);
    ReachNext(s, e, q);
    ReachNext(s, e1, q);
    RunToPrinting(s, e2, p);
    var todo := e2.threads[p].todo[1..];
    var e3 := e2.(inventory := Some(p), threads := e2.threads[p := Thread(PrintingInside(e2.registered), todo)]);
    var k :| 0 <= k < |e.registered| && e.registered[k] == r;
    PrintSome(s, e3, p, k);
    f := Goto(e3, p, PrintingInside(e.registered[k..]));
  }

  lemma InitialIsQuiet(programs: seq<seq<Op>>)
    ensures Quiet(Initial(programs, false)) && |Initial(programs, false).threads| == |programs|
    ensures forall t :: 0 <= t < |programs| ==> Initial(programs, false).threads[t].todo == programs[t]
    ensures Traced(programs, Initial(programs, false)) && Inv(Initial(programs, false))
  {
    InitialInv(programs, false);
  }

  /** The programs of a conflict can be run up to it with the request registered. */
  lemma RunToConflict(programs: seq<seq<Op>>, p: Tid, i: nat, q: Tid, j: nat) returns (e: State)
    requires Conflict(programs, p, i, q, j)
    ensures Reachable(Initial(programs, false), e) && Quiet(e) && |e.threads| == |programs|
    ensures e.threads[p].todo == programs[p][i..] && e.threads[q].todo == programs[q][j..]
    ensures programs[q][j].req in e.registered
  {
    hide Reachable, Quiet, Initial, Registers, Traced, Inv;
    var s, r := Initial(programs, false), programs[q][j].req;
    InitialIsQuiet(programs);
    ReachSelf(s);
    if Registers(programs[p][..i], r) {
      var d := RunAlone(s, s, q, j);
      e := RunAlone(s, d, p, i);
    } else {
      var d := RunAlone(s, s, p, i);
      e := RunAlone(s, d, q, j);
      if !Registers(programs[q][..j], r) {
        var t, k :| 0 <= t < |programs| && t != p && t != q && 0 <= k < |programs[t]| && Puts(programs[t][k], r);
        assert programs[t][..k + 1] == programs[t][..k] + [programs[t][k]];
        RegistersOneMore(programs[t][..k], programs[t][k], r);
        e := RunAlone(s, e, t, k + 1);
      }
    }
  }

  /**
   With `print()` inside the inventory's critical section, some schedule of the programs gets stuck if and only
   if the programs have a conflict.
   */
  lemma DeadlocksExactlyOnConflict(programs: seq<seq<Op>>)
    ensures (exists e :: Reachable(Initial(programs, false), e) && Stuck(e)) <==> HaveConflict(programs)
  {
    hide Inv, Traced, Run, Runs, Stuck, Initial, Conflict, Embraced, Quiet, Pending;
    var s := Initial(programs, false);
    InitialIsQuiet(programs);
    if e :| Reachable(s, e) && Stuck(e) {
      var schedule :| Runs(s, schedule) && Run(s, schedule) == e;
      RunKeepsTraced(programs, s, schedule);
      StuckIsAnEmbrace(e);
      var p, q :| Embraced(e, p, q);
      EmbraceShowsConflict(programs, e, p, q);
    }
    if HaveConflict(programs) {
      var p, i, q, j :| Conflict(programs, p, i, q, j);
      var end := RunIntoConflict(programs, p, i, q, j);
    }
  }

  lemma RunIntoConflict(programs: seq<seq<Op>>, p: Tid, i: nat, q: Tid, j: nat) returns (end: State)
    requires Conflict(programs, p, i, q, j)
    ensures Reachable(Initial(programs, false), end) && Stuck(end)
  {
    hide Inv, Traced, Run, Runs, Stuck, Initial, Embraced, Quiet, Pending, Registers;
    var s := Initial(programs, false);
    var e := RunToConflict(programs, p, i, q, j);
    var f := MeetFromQuiet(s, e, p, q, programs[q][j].req);
    var schedule :| Runs(s, schedule) && Run(s, schedule) == f;
    InitialIsQuiet(programs);
    RunKeepsTraced(programs, s, schedule);
    end := RunToRest(s, f, |f.registered| + Pending(f.threads), p, q);
  }
}
