/**
 The mutexes of `Inventory` and `Request`, as interleaved steps of any number of threads. With `print()` out
 of the inventory's critical section there is no deadlock; with it inside there is one.
 */
module InventoryLocks {
  import opened Wrappers
  import CopyOnWrite

  type Req = nat
  type Tid = nat

  /** `process`, `~Request`, `Inventory::add`, `Inventory::remove` and `Inventory::printAll`. */
  datatype Op = Process(req: Req) | Destruct(req: Req) | Add(req: Req) | Remove(req: Req) | PrintAll

  /** Where a thread is; `adding` tells an insertion into the inventory from a removal. */
  datatype Pc =
    | Idle
    | WantRequest(req: Req, adding: bool)
    | HasRequest(req: Req, adding: bool)      // and wants the inventory
    | HasBoth(req: Req, adding: bool)
    | Leaving(req: Req)                       // the inventory's mutex is released, the request's not yet
    | WantInventory(req: Req, adding: bool)
    | HasInventory(req: Req, adding: bool)
    | WantPrintAll
    | Copying                                 // has the inventory
    | Printing(rest: seq<Req>)                // wants the first of `rest`, if any
    | PrintingOne(req: Req, rest: seq<Req>)
    | PrintingInside(rest: seq<Req>)          // the same with the inventory held
    | PrintingOneInside(req: Req, rest: seq<Req>)
  {
    predicate HoldsInventory() {
      HasBoth? || HasInventory? || Copying? || PrintingInside? || PrintingOneInside?
    }

    predicate HoldsRequest(r: Req) {
      (HasRequest? || HasBoth? || Leaving? || PrintingOne? || PrintingOneInside?) && req == r
    }
  }

  datatype Thread = Thread(pc: Pc, todo: seq<Op>) {
    predicate Done() {
      pc == Idle && todo == []
    }
  }

  /** `inventory` and `requests` tell who holds which mutex; `fixed` whether `print()` has been moved out. */
  datatype State = State(
    inventory: Option<Tid>, requests: map<Req, Tid>, registered: seq<Req>, threads: seq<Thread>, fixed: bool)

  /** The thread's next step does not wait for a mutex. Mutexes are not recursive. */
  predicate Enabled(s: State, t: Tid) {
    && t < |s.threads| && !s.threads[t].Done()
    && match s.threads[t].pc
       case WantRequest(r, _) => r !in s.requests
       case HasRequest(_, _) => s.inventory == None
       case WantInventory(_, _) => s.inventory == None
       case WantPrintAll => s.inventory == None
       case Printing(rest) => rest != [] ==> rest[0] !in s.requests
       case PrintingInside(rest) => rest != [] ==> rest[0] !in s.requests
       case _ => true
  }

  function Start(op: Op): Pc {
    match op
    case Process(r) => WantRequest(r, true)
    case Destruct(r) => WantRequest(r, false)
    case Add(r) => WantInventory(r, true)
    case Remove(r) => WantInventory(r, false)
    case PrintAll => WantPrintAll
  }

  function Change(registered: seq<Req>, r: Req, adding: bool): seq<Req> {
    if adding then CopyOnWrite.InsertSorted(registered, r) else CopyOnWrite.EraseFrom(registered, r)
  }

  function Goto(s: State, t: Tid, pc: Pc): State
    requires t < |s.threads|
  {
    s.(threads := s.threads[t := s.threads[t].(pc := pc)])
  }

  function Next(s: State, t: Tid): State
    requires Enabled(s, t)
  {
    match s.threads[t].pc
    case Idle => s.(threads := s.threads[t := Thread(Start(s.threads[t].todo[0]), s.threads[t].todo[1..])])
    case WantRequest(r, adding) => Goto(s.(requests := s.requests[r := t]), t, HasRequest(r, adding))
    case HasRequest(r, adding) => Goto(s.(inventory := Some(t)), t, HasBoth(r, adding))
    case HasBoth(r, adding) =>
      Goto(s.(inventory := None, registered := Change(s.registered, r, adding)), t, Leaving(r))
    case Leaving(r) => Goto(s.(requests := s.requests - {r}), t, Idle)
    case WantInventory(r, adding) => Goto(s.(inventory := Some(t)), t, HasInventory(r, adding))
    case HasInventory(r, adding) =>
      Goto(s.(inventory := None, registered := Change(s.registered, r, adding)), t, Idle)
    case WantPrintAll => Goto(s.(inventory := Some(t)), t, Copying)
    case Copying =>
      if s.fixed then Goto(s.(inventory := None), t, Printing(s.registered))
      else Goto(s, t, PrintingInside(s.registered))
    case Printing(rest) =>
      if rest == [] then Goto(s, t, Idle)
      else Goto(s.(requests := s.requests[rest[0] := t]), t, PrintingOne(rest[0], rest[1..]))
    case PrintingOne(r, rest) => Goto(s.(requests := s.requests - {r}), t, Printing(rest))
    case PrintingInside(rest) =>
      if rest == [] then Goto(s.(inventory := None), t, Idle)
      else Goto(s.(requests := s.requests[rest[0] := t]), t, PrintingOneInside(rest[0], rest[1..]))
    case PrintingOneInside(r, rest) => Goto(s.(requests := s.requests - {r}), t, PrintingInside(rest))
  }

  // ---------------------------------------------------------------------------------------------
  // Mutual exclusion
  // ---------------------------------------------------------------------------------------------

  ghost predicate InventoryIsRight(s: State) {
    && (s.inventory.Some? ==> s.inventory.value < |s.threads|)
    && (forall t :: 0 <= t < |s.threads| ==> (s.threads[t].pc.HoldsInventory() <==> s.inventory == Some(t)))
  }

  ghost predicate RequestsAreRight(requests: map<Req, Tid>, threads: seq<Thread>) {
    && (forall r :: r in requests ==> requests[r] < |threads|)
    && (forall t, r :: 0 <= t < |threads| ==>
          (threads[t].pc.HoldsRequest(r) <==> r in requests && requests[r] == t))
  }

  ghost predicate NobodyPrintsInside(s: State) {
    forall t :: 0 <= t < |s.threads| ==> !s.threads[t].pc.PrintingInside? && !s.threads[t].pc.PrintingOneInside?
  }

  /** Each mutex is held by the thread it says and by no other. */
  ghost predicate Inv(s: State) {
    InventoryIsRight(s) && RequestsAreRight(s.requests, s.threads) && (s.fixed ==> NobodyPrintsInside(s))
  }

  /** A step changes one thread, and takes or releases at most one request mutex. */
  lemma StepShape(s: State, t: Tid)
    requires Enabled(s, t)
    ensures var n, pc := Next(s, t), s.threads[t].pc;
      && n.fixed == s.fixed
      && |n.threads| == |s.threads| && n.threads == s.threads[t := n.threads[t]]
      && match pc
         case WantRequest(r, _) => Takes(s, n, t, r)
         case Printing(rest) => if rest == [] then Keeps(s, n, t) else Takes(s, n, t, rest[0])
         case PrintingInside(rest) => if rest == [] then Keeps(s, n, t) else Takes(s, n, t, rest[0])
         case Leaving(r) => Gives(s, n, t, r)
         case PrintingOne(r, _) => Gives(s, n, t, r)
         case PrintingOneInside(r, _) => Gives(s, n, t, r)
         case _ => Keeps(s, n, t)
  {
    hide Change;
  }

  ghost predicate Keeps(s: State, n: State, t: Tid)
    requires t < |s.threads| && t < |n.threads|
  {
    n.requests == s.requests && forall r :: n.threads[t].pc.HoldsRequest(r) <==> s.threads[t].pc.HoldsRequest(r)
  }

  ghost predicate Takes(s: State, n: State, t: Tid, r: Req)
    requires t < |s.threads| && t < |n.threads|
  {
    && r !in s.requests && n.requests == s.requests[r := t]
    && forall q :: !s.threads[t].pc.HoldsRequest(q) && (n.threads[t].pc.HoldsRequest(q) <==> q == r)
  }

  ghost predicate Gives(s: State, n: State, t: Tid, r: Req)
    requires t < |s.threads| && t < |n.threads|
  {
    && n.requests == s.requests - {r}
    && forall q :: !n.threads[t].pc.HoldsRequest(q) && (s.threads[t].pc.HoldsRequest(q) <==> q == r)
  }

  lemma ShapeKeepsRequests(s: State, n: State, t: Tid, r: Req)
    requires RequestsAreRight(s.requests, s.threads) && t < |s.threads|
    requires |n.threads| == |s.threads| && n.threads == s.threads[t := n.threads[t]]
    requires Keeps(s, n, t) || Takes(s, n, t, r) || Gives(s, n, t, r)
    ensures RequestsAreRight(n.requests, n.threads)
  {
    assert Gives(s, n, t, r) ==> s.threads[t].pc.HoldsRequest(r);
  }

  /** A step takes the inventory when it is free, releases it, or leaves it; the fixed one never prints inside. */
  lemma InventoryShape(s: State, t: Tid)
    requires Enabled(s, t)
    ensures var n := Next(s, t);
      && n.threads == s.threads[t := n.threads[t]] && t < |n.threads| == |s.threads|
      && var had, has := s.threads[t].pc.HoldsInventory(), n.threads[t].pc.HoldsInventory();
      && (had == has ==> n.inventory == s.inventory)
      && (!had && has ==> s.inventory == None && n.inventory == Some(t))
      && (had && !has ==> n.inventory == None)
    ensures var pc, after := s.threads[t].pc, Next(s, t).threads[t].pc;
      (after.PrintingInside? || after.PrintingOneInside?) && s.fixed ==> pc.PrintingInside? || pc.PrintingOneInside?
  {
    hide Change;
  }

  lemma StepKeepsInventory(s: State, t: Tid)
    requires Enabled(s, t) && InventoryIsRight(s)
    ensures InventoryIsRight(Next(s, t))
    ensures s.fixed && NobodyPrintsInside(s) ==> NobodyPrintsInside(Next(s, t))
  {
    hide Next;
    InventoryShape(s, t);
    EnabledIsAThread(s, t);
  }

  lemma StepKeepsInv(s: State, t: Tid)
    requires Inv(s) && Enabled(s, t)
    ensures Inv(Next(s, t)) && Next(s, t).fixed == s.fixed
  {
    hide Next, Keeps, Takes, Gives, InventoryIsRight, NobodyPrintsInside, RequestsAreRight;
    StepShape(s, t);
    StepKeepsInventory(s, t);
    var pc := s.threads[t].pc;
    var r := match pc
      case Printing(rest) => if rest == [] then 0 else rest[0]
      case PrintingInside(rest) => if rest == [] then 0 else rest[0]
      case Idle => 0
      case WantPrintAll => 0
      case Copying => 0
      case _ => pc.req;
    ShapeKeepsRequests(s, Next(s, t), t, r);
  }

  predicate Runs(s: State, schedule: seq<Tid>)
    decreases |schedule|
  {
    schedule != [] ==> Enabled(s, schedule[0]) && Runs(Next(s, schedule[0]), schedule[1..])
  }

  function Run(s: State, schedule: seq<Tid>): State
    requires Runs(s, schedule)
    decreases |schedule|
  {
    if schedule == [] then s else Run(Next(s, schedule[0]), schedule[1..])
  }

  /** Any number of threads about to start, with anything to do. */
  function Initial(programs: seq<seq<Op>>, fixed: bool): State {
    State(None, map[], [], seq(|programs|, i requires 0 <= i < |programs| => Thread(Idle, programs[i])), fixed)
  }

  lemma {:induction false} RunKeepsInv(s: State, schedule: seq<Tid>)
    requires Inv(s) && Runs(s, schedule)
    ensures Inv(Run(s, schedule)) && Run(s, schedule).fixed == s.fixed
    decreases |schedule|
  {
    hide Inv, Next, Enabled;
    if schedule != [] {
      StepKeepsInv(s, schedule[0]);
      RunKeepsInv(Next(s, schedule[0]), schedule[1..]);
    }
  }

  // ---------------------------------------------------------------------------------------------
  // Deadlock
  // ---------------------------------------------------------------------------------------------

  ghost predicate AllDone(s: State) {
    forall t :: 0 <= t < |s.threads| ==> s.threads[t].Done()
  }

  ghost predicate Stuck(s: State) {
    !AllDone(s) && forall t :: 0 <= t < |s.threads| ==> !Enabled(s, t)
  }

  /** `p` prints inside the inventory's critical section a request whose mutex `q` has, and `q` wants the inventory. */
  ghost predicate Embraced(s: State, p: Tid, q: Tid) {
    && p < |s.threads| && q < |s.threads|
    && s.threads[p].pc.PrintingInside? && s.threads[p].pc.rest != []
    && s.threads[q].pc.HasRequest? && s.threads[q].pc.req == s.threads[p].pc.rest[0]
  }

  /**
   Whoever has the inventory goes on, unless it waits for a request whose holder wants the inventory; if nobody
   has it, a waiting thread or the holder of the request it waits for goes on.
   */
  lemma GoesOnOrEmbraced(s: State, t: Tid) returns (u: Tid, v: Tid)
    requires Inv(s) && t < |s.threads| && !s.threads[t].Done()
    ensures Enabled(s, u) || Embraced(s, u, v)
  {
    v := 0;
    if s.inventory.Some? {
      u := s.inventory.value;
      assert s.threads[u].pc.HoldsInventory();
      if !Enabled(s, u) {
        v := s.requests[s.threads[u].pc.rest[0]];
        assert s.threads[v].pc.HoldsRequest(s.threads[u].pc.rest[0]);
        if !s.threads[v].pc.HasRequest? {
          u := v;
        }
      }
    } else if Enabled(s, t) {
      u := t;
    } else {
      var pc := s.threads[t].pc;
      var r := if pc.WantRequest? then pc.req else pc.rest[0];
      u := s.requests[r];
      assert s.threads[u].pc.HoldsRequest(r);
      assert !s.threads[u].pc.HoldsInventory();
    }
  }

  lemma SomeoneGoesOn(s: State, t: Tid) returns (u: Tid)
    requires Inv(s) && s.fixed && t < |s.threads| && !s.threads[t].Done()
    ensures Enabled(s, u)
  {
    var v;
    u, v := GoesOnOrEmbraced(s, t);
  }

  /** With `print()` moved out, no run of any programs gets stuck. */
  lemma FixedNeverDeadlocks(programs: seq<seq<Op>>, schedule: seq<Tid>)
    requires Runs(Initial(programs, true), schedule)
    ensures !Stuck(Run(Initial(programs, true), schedule))
  {
    hide Inv, Next, Enabled, Run;
    InitialInv(programs, true);
    RunKeepsInv(Initial(programs, true), schedule);
    var s := Run(Initial(programs, true), schedule);
    if t :| 0 <= t < |s.threads| && !s.threads[t].Done() {
      var u := SomeoneGoesOn(s, t);
      EnabledIsAThread(s, u);
    }
  }

  lemma EnabledIsAThread(s: State, u: Tid)
    requires Enabled(s, u)
    ensures u < |s.threads|
  {
  }

  lemma InitialInv(programs: seq<seq<Op>>, fixed: bool)
    ensures Inv(Initial(programs, fixed)) && Initial(programs, fixed).fixed == fixed
  {
  }

  /** Thread 0 has registered the request and released both mutexes. */
  function AfterProcess(r: Req): State {
    State(None, map[], [r], [Thread(Idle, [Destruct(r)]), Thread(Idle, [PrintAll])], false)
  }

  /** Thread 0 has the request and wants the inventory, thread 1 has the inventory and wants the request. */
  function Embrace(r: Req): State {
    State(Some(1), map[r := 0], [r], [Thread(HasRequest(r, false), []), Thread(PrintingInside([r]), [])], false)
  }

  lemma ReachAfterProcess(r: Req)
    ensures
      var start := Initial([[Process(r), Destruct(r)], [PrintAll]], false);
      Runs(start, [0, 0, 0, 0, 0]) && Run(start, [0, 0, 0, 0, 0]) == AfterProcess(r)
  {
    var other := Thread(Idle, [PrintAll]);
    var s0 := Initial([[Process(r), Destruct(r)], [PrintAll]], false);
    assert s0.threads == [Thread(Idle, [Process(r), Destruct(r)]), other];
    var s1 := State(None, map[], [], [Thread(WantRequest(r, true), [Destruct(r)]), other], false);
    var s2 := State(None, map[r := 0], [], [Thread(HasRequest(r, true), [Destruct(r)]), other], false);
    var s3 := State(Some(0), map[r := 0], [], [Thread(HasBoth(r, true), [Destruct(r)]), other], false);
    var s4 := State(None, map[r := 0], [r], [Thread(Leaving(r), [Destruct(r)]), other], false);
    RunStep(s4, AfterProcess(r), 0, []);
    RunStep(s3, s4, 0, [0]);
    RunStep(s2, s3, 0, [0, 0]);
    RunStep(s1, s2, 0, [0, 0, 0]);
    assert [Process(r), Destruct(r)][1..] == [Destruct(r)];
    RunStep(s0, s1, 0, [0, 0, 0, 0]);
  }

  /** Thread 0 has the request again. */
  function InDestructor(r: Req): State {
    State(None, map[r := 0], [r], [Thread(HasRequest(r, false), []), Thread(Idle, [PrintAll])], false)
  }

  lemma ReachDestructor(r: Req)
    ensures Runs(AfterProcess(r), [0, 0]) && Run(AfterProcess(r), [0, 0]) == InDestructor(r)
  {
    var s6 := State(None, map[], [r], [Thread(WantRequest(r, false), []), Thread(Idle, [PrintAll])], false);
    assert [Destruct(r)][1..] == [];
    RunStep(s6, InDestructor(r), 0, []);
    RunStep(AfterProcess(r), s6, 0, [0]);
  }

  lemma ReachEmbrace(r: Req)
    ensures Runs(InDestructor(r), [1, 1, 1]) && Run(InDestructor(r), [1, 1, 1]) == Embrace(r)
  {
    var s8 := State(None, map[r := 0], [r], [Thread(HasRequest(r, false), []), Thread(WantPrintAll, [])], false);
    var s9 := State(Some(1), map[r := 0], [r], [Thread(HasRequest(r, false), []), Thread(Copying, [])], false);
    assert [PrintAll][1..] == [];
    RunStep(s9, Embrace(r), 1, []);
    RunStep(s8, s9, 1, [1]);
    RunStep(InDestructor(r), s8, 1, [1, 1]);
  }

  lemma RunStep(s: State, n: State, t: Tid, schedule: seq<Tid>)
    requires Enabled(s, t) && Next(s, t) == n && Runs(n, schedule)
    ensures Runs(s, [t] + schedule) && Run(s, [t] + schedule) == Run(n, schedule)
  {
    hide Next, Enabled;
    assert ([t] + schedule)[1..] == schedule;
  }

  lemma {:induction false} RunAppend(s: State, a: seq<Tid>, b: seq<Tid>)
    requires Runs(s, a) && Runs(Run(s, a), b)
    ensures Runs(s, a + b) && Run(s, a + b) == Run(Run(s, a), b)
    decreases |a|
  {
    hide Next, Enabled;
    if a == [] {
      assert a + b == b;
    } else {
      assert (a + b)[1..] == a[1..] + b;
      RunAppend(Next(s, a[0]), a[1..], b);
    }
  }

  /** With `print()` inside, a destructor and `printAll` can block each other for good. */
  lemma UnfixedDeadlocks(r: Req)
    ensures
      var start := Initial([[Process(r), Destruct(r)], [PrintAll]], false);
      var schedule := [0, 0, 0, 0, 0] + ([0, 0] + [1, 1, 1]);
      Runs(start, schedule) && Stuck(Run(start, schedule))
  {
    hide Runs, Run;
    ReachAfterProcess(r);
    ReachDestructor(r);
    ReachEmbrace(r);
    RunAppend(AfterProcess(r), [0, 0], [1, 1, 1]);
    RunAppend(Initial([[Process(r), Destruct(r)], [PrintAll]], false), [0, 0, 0, 0, 0], [0, 0] + [1, 1, 1]);
    assert !Embrace(r).threads[0].Done();
  }

  // ---------------------------------------------------------------------------------------------
  // Termination
  // ---------------------------------------------------------------------------------------------

  predicate Adds(op: Op) {
    op.Process? || op.Add?
  }

  function TodoAdds(todo: seq<Op>): nat {
    if todo == [] then 0 else (if Adds(todo[0]) then 1 else 0) + TodoAdds(todo[1..])
  }

  /** The insertions a thread has still to make. */
  function PendingAdds(th: Thread): nat {
    TodoAdds(th.todo) + match th.pc
      case WantRequest(_, adding) => if adding then 1 else 0
      case HasRequest(_, adding) => if adding then 1 else 0
      case HasBoth(_, adding) => if adding then 1 else 0
      case WantInventory(_, adding) => if adding then 1 else 0
      case HasInventory(_, adding) => if adding then 1 else 0
      case _ => 0
  }

  function Pending(threads: seq<Thread>): nat {
    if threads == [] then 0 else PendingAdds(threads[0]) + Pending(threads[1..])
  }

  /** The steps an operation takes when at most `k` requests are registered. */
  function OpCost(op: Op, k: nat): nat {
    match op
    case Process(_) => 5
    case Destruct(_) => 5
    case Add(_) => 3
    case Remove(_) => 3
    case PrintAll => 2 * k + 4
  }

  function TodoCost(todo: seq<Op>, k: nat): nat {
    if todo == [] then 0 else OpCost(todo[0], k) + TodoCost(todo[1..], k)
  }

  function ThreadCost(th: Thread, k: nat): nat {
    TodoCost(th.todo, k) + match th.pc
      case WantRequest(_, _) => 4
      case HasRequest(_, _) => 3
      case HasBoth(_, _) => 2
      case Leaving(_) => 1
      case WantInventory(_, _) => 2
      case HasInventory(_, _) => 1
      case WantPrintAll => 2 * k + 3
      case Copying => 2 * k + 2
      case Printing(rest) => 2 * |rest| + 1
      case PrintingOne(_, rest) => 2 * |rest| + 2
      case PrintingInside(rest) => 2 * |rest| + 1
      case PrintingOneInside(_, rest) => 2 * |rest| + 2
      case Idle => 0
  }

  function Work(threads: seq<Thread>, k: nat): nat {
    if threads == [] then 0 else ThreadCost(threads[0], k) + Work(threads[1..], k)
  }

  lemma {:induction false} SumsAfterUpdate(threads: seq<Thread>, t: Tid, th: Thread, k: nat)
    requires t < |threads|
    ensures Work(threads[t := th], k) == Work(threads, k) - ThreadCost(threads[t], k) + ThreadCost(th, k)
    ensures Pending(threads[t := th]) == Pending(threads) - PendingAdds(threads[t]) + PendingAdds(th)
  {
    hide ThreadCost, PendingAdds;
    if t > 0 {
      assert threads[t := th][1..] == threads[1..][t - 1 := th];
      SumsAfterUpdate(threads[1..], t - 1, th, k);
    } else {
      assert threads[t := th][1..] == threads[1..];
    }
  }

  lemma {:induction false} ChangeLength(registered: seq<Req>, r: Req)
    ensures |CopyOnWrite.InsertSorted(registered, r)| <= |registered| + 1
    ensures |CopyOnWrite.EraseFrom(registered, r)| <= |registered|
  {
    if registered != [] {
      ChangeLength(registered[1..], r);
    }
  }

  /** What one step does to the stepping thread's costs and to the inventory. */
  lemma StepCosts(s: State, t: Tid, k: nat)
    requires Enabled(s, t) && |s.registered| + PendingAdds(s.threads[t]) <= k
    ensures var n := Next(s, t);
      && t < |n.threads| && ThreadCost(n.threads[t], k) < ThreadCost(s.threads[t], k)
      && |n.registered| + PendingAdds(n.threads[t]) <= |s.registered| + PendingAdds(s.threads[t])
  {
    var pc := s.threads[t].pc;
    if pc.HasBoth? || pc.HasInventory? {
      ChangeLength(s.registered, pc.req);
    }
  }

  /** With `k` bounding the registered requests and those still to come, every step does some of the work left. */
  lemma StepDoesWork(s: State, t: Tid, k: nat)
    requires Enabled(s, t) && |s.registered| + Pending(s.threads) <= k
    ensures Work(Next(s, t).threads, k) < Work(s.threads, k)
    ensures |Next(s, t).registered| + Pending(Next(s, t).threads) <= k
  {
    hide ThreadCost, PendingAdds, Work, Pending, Next;
    StepShape(s, t);
    PendingAtLeast(s.threads, t);
    StepCosts(s, t, k);
    SumsAfterUpdate(s.threads, t, Next(s, t).threads[t], k);
  }

  lemma {:induction false} PendingAtLeast(threads: seq<Thread>, t: Tid)
    requires t < |threads|
    ensures PendingAdds(threads[t]) <= Pending(threads)
  {
    hide PendingAdds;
    if t > 0 {
      PendingAtLeast(threads[1..], t - 1);
    }
  }

  lemma {:induction false} RunIsBounded(s: State, schedule: seq<Tid>, k: nat)
    requires Runs(s, schedule) && |s.registered| + Pending(s.threads) <= k
    ensures |schedule| <= Work(s.threads, k)
    decreases |schedule|
  {
    hide Next, Enabled, Work, Pending;
    if schedule != [] {
      StepDoesWork(s, schedule[0], k);
      RunIsBounded(Next(s, schedule[0]), schedule[1..], k);
    }
  }

  /**
   The fixed inventory, any programs: every run ends within a bound the programs give, and a run that cannot
   be extended has finished every thread.
   */
  lemma FixedAlwaysFinishes(programs: seq<seq<Op>>, schedule: seq<Tid>)
    requires Runs(Initial(programs, true), schedule)
    ensures
      var s, end := Initial(programs, true), Run(Initial(programs, true), schedule);
      && |schedule| <= Work(s.threads, Pending(s.threads))
      && ((forall t :: 0 <= t < |end.threads| ==> !Enabled(end, t)) ==> AllDone(end))
  {
    hide Inv, Next, Enabled, Work, Pending, Run;
    var s := Initial(programs, true);
    InitialInv(programs, true);
    RunIsBounded(s, schedule, Pending(s.threads));
    FixedNeverDeadlocks(programs, schedule);
  }
}
