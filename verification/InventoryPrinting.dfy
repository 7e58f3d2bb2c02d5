/**
 What the operations on the inventory do over whole runs, fixed or not: `printAll` prints what was registered while
 it had the inventory, whatever the other threads do meanwhile, and the others take the mutex they should.
 */
module InventoryPrinting {
  import opened Wrappers
  import opened InventoryLocks
  import CopyOnWrite

  // ---------------------------------------------------------------------------------------------
  // The request mutexes a thread takes, read off who has which
  // ---------------------------------------------------------------------------------------------

  predicate NewlyHas(s: State, n: State, t: Tid, r: Req) {
    r in n.requests && n.requests[r] == t && r !in s.requests
  }

  ghost function TakenNow(s: State, n: State, t: Tid): seq<Req> {
    if exists r :: NewlyHas(s, n, t, r) then var r :| NewlyHas(s, n, t, r); [r] else []
  }

  /** The requests whose mutexes `t` takes in the course of a schedule, in order. */
  ghost function TakenBy(s: State, schedule: seq<Tid>, t: Tid): seq<Req>
    requires Runs(s, schedule)
    decreases |schedule|
  {
    if schedule == [] then []
    else
      var n := Next(s, schedule[0]);
      TakenNow(s, n, t) + TakenBy(n, schedule[1..], t)
  }

  /** What a thread past its choice of requests will still take before it is idle. */
  function StillToTake(pc: Pc): seq<Req> {
    match pc
    case WantRequest(r, _) => [r]
    case Printing(rest) => rest
    case PrintingOne(_, rest) => rest
    case PrintingInside(rest) => rest
    case PrintingOneInside(_, rest) => rest
    case _ => []
  }

  lemma OnlyNewOne(s: State, n: State, t: Tid, r: Req)
    requires n.requests == s.requests[r := t] && r !in s.requests
    ensures TakenNow(s, n, t) == [r]
    ensures forall u :: u != t ==> TakenNow(s, n, u) == []
  {
    assert NewlyHas(s, n, t, r);
    assert forall q :: NewlyHas(s, n, t, q) ==> q == r;
  }

  lemma NoNewOne(s: State, n: State, r: Req, t: Tid)
    requires n.requests == s.requests || n.requests == s.requests - {r}
    ensures TakenNow(s, n, t) == []
  {
  }

  /** A step of another thread is none of `t`'s. */
  lemma OthersStep(s: State, u: Tid, t: Tid)
    requires Enabled(s, u) && u != t && t < |s.threads|
    ensures TakenNow(s, Next(s, u), t) == []
    ensures |Next(s, u).threads| == |s.threads| && Next(s, u).threads[t] == s.threads[t]
  {
    hide Next, Enabled, Keeps, TakenNow;
    StepShape(s, u);
    WhatStepTakes(s, u, t);
  }

  lemma WhatStepTakes(s: State, u: Tid, t: Tid)
    requires Enabled(s, u)
    ensures var pc := s.threads[u].pc;
      TakenNow(s, Next(s, u), t) ==
        if u == t && (pc.WantRequest? || pc.Printing? || pc.PrintingInside?) then
          (if StillToTake(pc) == [] then [] else [StillToTake(pc)[0]])
        else []
  {
    hide TakenNow, Change;
    var n, pc := Next(s, u), s.threads[u].pc;
    if (pc.WantRequest? || pc.Printing? || pc.PrintingInside?) && StillToTake(pc) != [] {
      OnlyNewOne(s, n, u, StillToTake(pc)[0]);
    } else {
      NoNewOne(s, n, if pc.Leaving? || pc.PrintingOne? || pc.PrintingOneInside? then pc.req else 0, t);
    }
  }

  /** A thread's own step towards being idle, once the operation's requests are chosen. */
  lemma OwnStep(s: State, t: Tid)
    requires Enabled(s, t) && !s.threads[t].pc.Idle? && !s.threads[t].pc.WantPrintAll? && !s.threads[t].pc.Copying?
    ensures var pc, th := s.threads[t].pc, Next(s, t).threads[t];
      && TakenNow(s, Next(s, t), t) + StillToTake(th.pc) == StillToTake(pc)
      && th.todo == s.threads[t].todo && !th.pc.WantPrintAll? && !th.pc.Copying?
  {
    hide TakenNow, Change;
    WhatStepTakes(s, t, t);
  }

  // ---------------------------------------------------------------------------------------------
  // Over a schedule
  // ---------------------------------------------------------------------------------------------

  lemma {:induction false} TodoShrinks(s: State, schedule: seq<Tid>, t: Tid)
    requires Runs(s, schedule) && t < |s.threads|
    ensures var e := Run(s, schedule);
      |e.threads| == |s.threads| && |e.threads[t].todo| <= |s.threads[t].todo|
    decreases |schedule|
  {
    hide Next, Enabled;
    if schedule != [] {
      StepTodo(s, schedule[0], t);
      TodoShrinks(Next(s, schedule[0]), schedule[1..], t);
    }
  }

  lemma StepTodo(s: State, u: Tid, t: Tid)
    requires Enabled(s, u) && t < |s.threads|
    ensures var n := Next(s, u);
      && |n.threads| == |s.threads| && |n.threads[t].todo| <= |s.threads[t].todo|
      && (u == t && s.threads[t].pc.Idle? ==> |n.threads[t].todo| < |s.threads[t].todo|)
  {
    hide Change;
  }

  /** The operation of `t` is over, and the next has not begun. */
  ghost predicate Finishes(s: State, schedule: seq<Tid>, t: Tid, todo: seq<Op>)
    requires Runs(s, schedule)
  {
    var e := Run(s, schedule);
    t < |e.threads| && e.threads[t] == Thread(Idle, todo)
  }

  lemma {:induction false} RestIsTaken(s: State, schedule: seq<Tid>, t: Tid)
    requires Runs(s, schedule) && t < |s.threads| && Finishes(s, schedule, t, s.threads[t].todo)
    requires !s.threads[t].pc.WantPrintAll? && !s.threads[t].pc.Copying?
    ensures TakenBy(s, schedule, t) == StillToTake(s.threads[t].pc)
    decreases |schedule|
  {
    hide Next, Enabled, TakenNow, StillToTake;
    IdleTakesNone();
    if schedule != [] {
      var u, n := schedule[0], Next(s, schedule[0]);
      if u != t {
        OthersStep(s, u, t);
        RestIsTaken(n, schedule[1..], t);
      } else {
        StepTodo(s, t, t);
        if s.threads[t].pc.Idle? {
          TodoShrinks(n, schedule[1..], t);
          assert false;
        } else {
          OwnStep(s, t);
          RestIsTaken(n, schedule[1..], t);
        }
      }
    }
  }

  lemma IdleTakesNone()
    ensures StillToTake(Idle) == []
  {
  }

  /** From the beginning of an operation other than `printAll`. */
  lemma {:induction false} OperationTakes(s: State, schedule: seq<Tid>, t: Tid)
    requires Runs(s, schedule) && t < |s.threads| && s.threads[t].pc == Idle && s.threads[t].todo != []
    requires !s.threads[t].todo[0].PrintAll? && Finishes(s, schedule, t, s.threads[t].todo[1..])
    ensures var op := s.threads[t].todo[0];
      TakenBy(s, schedule, t) == if op.Process? || op.Destruct? then [op.req] else []
    decreases |schedule|
  {
    hide Next, Enabled, TakenNow;
    assert schedule != [];
    var u, n := schedule[0], Next(s, schedule[0]);
    if u != t {
      OthersStep(s, u, t);
      OperationTakes(n, schedule[1..], t);
    } else {
      FirstStep(s, t);
      RestIsTaken(n, schedule[1..], t);
    }
  }

  lemma FirstStep(s: State, t: Tid)
    requires Enabled(s, t) && s.threads[t].pc == Idle
    ensures var n, todo := Next(s, t), s.threads[t].todo;
      && todo != [] && n.threads[t] == Thread(Start(todo[0]), todo[1..]) && |n.threads| == |s.threads|
      && TakenNow(s, n, t) == []
  {
    hide TakenNow;
    WhatStepTakes(s, t, t);
  }

  /** The steps of a `printAll` before its loop: the last of them copies what is registered. */
  lemma PrintAllStep(s: State, t: Tid)
    requires Enabled(s, t) && Inv(s) && (s.threads[t].pc.WantPrintAll? || s.threads[t].pc.Copying?)
    ensures var n := Next(s, t);
      && TakenNow(s, n, t) == [] && |n.threads| == |s.threads| && n.threads[t].todo == s.threads[t].todo
      && (s.threads[t].pc.WantPrintAll? ==> n.threads[t].pc.Copying?)
      && (s.threads[t].pc.Copying? ==>
            && s.inventory == Some(t) && StillToTake(n.threads[t].pc) == s.registered
            && (n.threads[t].pc.Printing? || n.threads[t].pc.PrintingInside?))
  {
    hide TakenNow, RequestsAreRight;
    WhatStepTakes(s, t, t);
  }

  /**
   `printAll`, from any moment before its loop: it prints the requests registered at some moment it had the
   inventory, all of them and in order, whatever the others add and remove before and after that.
   */
  lemma {:induction false} PrintAllTakes(s: State, schedule: seq<Tid>, t: Tid, todo: seq<Op>) returns (i: nat)
    requires Inv(s) && Runs(s, schedule) && t < |s.threads| && Finishes(s, schedule, t, todo)
    requires
      || s.threads[t] == Thread(Idle, [PrintAll] + todo)
      || (s.threads[t].todo == todo && (s.threads[t].pc.WantPrintAll? || s.threads[t].pc.Copying?))
    ensures i <= |schedule| && Runs(s, schedule[..i])
    ensures Run(s, schedule[..i]).inventory == Some(t)
    ensures TakenBy(s, schedule, t) == Run(s, schedule[..i]).registered
    decreases |schedule|
  {
    hide Inv, Next, Enabled, TakenNow, StillToTake;
    assert schedule != [];
    var u, n := schedule[0], Next(s, schedule[0]);
    StepKeepsInv(s, u);
    if u == t && s.threads[t].pc.Copying? {
      PrintAllStep(s, t);
      RestIsTaken(n, schedule[1..], t);
      i := 0;
      assert Run(s, []) == s;
    } else {
      if u != t {
        OthersStep(s, u, t);
      } else if s.threads[t].pc.Idle? {
        FirstStep(s, t);
        assert ([PrintAll] + todo)[1..] == todo;
        StartOfPrintAll();
      } else {
        PrintAllStep(s, t);
      }
      var j := PrintAllTakes(n, schedule[1..], t, todo);
      i := j + 1;
      assert schedule[..i][1..] == schedule[1..][..j];
    }
  }

  lemma StartOfPrintAll()
    ensures Start(PrintAll) == WantPrintAll
  {
  }

  // ---------------------------------------------------------------------------------------------
  // From the start
  // ---------------------------------------------------------------------------------------------

  lemma ChangeKeepsSorted(registered: seq<Req>, r: Req, adding: bool)
    requires CopyOnWrite.Sorted(registered)
    ensures CopyOnWrite.Sorted(Change(registered, r, adding))
  {
    CopyOnWrite.InsertIsInsert(registered, r);
    CopyOnWrite.EraseIsErase(registered, r);
  }

  lemma StepKeepsSorted(s: State, t: Tid)
    requires Enabled(s, t) && CopyOnWrite.Sorted(s.registered)
    ensures CopyOnWrite.Sorted(Next(s, t).registered)
  {
    hide Change, CopyOnWrite.Sorted;
    var pc := s.threads[t].pc;
    if pc.HasBoth? || pc.HasInventory? {
      ChangeKeepsSorted(s.registered, pc.req, pc.adding);
    }
  }

  lemma {:induction false} RunKeepsSorted(s: State, schedule: seq<Tid>)
    requires Runs(s, schedule) && CopyOnWrite.Sorted(s.registered)
    ensures CopyOnWrite.Sorted(Run(s, schedule).registered)
    decreases |schedule|
  {
    hide Next, Enabled, CopyOnWrite.Sorted;
    if schedule != [] {
      StepKeepsSorted(s, schedule[0]);
      RunKeepsSorted(Next(s, schedule[0]), schedule[1..]);
    }
  }

  /**
   Any programs, either version, any run `before`, and a run `during` that begins before a `printAll` of `t` and
   ends after it: the requests it prints are those registered at a moment it had the inventory, each once and in
   order.
   */
  lemma PrintAllPrintsRegistered(programs: seq<seq<Op>>, fixed: bool, before: seq<Tid>, during: seq<Tid>, t: Tid,
                                 todo: seq<Op>) returns (i: nat)
    requires Runs(Initial(programs, fixed), before) && Runs(Run(Initial(programs, fixed), before), during)
    requires var s := Run(Initial(programs, fixed), before);
      t < |s.threads| && s.threads[t] == Thread(Idle, [PrintAll] + todo) && Finishes(s, during, t, todo)
    ensures var s := Run(Initial(programs, fixed), before);
      && i <= |during| && Runs(s, during[..i])
      && var held := Run(s, during[..i]);
         && held.inventory == Some(t) && TakenBy(s, during, t) == held.registered
         && CopyOnWrite.Sorted(held.registered)
  {
    hide Inv, Next, Enabled, Run, Runs, TakenBy, Finishes;
    var s := Run(Initial(programs, fixed), before);
    InitialInv(programs, fixed);
    RunKeepsInv(Initial(programs, fixed), before);
    i := PrintAllTakes(s, during, t, todo);
    RunKeepsSorted(Initial(programs, fixed), before);
    RunKeepsSorted(s, during[..i]);
  }
}
