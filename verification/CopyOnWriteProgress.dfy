/** Copy-on-write calls come to an end: every step is progress, and the calls of a run are the ones begun in it. */
module CopyOnWriteProgress {
  import opened Wrappers
  import opened CopyOnWrite

  // ---------------------------------------------------------------------------------------------
  // The calls of a run
  // ---------------------------------------------------------------------------------------------

  /** The calls begun, in order. */
  function Begins(steps: seq<Step>): seq<Step>
    decreases |steps|
  {
    if steps == [] then []
    else (if steps[0].Advance? then [] else [steps[0]]) + Begins(steps[1..])
  }

  predicate IsCallOf(c: Call, begin: Step) {
    match begin
    case BeginTraverse(parent) => c.Traverse? && c.parent == parent
    case BeginPost(update, parent) => c.Post? && c.update == update && c.parent == parent
    case Advance(_) => false
  }

  ghost predicate CallsAre(calls: seq<Call>, begins: seq<Step>) {
    |calls| == |begins| && forall id :: 0 <= id < |calls| ==> IsCallOf(calls[id], begins[id])
  }

  lemma StepKeepsCalls(s: State, step: Step, begins: seq<Step>)
    requires Inv(s) && Enabled(s, step) && CallsAre(s.calls, begins)
    ensures CallsAre(Next(s, step).calls, begins + if step.Advance? then [] else [step])
  {
    hide Inv, Apply, DropRef;
    if step.Advance? {
      assert begins + [] == begins;
    }
  }

  lemma {:induction false} RunKeepsCalls(s: State, steps: seq<Step>, begins: seq<Step>)
    requires Inv(s) && Runs(s, steps) && CallsAre(s.calls, begins)
    ensures CallsAre(Run(s, steps).calls, begins + Begins(steps))
    decreases |steps|
  {
    hide Inv, Next, Enabled, CallsAre;
    if steps == [] {
      assert begins + [] == begins;
    } else {
      var first := if steps[0].Advance? then [] else [steps[0]];
      StepKeepsInv(s, steps[0]);
      StepKeepsCalls(s, steps[0], begins);
      RunKeepsCalls(Next(s, steps[0]), steps[1..], begins + first);
      assert begins + first + Begins(steps[1..]) == begins + (first + Begins(steps[1..]));
    }
  }

  /** A run's calls are those begun in it, each with the update and the parent it was begun with. */
  lemma CallsAreBegun(steps: seq<Step>)
    requires Runs(Initial(), steps)
    ensures CallsAre(Run(Initial(), steps).calls, Begins(steps))
  {
    hide Inv;
    RunKeepsCalls(Initial(), steps, []);
    assert [] + Begins(steps) == Begins(steps);
  }

  // ---------------------------------------------------------------------------------------------
  // Progress
  // ---------------------------------------------------------------------------------------------

  /** The steps a call has left at most, if no list ever holds more than `k` items. */
  function Rank(c: Call, k: nat): nat {
    match c
    case Traverse(pc, _, seen, _, _) =>
      (match pc
       case TStart => k + 4
       case TLocked => k + 3
       case TCopied => k + 2
       case TVisiting => if |seen| <= k then k + 1 - |seen| else 0
       case TDone => 0)
    case Post(pc, _, _, _) =>
      match pc
      case PStart => 5
      case PLocked => 4
      case PChecked(_) => 3
      case PReady => 2
      case PPushed => 1
      case PDone => 0
  }

  function Total(calls: seq<Call>, k: nat): nat {
    if calls == [] then 0 else Rank(calls[0], k) + Total(calls[1..], k)
  }

  /** The posts still to push. */
  function Pending(calls: seq<Call>): nat {
    if calls == [] then 0 else (if calls[0].Post? && !calls[0].Pushed() then 1 else 0) + Pending(calls[1..])
  }

  lemma {:induction false} SumsAfterUpdate(calls: seq<Call>, id: CallId, c: Call, k: nat)
    requires id < |calls|
    ensures Total(calls[id := c], k) == Total(calls, k) - Rank(calls[id], k) + Rank(c, k)
    ensures Pending(calls[id := c]) == Pending(calls)
      - (if calls[id].Post? && !calls[id].Pushed() then 1 else 0) + (if c.Post? && !c.Pushed() then 1 else 0)
  {
    hide Rank;
    if id > 0 {
      assert calls[id := c][1..] == calls[1..][id - 1 := c];
      SumsAfterUpdate(calls[1..], id - 1, c, k);
    } else {
      assert calls[id := c][1..] == calls[1..];
    }
  }

  lemma {:induction false} InsertIsOneMore(s: seq<Item>, x: Item)
    ensures |InsertSorted(s, x)| <= |s| + 1 && |EraseFrom(s, x)| <= |s|
  {
    if s != [] {
      InsertIsOneMore(s[1..], x);
    }
  }

  /** A list has no more items than there were updates. */
  lemma {:induction false} ReplayIsShort(log: seq<Update>)
    ensures |Replay(log)| <= |log|
  {
    if log != [] {
      var init, u := log[..|log| - 1], log[|log| - 1];
      ReplayIsShort(init);
      InsertIsOneMore(Replay(init), u.item);
    }
  }

  /** A visiting traversal has seen part of its list, which is no longer than the log. */
  lemma VisitorIsShort(s: State, id: CallId)
    requires Inv(s) && id < |s.calls| && s.calls[id].Traverse? && s.calls[id].tpc == TVisiting
    ensures s.calls[id].ptr in s.heap
    ensures |s.calls[id].seen| <= |s.heap[s.calls[id].ptr].content| <= |s.log|
  {
    hide Replay, CountsAreRight, LogIsRight, LockIsRight;
    var c := s.calls[id];
    assert CallIsRight(s.heap, s.global, s.log, c);
    ReplayIsShort(s.log[..c.snap]);
  }

  lemma OwnStepIsProgress(s: State, id: CallId, k: nat)
    requires Inv(s) && CanAdvance(s, id) && |s.log| <= k
    ensures var n := Next(s, Advance(id));
      && id < |s.calls| && id < |n.calls|
      && n.calls == s.calls[id := n.calls[id]] && Rank(n.calls[id], k) < Rank(s.calls[id], k)
      && n.log == s.log + (if s.calls[id].Post? && s.calls[id].ppc == PReady then [s.calls[id].update] else [])
      && (s.calls[id].Post? <==> n.calls[id].Post?)
      && (s.calls[id].Post? ==> (n.calls[id].Pushed() <==> s.calls[id].Pushed() || s.calls[id].ppc == PReady))
  {
    hide Apply, DropRef, Replay, LogIsRight, CallIsRight, CountsAreRight;
    if s.calls[id].Traverse? && s.calls[id].tpc == TVisiting {
      VisitorIsShort(s, id);
    }
  }

  lemma StepIsProgress(s: State, id: CallId, k: nat)
    requires Inv(s) && CanAdvance(s, id) && |s.log| + Pending(s.calls) <= k
    ensures var n := Next(s, Advance(id));
      Total(n.calls, k) < Total(s.calls, k) && |n.log| + Pending(n.calls) <= k
  {
    hide Inv, Next, CanAdvance, Rank, Total, Pending;
    OwnStepIsProgress(s, id, k);
    SumsAfterUpdate(s.calls, id, Next(s, Advance(id)).calls[id], k);
  }

  lemma {:induction false} RunIsBounded(s: State, steps: seq<Step>, k: nat)
    requires Inv(s) && Runs(s, steps) && |s.log| + Pending(s.calls) <= k
    requires forall step :: step in steps ==> step.Advance?
    ensures |steps| <= Total(s.calls, k)
    decreases |steps|
  {
    hide Inv, Next, CanAdvance, Total, Pending;
    if steps != [] {
      assert steps[0] in steps;
      StepKeepsInv(s, steps[0]);
      StepIsProgress(s, steps[0].id, k);
      RunIsBounded(Next(s, steps[0]), steps[1..], k);
    }
  }

  /**
   After any run, if no further calls are made the calls there are take a bounded number of steps, and when none
   of them can go on all have finished.
   */
  lemma EveryCallFinishes(before: seq<Step>, after: seq<Step>)
    requires Runs(Initial(), before) && Runs(Initial(), before + after)
    requires forall step :: step in after ==> step.Advance?
    ensures
      var s, n := Run(Initial(), before), Run(Initial(), before + after);
      && |after| <= Total(s.calls, |s.log| + Pending(s.calls))
      && ((forall id :: !CanAdvance(n, id)) ==> forall id :: 0 <= id < |n.calls| ==> n.calls[id].Done())
  {
    hide Inv, Run, Runs, CanAdvance, Total, Pending;
    RunAppend(Initial(), before, after);
    var s, n := Run(Initial(), before), Run(Initial(), before + after);
    RunIsBounded(s, after, |s.log| + Pending(s.calls));
    RunKeepsInv(Initial(), before + after);
    if exists id :: 0 <= id < |n.calls| && !n.calls[id].Done() {
      var id := SomeCallCanAdvance(n);
    }
  }
}
