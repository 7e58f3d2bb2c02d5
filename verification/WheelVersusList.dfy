/**
 The two idle-connection servers on one trace. Times are microseconds; tick `n` comes at second `n`, and
 activity in interval `n` is timed in `[n, n + 1)`, in any order there. The wheel is taken as its counters.
 */
module WheelVersusList {
  import opened Wrappers
  import W = TimingWheel
  import L = SortedList

  type Conn = nat

  datatype Event = Connect(conn: Conn, time: int) | Message(conn: Conn, time: int) | Down(conn: Conn)
                 | Destroy(conn: Conn) | Tick

  datatype Both = Both(wheel: W.Counters, list: L.State)

  /** The time of the coming tick. */
  function NextTick(b: Both): int {
    |b.wheel.active| * 1_000_000
  }

  function ForWheel(e: Event): W.Event {
    match e
    case Connect(c, _) => W.Connect(c)
    case Message(c, _) => W.Message(c)
    case Down(c) => W.Down(c)
    case Destroy(c) => W.Destroy(c)
    case Tick => W.Tick
  }

  function ForList(b: Both, e: Event): L.Event {
    match e
    case Connect(c, t) => L.Up(c, t)
    case Message(c, t) => L.Message(c, t)
    case Down(c) => L.Down(c)
    case Destroy(c) => L.Destroy(c)
    case Tick => L.Tick(NextTick(b))
  }

  /** Enabled for the list, and timed in the current interval. */
  predicate Enabled(b: Both, e: Event) {
    && L.Enabled(b.list, ForList(b, e))
    && (e.Connect? || e.Message? ==> NextTick(b) - 1_000_000 <= e.time < NextTick(b))
  }

  function Step(b: Both, e: Event, idle: nat): Both
    requires b.wheel.active != [] && L.Listed(b.list) && Enabled(b, e)
  {
    Both(W.CountersStep(b.wheel, ForWheel(e), idle), L.Step(b.list, ForList(b, e), idle * 1_000_000))
  }

  predicate ShutBefore(shutdowns: seq<set<Conn>>, c: Conn) {
    exists t :: 0 <= t < |shutdowns| && c in shutdowns[t]
  }

  function Second(time: int): int {
    time / 1_000_000
  }

  /** Later cells have their last activity in the same second or a later one, before second `tick`. */
  ghost predicate BySecond(list: seq<L.Cell>, contexts: map<Conn, L.Context>, tick: int) {
    && (forall cell :: cell in list ==> cell.conn in contexts && Second(contexts[cell.conn].last) < tick)
    && (forall i, j :: 0 <= i < j < |list| ==>
          Second(contexts[list[i].conn].last) <= Second(contexts[list[j].conn].last))
  }

  /**
   While the wheel counts for a connection the list has its last activity in the same second and has not
   shut it down; an up connection the wheel no longer counts for has been shut down by the wheel.
   */
  ghost predicate Agree(b: Both, idle: nat) {
    && W.LastIsLast(b.wheel.last, b.wheel.active, idle)
    && L.Listed(b.list) && BySecond(b.list.list, b.list.contexts, |b.wheel.active|)
    && b.wheel.alive == b.list.alive && b.wheel.known == b.list.known
    && (forall c :: c in b.list.up && c in b.wheel.last ==>
          && c in b.list.connected
          && Second(b.list.contexts[c].last) == b.wheel.last[c])
    && (forall c :: c in b.list.up && c !in b.wheel.last ==> ShutBefore(b.wheel.shutdowns, c))
  }

  function Start(): (b: Both)
    ensures b.wheel.active != [] && L.Listed(b.list)
  {
    Both(W.InitialCounters(), L.Initial())
  }

  lemma InitiallyAgree(idle: nat)
    requires idle >= 1
    ensures Agree(Start(), idle)
  {
  }

  lemma Monotone(shutdowns: seq<set<Conn>>, more: set<Conn>, c: Conn)
    requires ShutBefore(shutdowns, c) || c in more
    ensures ShutBefore(shutdowns + [more], c)
  {
    var longer := shutdowns + [more];
    if c in more {
      assert c in longer[|shutdowns|];
    } else {
      var t :| 0 <= t < |shutdowns| && c in shutdowns[t];
      assert c in longer[t];
    }
  }

  // ---------------------------------------------------------------------------------------------
  // Order by seconds
  // ---------------------------------------------------------------------------------------------

  /** At a whole second, being overdue depends on the second of the last activity only. */
  lemma OverdueBySecond(last: int, tick: int, idle: nat)
    ensures tick * 1_000_000 - last > idle * 1_000_000 <==> Second(last) < tick - idle
    ensures Second(last) < tick ==> tick * 1_000_000 - last > 0
  {
  }

  /** At a whole second the overdue come first, so the scan shuts down all of them and moves no time. */
  lemma {:induction false} ScanBySecond(list: seq<L.Cell>, contexts: map<Conn, L.Context>, connected: set<Conn>,
                                        alive: set<Conn>, tick: int, idle: nat)
    requires BySecond(list, contexts, tick) && forall cell :: cell in list ==> cell.conn in alive
    requires forall i, j :: 0 <= i < j < |list| ==> list[i].conn != list[j].conn
    ensures var r := L.Scan(list, contexts, connected, alive, tick * 1_000_000, idle * 1_000_000);
      && r.contexts == contexts
      && (forall c :: c in r.shut ==> exists i :: 0 <= i < |list| && list[i].conn == c)
      && (forall i :: 0 <= i < |list| ==>
            (list[i].conn in r.shut <==>
               list[i].conn in connected && tick * 1_000_000 - contexts[list[i].conn].last > idle * 1_000_000))
  {
    hide Second;
    if list != [] {
      var c, tail, now, limit := list[0].conn, list[1..], tick * 1_000_000, idle * 1_000_000;
      assert forall i :: 0 <= i < |tail| ==> tail[i] == list[i + 1] && tail[i].conn != c;
      OverdueBySecond(contexts[c].last, tick, idle);
      if now - contexts[c].last > limit {
        ScanBySecond(tail, contexts, connected - {c}, alive, tick, idle);
      } else {
        forall i | 0 <= i < |list|
          ensures !(now - contexts[list[i].conn].last > limit)
        {
          OverdueBySecond(contexts[list[i].conn].last, tick, idle);
        }
      }
    }
  }

  /** A cell active in the current second may go to the back. */
  lemma AppendBySecond(list: seq<L.Cell>, contexts: map<Conn, L.Context>, cell: L.Cell, context: L.Context, tick: int)
    requires BySecond(list, contexts, tick) && forall d :: d in list ==> d.conn != cell.conn
    requires Second(context.last) == tick - 1
    ensures BySecond(list + [cell], contexts[cell.conn := context], tick)
  {
    hide Second;
  }

  lemma WithoutBySecond(list: seq<L.Cell>, contexts: map<Conn, L.Context>, i: nat, tick: int)
    requires BySecond(list, contexts, tick) && i < |list|
    ensures BySecond(L.Without(list, i), contexts, tick)
  {
    hide Second;
    var r := L.Without(list, i);
    assert forall k :: 0 <= k < |r| ==> r[k] == list[if k < i then k else k + 1];
  }

  lemma CurrentSecond(time: int, tick: int)
    requires tick * 1_000_000 - 1_000_000 <= time < tick * 1_000_000
    ensures Second(time) == tick - 1
  {
  }

  lemma ConnectBySecond(s: L.State, c: Conn, time: int, tick: int, idle: int)
    requires L.Listed(s) && BySecond(s.list, s.contexts, tick) && c !in s.known && Second(time) == tick - 1
    ensures var t := L.Step(s, L.Up(c, time), idle); BySecond(t.list, t.contexts, tick)
  {
    hide Second, BySecond;
    assert forall d :: d in s.list ==> d.conn in s.up;
    AppendBySecond(s.list, s.contexts, L.Cell(s.nextId, c), L.Context(time, s.nextId), tick);
  }

  lemma MessageBySecond(s: L.State, c: Conn, time: int, tick: int, idle: int)
    requires L.Listed(s) && BySecond(s.list, s.contexts, tick) && c in s.up && Second(time) == tick - 1
    ensures var t := L.Step(s, L.Message(c, time), idle); BySecond(t.list, t.contexts, tick)
  {
    hide Second, BySecond, L.IndexOf, L.MoveToBack, L.Without;
    L.MessageKeepsListed(s, c, time, idle);
    var i := L.IndexOf(s.list, s.contexts[c].position);
    L.WithoutFacts(s.list, i);
    WithoutBySecond(s.list, s.contexts, i, tick);
    AppendBySecond(L.Without(s.list, i), s.contexts, s.list[i], s.contexts[c].(last := time), tick);
  }

  lemma DownBySecond(s: L.State, c: Conn, tick: int, idle: int)
    requires L.Listed(s) && BySecond(s.list, s.contexts, tick) && c in s.up
    ensures var t := L.Step(s, L.Down(c), idle); BySecond(t.list, t.contexts, tick)
  {
    hide Second, BySecond, L.IndexOf, L.Erase, L.Without;
    L.DownKeepsListed(s, c, idle);
    WithoutBySecond(s.list, s.contexts, L.IndexOf(s.list, s.contexts[c].position), tick);
  }

  /** The list's tick shuts down the overdue and changes no times. */
  lemma ListTick(b: Both, idle: nat)
    requires Agree(b, idle)
    ensures Enabled(b, Tick)
    ensures var l := L.Step(b.list, L.Tick(NextTick(b)), idle * 1_000_000);
      && l.list == b.list.list && l.up == b.list.up && l.alive == b.list.alive && l.known == b.list.known
      && l.shutdowns == b.list.shutdowns + [L.Overdue(b.list, NextTick(b), idle * 1_000_000)]
      && l.connected == b.list.connected - L.Overdue(b.list, NextTick(b), idle * 1_000_000)
      && l.contexts == b.list.contexts
  {
    hide L.Scan, Second;
    var s, now, limit := b.list, NextTick(b), idle * 1_000_000;
    L.ScanKeepsList(s.list, s.contexts, s.connected, s.alive, now, limit);
    ScanBySecond(s.list, s.contexts, s.connected, s.alive, |b.wheel.active|, idle);
    ListedAreUp(s);
    assert L.Scan(s.list, s.contexts, s.connected, s.alive, now, limit).shut == L.Overdue(s, now, limit);
  }

  lemma ListedAreUp(s: L.State)
    requires L.Listed(s)
    ensures forall c :: c in s.up <==> exists i :: 0 <= i < |s.list| && s.list[i].conn == c
  {
    forall c | c in s.up
      ensures exists i :: 0 <= i < |s.list| && s.list[i].conn == c
    {
      var i :| 0 <= i < |s.list| && s.list[i] == L.Cell(s.contexts[c].position, c);
    }
  }

  // ---------------------------------------------------------------------------------------------
  // Every step keeps the servers in agreement
  // ---------------------------------------------------------------------------------------------

  /** No overdue connection is still counted for by the wheel: its time there was up a tick ago. */
  lemma OverdueIsUncounted(b: Both, idle: nat, c: Conn)
    requires Agree(b, idle) && c in L.Overdue(b.list, NextTick(b), idle * 1_000_000)
    ensures c !in b.wheel.last
  {
    OverdueBySecond(b.list.contexts[c].last, |b.wheel.active|, idle);
  }

  lemma CountersTick(s: W.Counters, idle: nat)
    requires idle >= 1 && W.LastIsLast(s.last, s.active, idle)
    ensures var t := W.CountersStep(s, W.Tick, idle); W.LastIsLast(t.last, t.active, idle)
  {
    hide W.LastActive;
    forall c | c in s.last
      ensures W.LastActive(s.active + [{}], c, s.last[c])
    {
      W.LastActiveAfterTick(s.active, c, s.last[c]);
    }
  }

  lemma TickKeepsAgree(b: Both, idle: nat)
    requires idle >= 1 && Agree(b, idle)
    requires L.Listed(Step(b, Tick, idle).list)
    ensures Agree(Step(b, Tick, idle), idle)
  {
    hide L.Step, L.Listed, Second;
    var n := Step(b, Tick, idle);
    ListTick(b, idle);
    CountersTick(b.wheel, idle);
    forall c | c in n.list.up && c in n.wheel.last
      ensures c in n.list.connected
    {
      if c in L.Overdue(b.list, NextTick(b), idle * 1_000_000) {
        OverdueIsUncounted(b, idle, c);
      }
    }
    forall c | c in n.list.up && c !in n.wheel.last
      ensures ShutBefore(n.wheel.shutdowns, c)
    {
      UpIsAlive(b, idle, c);
      Monotone(b.wheel.shutdowns, W.Due(b.wheel.last, |b.wheel.active|, idle) * b.wheel.alive, c);
    }
  }

  lemma UpIsAlive(b: Both, idle: nat, c: Conn)
    requires Agree(b, idle) && c in b.list.up
    ensures c in b.wheel.alive
  {
  }

  lemma WheelActivity(s: W.Counters, e: W.Event, idle: nat)
    requires idle >= 1 && W.LastIsLast(s.last, s.active, idle) && (e.Connect? || e.Message?)
    ensures var t := W.CountersStep(s, e, idle);
      && W.LastIsLast(t.last, t.active, idle) && |t.active| == |s.active| && t.shutdowns == s.shutdowns
      && t.alive == s.alive + (if e.Connect? then {e.conn} else {})
      && t.known == s.known + (if e.Connect? then {e.conn} else {})
      && t.last == if e.Connect? || e.conn in s.last then s.last[e.conn := |s.active| - 1] else s.last
  {
  }

  lemma ListActivity(s: L.State, e: L.Event, idle: int)
    requires L.Listed(s) && L.Enabled(s, e) && (e.Up? || e.Message?)
    ensures var t := L.Step(s, e, idle);
      && t.up == s.up + {e.conn} && t.shutdowns == s.shutdowns
      && t.connected == s.connected + (if e.Up? then {e.conn} else {})
      && t.alive == s.alive + (if e.Up? then {e.conn} else {})
      && t.known == s.known + (if e.Up? then {e.conn} else {})
      && e.conn in t.contexts && t.contexts[e.conn].last == e.time
      && forall c :: c in s.up && c != e.conn ==> c in t.contexts && t.contexts[c] == s.contexts[c]
  {
    hide L.MoveToBack, L.Distinct;
  }

  lemma ActivityKeepsAgree(b: Both, e: Event, idle: nat)
    requires idle >= 1 && Agree(b, idle) && Enabled(b, e) && (e.Connect? || e.Message?)
    requires L.Listed(Step(b, e, idle).list)
    ensures Agree(Step(b, e, idle), idle)
  {
    CurrentSecond(e.time, |b.wheel.active|);
    if e.Connect? {
      ConnectBySecond(b.list, e.conn, e.time, |b.wheel.active|, idle * 1_000_000);
    } else {
      MessageBySecond(b.list, e.conn, e.time, |b.wheel.active|, idle * 1_000_000);
    }
    WheelActivity(b.wheel, ForWheel(e), idle);
    ListActivity(b.list, ForList(b, e), idle * 1_000_000);
    assert e.Connect? ==> e.conn !in b.list.up;
    hide L.Listed, L.Step, W.CountersStep, W.LastIsLast, BySecond, Second;
  }

  lemma StepKeepsAgree(b: Both, e: Event, idle: nat)
    requires idle >= 1 && Agree(b, idle) && Enabled(b, e)
    ensures Agree(Step(b, e, idle), idle)
  {
    hide Second, BySecond, L.Scan, L.MoveToBack, L.Erase;
    L.StepKeepsListed(b.list, ForList(b, e), idle * 1_000_000);
    match e
    case Tick => TickKeepsAgree(b, idle);
    case Connect(_, _) => ActivityKeepsAgree(b, e, idle);
    case Message(_, _) => ActivityKeepsAgree(b, e, idle);
    case Down(c) => DownBySecond(b.list, c, |b.wheel.active|, idle * 1_000_000);
    case Destroy(_) =>
  }

  // ---------------------------------------------------------------------------------------------
  // Runs
  // ---------------------------------------------------------------------------------------------

  predicate Runs(b: Both, events: seq<Event>, idle: nat)
    requires b.wheel.active != [] && L.Listed(b.list)
    decreases |events|
  {
    events != [] ==>
      && Enabled(b, events[0])
      && (L.StepKeepsListed(b.list, ForList(b, events[0]), idle * 1_000_000);
          Runs(Step(b, events[0], idle), events[1..], idle))
  }

  function Run(b: Both, events: seq<Event>, idle: nat): (r: Both)
    requires b.wheel.active != [] && L.Listed(b.list) && Runs(b, events, idle)
    ensures r.wheel.active != [] && L.Listed(r.list)
    decreases |events|
  {
    if events == [] then b
    else
      L.StepKeepsListed(b.list, ForList(b, events[0]), idle * 1_000_000);
      Run(Step(b, events[0], idle), events[1..], idle)
  }

  lemma AgreeBasics(b: Both, idle: nat)
    requires Agree(b, idle)
    ensures b.wheel.active != [] && L.Listed(b.list)
  {
  }

  lemma {:induction false} RunKeepsAgree(b: Both, events: seq<Event>, idle: nat)
    requires idle >= 1 && Agree(b, idle)
    requires b.wheel.active != [] && L.Listed(b.list) && Runs(b, events, idle)
    ensures Agree(Run(b, events, idle), idle)
    decreases |events|
  {
    hide Agree, Step, Enabled, L.Listed;
    if events != [] {
      StepKeepsAgree(b, events[0], idle);
      AgreeBasics(Step(b, events[0], idle), idle);
      RunKeepsAgree(Step(b, events[0], idle), events[1..], idle);
    }
  }

  /** Both servers have recorded the same ticks, and the list's shutdowns follow the wheel's. */
  ghost predicate Behind(wheel: seq<set<Conn>>, list: seq<set<Conn>>) {
    && |list| == |wheel|
    && forall t, c :: 0 <= t < |list| && c in list[t] ==> ShutBefore(wheel[..t], c)
  }

  lemma BehindAfterTick(wheel: seq<set<Conn>>, list: seq<set<Conn>>, w: set<Conn>, l: set<Conn>)
    requires Behind(wheel, list) && forall c :: c in l ==> ShutBefore(wheel, c)
    ensures Behind(wheel + [w], list + [l])
  {
    hide ShutBefore;
    forall t, c | 0 <= t < |list| + 1 && c in (list + [l])[t]
      ensures ShutBefore((wheel + [w])[..t], c)
    {
      assert (wheel + [w])[..t] == wheel[..t];
      assert wheel[..|wheel|] == wheel;
    }
  }

  lemma StepKeepsBehind(b: Both, e: Event, idle: nat)
    requires idle >= 1 && Agree(b, idle) && Enabled(b, e) && Behind(b.wheel.shutdowns, b.list.shutdowns)
    requires b.wheel.active != [] && L.Listed(b.list)
    ensures Behind(Step(b, e, idle).wheel.shutdowns, Step(b, e, idle).list.shutdowns)
  {
    hide L.MoveToBack, L.Erase, L.Scan, W.LastIsLast, ShutBefore, Behind;
    if e.Tick? {
      ListTick(b, idle);
      var due, overdue := W.Due(b.wheel.last, |b.wheel.active|, idle), L.Overdue(b.list, NextTick(b), idle * 1_000_000);
      forall c | c in overdue ensures ShutBefore(b.wheel.shutdowns, c) {
        OverdueIsUncounted(b, idle, c);
      }
      BehindAfterTick(b.wheel.shutdowns, b.list.shutdowns, due * b.wheel.alive, overdue);
    }
  }

  lemma {:induction false} RunKeepsBehind(b: Both, events: seq<Event>, idle: nat)
    requires idle >= 1 && Agree(b, idle) && Behind(b.wheel.shutdowns, b.list.shutdowns)
    requires b.wheel.active != [] && L.Listed(b.list) && Runs(b, events, idle)
    ensures Behind(Run(b, events, idle).wheel.shutdowns, Run(b, events, idle).list.shutdowns)
    decreases |events|
  {
    hide Agree, Step, Enabled, L.Listed, Behind;
    if events != [] {
      StepKeepsAgree(b, events[0], idle);
      StepKeepsBehind(b, events[0], idle);
      AgreeBasics(Step(b, events[0], idle), idle);
      RunKeepsBehind(Step(b, events[0], idle), events[1..], idle);
    }
  }

  /** On every trace, whoever the list has shut down at a tick the wheel has shut down at an earlier tick. */
  lemma ListIsNeverFirst(events: seq<Event>, idle: nat)
    requires idle >= 1 && Runs(Start(), events, idle)
    ensures
      var b := Run(Start(), events, idle);
      && |b.list.shutdowns| == |b.wheel.shutdowns|
      && forall t, c :: 0 <= t < |b.list.shutdowns| && c in b.list.shutdowns[t] ==>
           exists u :: 0 <= u < t && c in b.wheel.shutdowns[u]
  {
    hide Run, Runs;
    InitiallyAgree(idle);
    RunKeepsBehind(Start(), events, idle);
    var b := Run(Start(), events, idle);
    forall t, c | 0 <= t < |b.list.shutdowns| && c in b.list.shutdowns[t]
      ensures exists u :: 0 <= u < t && c in b.wheel.shutdowns[u]
    {
      var u :| 0 <= u < t && c in b.wheel.shutdowns[..t][u];
      assert b.wheel.shutdowns[u] == b.wheel.shutdowns[..t][u];
    }
  }

  // ---------------------------------------------------------------------------------------------
  // One tick later
  // ---------------------------------------------------------------------------------------------

  /** No activity of `c`, no down callback for it, and no tick. */
  predicate Quiet(events: seq<Event>, c: Conn) {
    forall i :: 0 <= i < |events| ==>
      !events[i].Tick? && ((events[i].Message? || events[i].Down?) ==> events[i].conn != c)
  }

  /** `c` is up, connected and was last heard from at `last`. */
  predicate Waiting(b: Both, c: Conn, last: int) {
    c in b.list.up && c in b.list.connected && c in b.list.contexts && b.list.contexts[c].last == last
  }

  lemma {:induction false} QuietKeeps(b: Both, events: seq<Event>, idle: nat, c: Conn, last: int)
    requires idle >= 1 && Agree(b, idle) && Quiet(events, c)
    requires b.wheel.active != [] && L.Listed(b.list) && Runs(b, events, idle)
    ensures var n := Run(b, events, idle);
      && Agree(n, idle) && (Waiting(b, c, last) ==> Waiting(n, c, last)) && |n.wheel.active| == |b.wheel.active|
      && n.wheel.shutdowns == b.wheel.shutdowns && n.list.shutdowns == b.list.shutdowns
    decreases |events|
  {
    hide Agree, L.MoveToBack, L.Erase;
    if events != [] {
      StepKeepsAgree(b, events[0], idle);
      AgreeBasics(Step(b, events[0], idle), idle);
      QuietStep(b, events[0], idle, c, last);
      assert Quiet(events[1..], c);
      QuietKeeps(Step(b, events[0], idle), events[1..], idle, c, last);
    }
  }

  lemma QuietStep(b: Both, e: Event, idle: nat, c: Conn, last: int)
    requires Quiet([e], c)
    requires b.wheel.active != [] && L.Listed(b.list) && Enabled(b, e)
    ensures var n := Step(b, e, idle);
      && (Waiting(b, c, last) ==> Waiting(n, c, last)) && |n.wheel.active| == |b.wheel.active|
      && n.wheel.shutdowns == b.wheel.shutdowns && n.list.shutdowns == b.list.shutdowns
  {
    hide L.MoveToBack, L.Erase;
    assert [e][0] == e;
  }

  lemma RunTickFirst(b: Both, rest: seq<Event>, idle: nat)
    requires b.wheel.active != [] && L.Listed(b.list) && Runs(b, [Tick] + rest, idle)
    requires L.Listed(Step(b, Tick, idle).list)
    ensures Runs(Step(b, Tick, idle), rest, idle)
    ensures Run(b, [Tick] + rest, idle) == Run(Step(b, Tick, idle), rest, idle)
  {
    hide L.Listed, Step, Enabled;
    assert ([Tick] + rest)[1..] == rest;
  }

  lemma {:induction false} RunTickLast(b: Both, events: seq<Event>, idle: nat)
    requires idle >= 1 && Agree(b, idle)
    requires b.wheel.active != [] && L.Listed(b.list) && Runs(b, events + [Tick], idle)
    ensures Runs(b, events, idle) && Enabled(Run(b, events, idle), Tick)
    ensures Run(b, events + [Tick], idle) == Step(Run(b, events, idle), Tick, idle)
    decreases |events|
  {
    hide L.Listed, Step, Enabled, Agree;
    if events == [] {
      assert events + [Tick] == [Tick];
    } else {
      assert (events + [Tick])[1..] == events[1..] + [Tick];
      StepKeepsAgree(b, events[0], idle);
      AgreeBasics(Step(b, events[0], idle), idle);
      RunTickLast(Step(b, events[0], idle), events[1..], idle);
    }
  }

  /** What a tick records. */
  lemma TickRecords(b: Both, idle: nat)
    requires idle >= 1 && Agree(b, idle)
    requires Enabled(b, Tick) && b.wheel.active != [] && L.Listed(b.list)
    ensures var n := Step(b, Tick, idle);
      && n.wheel.shutdowns == b.wheel.shutdowns + [W.Due(b.wheel.last, |b.wheel.active|, idle) * b.wheel.alive]
      && n.list.shutdowns == b.list.shutdowns + [L.Overdue(b.list, NextTick(b), idle * 1_000_000)]
      && |n.wheel.active| == |b.wheel.active| + 1
  {
    hide L.Step, W.LastIsLast;
    ListTick(b, idle);
  }

  /** A connection due at the wheel's tick is not overdue for the list, and its time is now almost up. */
  lemma AtTheWheelsTick(b: Both, idle: nat, c: Conn)
    requires idle >= 1 && Agree(b, idle)
    requires c in W.Due(b.wheel.last, |b.wheel.active|, idle) && c in b.list.up
    ensures Enabled(b, Tick) && c in b.list.contexts && b.wheel.active != [] && L.Listed(b.list)
    ensures c !in L.Overdue(b.list, NextTick(b), idle * 1_000_000)
    ensures var last := b.list.contexts[c].last;
      Waiting(Step(b, Tick, idle), c, last) && last < (|b.wheel.active| - idle + 1) * 1_000_000
  {
    hide L.Step, W.LastIsLast;
    ListTick(b, idle);
  }

  lemma OneTickLater(n: Both, idle: nat, c: Conn, last: int)
    requires L.Listed(n.list) && Waiting(n, c, last) && last < (|n.wheel.active| - idle) * 1_000_000
    ensures c in L.Overdue(n.list, NextTick(n), idle * 1_000_000)
  {
  }

  /** From where both servers agree; `t` is the number of the first of the two ticks. */
  lemma FollowsFrom(b: Both, quiet: seq<Event>, idle: nat, c: Conn, t: nat)
    requires idle >= 1 && Agree(b, idle) && |b.wheel.shutdowns| == |b.list.shutdowns| == t
    requires b.wheel.active != [] && L.Listed(b.list) && Runs(b, [Tick] + (quiet + [Tick]), idle)
    requires c in b.list.up && Quiet(quiet, c)
    ensures var n := Run(b, [Tick] + (quiet + [Tick]), idle);
      && |n.wheel.shutdowns| == |n.list.shutdowns| == t + 2
      && (c in n.wheel.shutdowns[t] ==> c !in n.list.shutdowns[t] && c in n.list.shutdowns[t + 1])
  {
    hide Agree, Enabled, Step, Run, Runs, L.Listed, W.Due, L.Overdue, Waiting, Quiet;
    TickIsEnabled(b, idle);
    StepKeepsAgree(b, Tick, idle);
    var a := Step(b, Tick, idle);
    AgreeBasics(a, idle);
    RunTickFirst(b, quiet + [Tick], idle);
    RunTickLast(a, quiet, idle);
    var m, last := Run(a, quiet, idle), if c in b.list.contexts then b.list.contexts[c].last else 0;
    QuietKeeps(a, quiet, idle, c, last);
    TickRecords(b, idle);
    TickRecords(m, idle);
    if c in W.Due(b.wheel.last, |b.wheel.active|, idle) {
      AtTheWheelsTick(b, idle, c);
      OneTickLater(m, idle, c, last);
    }
  }

  lemma TickIsEnabled(b: Both, idle: nat)
    requires Agree(b, idle)
    ensures Enabled(b, Tick)
  {
    ListTick(b, idle);
  }

  /**
   On every trace: if the wheel shuts down an up connection at a tick, the list does not at that tick; and if
   the connection stays silent until the next tick, the list shuts it down there.
   */
  lemma ListFollowsOneTickLater(before: seq<Event>, quiet: seq<Event>, idle: nat, c: Conn)
    requires idle >= 1 && Runs(Start(), before, idle)
    requires var b := Run(Start(), before, idle);
      && Runs(b, [Tick] + (quiet + [Tick]), idle) && c in b.list.up && Quiet(quiet, c)
    ensures var b := Run(Start(), before, idle);
      var t, n := |b.wheel.shutdowns|, Run(b, [Tick] + (quiet + [Tick]), idle);
      && |b.list.shutdowns| == t && |n.wheel.shutdowns| == |n.list.shutdowns| == t + 2
      && (c in n.wheel.shutdowns[t] ==> c !in n.list.shutdowns[t] && c in n.list.shutdowns[t + 1])
  {
    hide Agree, Run, Runs, Quiet;
    InitiallyAgree(idle);
    RunKeepsAgree(Start(), before, idle);
    ListIsNeverFirst(before, idle);
    FollowsFrom(Run(Start(), before, idle), quiet, idle, c, |Run(Start(), before, idle).wheel.shutdowns|);
  }
}
