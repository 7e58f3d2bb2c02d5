/**
 The timing wheel: a ring of buckets of shared entries. An entry is dropped with its last bucket and then
 shuts its connection down. It is proved equal to one last-active counter per connection.
 */
module TimingWheel {
  type Conn = nat

  /** The callbacks, and the destruction of a connection object elsewhere. */
  datatype Event = Connect(conn: Conn) | Message(conn: Conn) | Down(conn: Conn) | Destroy(conn: Conn) | Tick

  // ---------------------------------------------------------------------------------------------
  // The wheel
  // ---------------------------------------------------------------------------------------------

  /**
   There is one entry per connection, named after it. `owners` holds the use counts of the entries that
   exist, `alive` the connections a weak pointer can still lock, `dropped` and `shutdowns` the entries
   destroyed and the connections shut down at each tick.
   */
  datatype Wheel = Wheel(
    buckets: seq<set<Conn>>, owners: map<Conn, nat>, alive: set<Conn>, known: set<Conn>,
    dropped: seq<set<Conn>>, shutdowns: seq<set<Conn>>)

  function Insert(w: Wheel, c: Conn, count: nat): Wheel
    requires w.buckets != []
  {
    var back := |w.buckets| - 1;
    w.(buckets := w.buckets[back := w.buckets[back] + {c}], owners := w.owners[c := count])
  }

  /** The use counts after one owner of every entry in `bucket` is gone; entries without owners are destroyed. */
  function Release(owners: map<Conn, nat>, bucket: set<Conn>): map<Conn, nat> {
    map c | c in owners && !(c in bucket && owners[c] <= 1) :: if c in bucket then owners[c] - 1 else owners[c]
  }

  function Dropped(owners: map<Conn, nat>, bucket: set<Conn>): set<Conn> {
    set c | c in owners && c in bucket && owners[c] <= 1
  }

  function WheelStep(w: Wheel, e: Event): Wheel
    requires w.buckets != []
  {
    match e
    case Connect(c) => Insert(w, c, 1).(alive := w.alive + {c}, known := w.known + {c})
    case Message(c) =>
      if c in w.owners && c !in w.buckets[|w.buckets| - 1] then Insert(w, c, w.owners[c] + 1) else w
    case Down(_) => w
    case Destroy(c) => w.(alive := w.alive - {c})
    case Tick =>
      var gone := Dropped(w.owners, w.buckets[0]);
      w.(buckets := w.buckets[1..] + [{}], owners := Release(w.owners, w.buckets[0]),
         dropped := w.dropped + [gone], shutdowns := w.shutdowns + [gone * w.alive])
  }

  /** Up once, and other callbacks only while the connection object exists. */
  predicate Enabled(alive: set<Conn>, known: set<Conn>, e: Event) {
    match e
    case Connect(c) => c !in known
    case Tick => true
    case _ => e.conn in alive
  }

  function CountIn(buckets: seq<set<Conn>>, c: Conn): nat {
    if buckets == [] then 0 else (if c in buckets[0] then 1 else 0) + CountIn(buckets[1..], c)
  }

  /** An entry's use count is the number of buckets that hold it, and entries exist while held. */
  ghost predicate Counted(w: Wheel) {
    && w.buckets != []
    && w.alive <= w.known
    && (forall c :: c in w.owners ==> w.owners[c] == CountIn(w.buckets, c) > 0 && c in w.known)
    && (forall i, c :: 0 <= i < |w.buckets| && c in w.buckets[i] ==> c in w.owners)
  }

  lemma {:induction false} CountAppend(a: seq<set<Conn>>, b: set<Conn>, c: Conn)
    ensures CountIn(a + [b], c) == CountIn(a, c) + if c in b then 1 else 0
  {
    if a == [] {
      assert a + [b] == [b];
    } else {
      assert (a + [b])[1..] == a[1..] + [b];
      CountAppend(a[1..], b, c);
    }
  }

  lemma {:induction false} CountPositive(a: seq<set<Conn>>, c: Conn)
    ensures CountIn(a, c) > 0 <==> exists i :: 0 <= i < |a| && c in a[i]
  {
    if a != [] {
      CountPositive(a[1..], c);
      if i :| 0 <= i < |a| && c in a[i] && i > 0 {
        assert c in a[1..][i - 1];
      }
      if i :| 0 <= i < |a| - 1 && c in a[1..][i] {
        assert c in a[i + 1];
      }
    }
  }

  lemma CountAfterInsert(a: seq<set<Conn>>, c: Conn, d: Conn)
    requires a != []
    ensures
      var back := |a| - 1;
      CountIn(a[back := a[back] + {c}], d) == CountIn(a, d) + if d == c && c !in a[back] then 1 else 0
  {
    var back := |a| - 1;
    assert a == a[..back] + [a[back]];
    assert a[back := a[back] + {c}] == a[..back] + [a[back] + {c}];
    CountAppend(a[..back], a[back], d);
    CountAppend(a[..back], a[back] + {c}, d);
  }

  lemma InsertKeepsCounted(w: Wheel, c: Conn, count: nat)
    requires Counted(w) && c in w.known
    requires c !in w.buckets[|w.buckets| - 1] && count == CountIn(w.buckets, c) + 1
    ensures Counted(Insert(w, c, count))
  {
    forall d | d in w.owners || d == c
      ensures Insert(w, c, count).owners[d] == CountIn(Insert(w, c, count).buckets, d) > 0
    {
      CountAfterInsert(w.buckets, c, d);
    }
  }

  lemma TickKeepsCounted(w: Wheel)
    requires Counted(w)
    ensures Counted(WheelStep(w, Tick))
  {
    var t := WheelStep(w, Tick);
    forall c | c in w.owners
      ensures CountIn(t.buckets, c) == w.owners[c] - if c in w.buckets[0] then 1 else 0
    {
      CountAppend(w.buckets[1..], {}, c);
    }
    forall i, c | 0 <= i < |t.buckets| && c in t.buckets[i]
      ensures c in t.owners
    {
      assert c in w.buckets[i + 1];
      CountPositive(t.buckets, c);
    }
  }

  lemma StepKeepsCounted(w: Wheel, e: Event)
    requires Counted(w) && Enabled(w.alive, w.known, e)
    ensures Counted(WheelStep(w, e))
  {
    hide CountIn;
    match e
    case Connect(c) =>
      CountPositive(w.buckets, c);
      InsertKeepsCounted(w.(alive := w.alive + {c}, known := w.known + {c}), c, 1);
    case Message(c) =>
      if c in w.owners && c !in w.buckets[|w.buckets| - 1] {
        InsertKeepsCounted(w, c, w.owners[c] + 1);
      }
    case Down(_) =>
    case Destroy(_) =>
    case Tick => TickKeepsCounted(w);
  }

  // ---------------------------------------------------------------------------------------------
  // The specification
  // ---------------------------------------------------------------------------------------------

  /**
   The interval (number of ticks so far) of each connection's last activity, until its time is up.
   `active[k]` are the connections connected or heard from in interval `k` while their time was not up.
   */
  datatype Counters = Counters(
    last: map<Conn, nat>, alive: set<Conn>, known: set<Conn>, active: seq<set<Conn>>,
    dropped: seq<set<Conn>>, shutdowns: seq<set<Conn>>)
  {
    /** The current interval. */
    function Now(): int {
      |active| - 1
    }
  }

  function Touch(s: Counters, c: Conn): Counters
    requires s.active != []
  {
    var now := |s.active| - 1;
    s.(last := s.last[c := now], active := s.active[now := s.active[now] + {c}])
  }

  /** Those whose last activity is `idle` ticks ago at the coming tick. */
  function Due(last: map<Conn, nat>, tick: nat, idle: nat): set<Conn> {
    set c | c in last && last[c] + idle == tick
  }

  function CountersStep(s: Counters, e: Event, idle: nat): Counters
    requires s.active != []
  {
    match e
    case Connect(c) => Touch(s, c).(alive := s.alive + {c}, known := s.known + {c})
    case Message(c) => if c in s.last then Touch(s, c) else s
    case Down(_) => s
    case Destroy(c) => s.(alive := s.alive - {c})
    case Tick =>
      var due := Due(s.last, |s.active|, idle);
      s.(last := s.last - due, active := s.active + [{}],
         dropped := s.dropped + [due], shutdowns := s.shutdowns + [due * s.alive])
  }

  // ---------------------------------------------------------------------------------------------
  // Refinement
  // ---------------------------------------------------------------------------------------------

  function ActiveIn(active: seq<set<Conn>>, k: int): set<Conn> {
    if 0 <= k < |active| then active[k] else {}
  }

  /** `k` is the last interval in which `c` was active. */
  ghost predicate LastActive(active: seq<set<Conn>>, c: Conn, k: int) {
    0 <= k < |active| && c in active[k] && forall j :: k < j < |active| ==> c !in active[j]
  }

  /** `last` is the last interval a connection was active in, and its time is not up. */
  ghost predicate LastIsLast(last: map<Conn, nat>, active: seq<set<Conn>>, idle: nat) {
    && active != []
    && forall c :: c in last ==> LastActive(active, c, last[c]) && |active| <= last[c] + idle
  }

  /** Bucket `i` holds the connections active `idle - 1 - i` ticks ago; entries exist while time is not up. */
  ghost predicate Refines(w: Wheel, s: Counters, idle: nat) {
    && Counted(w) && LastIsLast(s.last, s.active, idle)
    && |w.buckets| == idle
    && (forall i :: 0 <= i < idle ==> w.buckets[i] == ActiveIn(s.active, s.Now() - (idle - 1 - i)))
    && w.owners.Keys == s.last.Keys
    && w.alive == s.alive && w.known == s.known
    && w.dropped == s.dropped && w.shutdowns == s.shutdowns
  }

  lemma {:induction false} CountAtLeastTwo(a: seq<set<Conn>>, c: Conn, i: nat)
    requires 0 < i < |a| && c in a[0] && c in a[i]
    ensures CountIn(a, c) >= 2
  {
    assert c in a[1..][i - 1];
    CountPositive(a[1..], c);
  }

  lemma CountExactlyOne(a: seq<set<Conn>>, c: Conn)
    requires a != [] && c in a[0] && forall i :: 0 < i < |a| ==> c !in a[i]
    ensures CountIn(a, c) == 1
  {
    CountPositive(a[1..], c);
    assert forall i :: 0 <= i < |a| - 1 ==> a[1..][i] == a[i + 1];
  }

  /** An entry has one owner left, in the front bucket, exactly when its connection is due at the coming tick. */
  lemma DroppedIsDue(w: Wheel, s: Counters, idle: nat)
    requires idle >= 1 && Refines(w, s, idle)
    ensures Dropped(w.owners, w.buckets[0]) == Due(s.last, |s.active|, idle)
  {
    forall c | c in w.owners
      ensures c in w.buckets[0] && w.owners[c] <= 1 <==> s.last[c] + idle == |s.active|
    {
      var home := s.last[c] - s.Now() + idle - 1;
      assert 0 <= home < idle && c in w.buckets[home];
      if home > 0 {
        if c in w.buckets[0] {
          CountAtLeastTwo(w.buckets, c, home);
        }
      } else {
        assert forall i :: 0 < i < idle ==> c !in w.buckets[i];
        CountExactlyOne(w.buckets, c);
      }
    }
  }

  lemma TickRefines(w: Wheel, s: Counters, idle: nat)
    requires idle >= 1 && Refines(w, s, idle)
    ensures Refines(WheelStep(w, Tick), CountersStep(s, Tick, idle), idle)
  {
    hide CountIn;
    DroppedIsDue(w, s, idle);
    TickKeepsCounted(w);
    var w', s' := WheelStep(w, Tick), CountersStep(s, Tick, idle);
    forall i | 0 <= i < idle
      ensures w'.buckets[i] == ActiveIn(s'.active, s'.Now() - (idle - 1 - i))
    {
      if i < idle - 1 {
        assert w'.buckets[i] == w.buckets[i + 1];
      }
    }
  }

  lemma TouchRefines(w: Wheel, s: Counters, idle: nat, c: Conn, count: nat)
    requires idle >= 1 && Refines(w, s, idle)
    requires Counted(Insert(w, c, count))
    ensures Refines(Insert(w, c, count), Touch(s, c), idle)
  {
    hide CountIn, Counted;
  }

  /** A second activity in one interval changes nothing. */
  lemma TouchAgain(w: Wheel, s: Counters, idle: nat, c: Conn)
    requires idle >= 1 && Refines(w, s, idle) && c in s.last && c in w.buckets[idle - 1]
    ensures Touch(s, c) == s
  {
    hide CountIn, Counted;
    var now := s.Now();
    assert s.last[c] == now && c in s.active[now];
    assert s.active[now] + {c} == s.active[now];
    assert Touch(s, c).active == s.active;
    assert Touch(s, c).last == s.last;
  }

  lemma StepRefines(w: Wheel, s: Counters, e: Event, idle: nat)
    requires idle >= 1 && Refines(w, s, idle) && Enabled(w.alive, w.known, e)
    ensures Refines(WheelStep(w, e), CountersStep(s, e, idle), idle)
  {
    hide CountIn, LastIsLast, ActiveIn;
    RefinesBasics(w, s, idle);
    StepKeepsCounted(w, e);
    match e
    case Connect(c) =>
      var w1 := w.(alive := w.alive + {c}, known := w.known + {c});
      var s1 := s.(alive := s.alive + {c}, known := s.known + {c});
      assert WheelStep(w, e) == Insert(w1, c, 1);
      TouchRefines(w1, s1, idle, c, 1);
    case Message(c) =>
      if c in w.owners {
        if c in w.buckets[idle - 1] {
          TouchAgain(w, s, idle, c);
        } else {
          TouchRefines(w, s, idle, c, w.owners[c] + 1);
        }
      }
    case Down(_) =>
    case Destroy(_) =>
    case Tick => TickRefines(w, s, idle);
  }

  // ---------------------------------------------------------------------------------------------
  // Runs
  // ---------------------------------------------------------------------------------------------

  function InitialWheel(idle: nat): Wheel {
    Wheel(seq(idle, _ => {}), map[], {}, {}, [], [])
  }

  function InitialCounters(): Counters {
    Counters(map[], {}, {}, [{}], [], [])
  }

  /** The events of a run, each enabled when it happens. */
  predicate Runs(s: Counters, events: seq<Event>, idle: nat)
    requires s.active != []
    decreases |events|
  {
    events != [] ==>
      Enabled(s.alive, s.known, events[0]) && Runs(CountersStep(s, events[0], idle), events[1..], idle)
  }

  function RunCounters(s: Counters, events: seq<Event>, idle: nat): (r: Counters)
    requires s.active != []
    ensures r.active != []
    decreases |events|
  {
    if events == [] then s else RunCounters(CountersStep(s, events[0], idle), events[1..], idle)
  }

  function RunWheel(w: Wheel, events: seq<Event>): (r: Wheel)
    requires w.buckets != []
    ensures r.buckets != []
    decreases |events|
  {
    if events == [] then w else RunWheel(WheelStep(w, events[0]), events[1..])
  }

  lemma {:induction false} RunRefines(w: Wheel, s: Counters, events: seq<Event>, idle: nat)
    requires idle >= 1 && Refines(w, s, idle) && Runs(s, events, idle)
    ensures Refines(RunWheel(w, events), RunCounters(s, events, idle), idle)
    decreases |events|
  {
    hide Refines, WheelStep, CountersStep, Enabled;
    if events != [] {
      RefinesBasics(w, s, idle);
      StepRefines(w, s, events[0], idle);
      RunRefines(WheelStep(w, events[0]), CountersStep(s, events[0], idle), events[1..], idle);
    }
  }

  lemma RefinesBasics(w: Wheel, s: Counters, idle: nat)
    requires idle >= 1 && Refines(w, s, idle)
    ensures w.alive == s.alive && w.known == s.known && w.buckets != [] && s.active != []
  {
  }

  /** From an empty wheel, over every run: the buckets, the use counts and the shutdowns are the counters'. */
  lemma WheelIsCounters(events: seq<Event>, idle: nat)
    requires idle >= 1 && Runs(InitialCounters(), events, idle)
    ensures Refines(RunWheel(InitialWheel(idle), events), RunCounters(InitialCounters(), events, idle), idle)
  {
    RunRefines(InitialWheel(idle), InitialCounters(), events, idle);
  }

  // ---------------------------------------------------------------------------------------------
  // What the counters promise
  // ---------------------------------------------------------------------------------------------

  /**
   The history so far: the entries dropped at tick `t + 1` are those last active `idle` ticks before, the
   shutdowns are among them and include everyone still alive, and everyone whose time is not up still has
   its counter.
   */
  ghost predicate History(s: Counters, idle: nat) {
    && LastIsLast(s.last, s.active, idle)
    && |s.active| == |s.dropped| + 1 && |s.shutdowns| == |s.dropped|
    && s.alive <= s.known && s.last.Keys <= s.known
    && (forall k, c :: 0 <= k < |s.active| && c in s.active[k] ==> c in s.known)
    && (forall t, c :: 0 <= t < |s.dropped| ==> (c in s.dropped[t] <==> LastActive(s.active, c, t + 1 - idle)))
    && (forall t :: 0 <= t < |s.dropped| ==> s.dropped[t] * s.alive <= s.shutdowns[t] <= s.dropped[t])
    && (forall t, c :: 0 <= t < |s.dropped| && c in s.dropped[t] ==> c !in s.last)
    && (forall c, k :: LastActive(s.active, c, k) && c !in s.last ==> k + idle <= s.Now())
  }

  lemma LastActiveAfterTouch(s: Counters, c: Conn, d: Conn, k: int)
    requires s.active != [] && d != c
    ensures LastActive(Touch(s, c).active, d, k) <==> LastActive(s.active, d, k)
  {
    var r := Touch(s, c);
    assert forall j :: 0 <= j < |s.active| ==> (d in r.active[j] <==> d in s.active[j]);
  }

  lemma LastActiveAfterTick(active: seq<set<Conn>>, c: Conn, k: int)
    ensures LastActive(active + [{}], c, k) <==> LastActive(active, c, k)
  {
    var longer := active + [{}];
    assert forall j :: 0 <= j < |active| ==> longer[j] == active[j];
    assert longer[|active|] == {};
  }

  lemma TouchKeepsHistory(s: Counters, c: Conn, idle: nat)
    requires idle >= 1 && History(s, idle) && c in s.known
    requires forall t :: 0 <= t < |s.dropped| ==> c !in s.dropped[t]
    ensures History(Touch(s, c), idle)
  {
    var r := Touch(s, c);
    forall t, d | 0 <= t < |s.dropped|
      ensures d in r.dropped[t] <==> LastActive(r.active, d, t + 1 - idle)
    {
      if d != c {
        LastActiveAfterTouch(s, c, d, t + 1 - idle);
      } else {
        assert c in r.active[r.Now()];
      }
    }
    forall d, k | LastActive(r.active, d, k) && d !in r.last
      ensures k + idle <= r.Now()
    {
      LastActiveAfterTouch(s, c, d, k);
    }
  }

  lemma TickKeepsHistory(s: Counters, idle: nat)
    requires idle >= 1 && History(s, idle)
    ensures History(CountersStep(s, Tick, idle), idle)
  {
    var r, tick := CountersStep(s, Tick, idle), |s.active|;
    forall t, c | 0 <= t < |r.dropped|
      ensures c in r.dropped[t] <==> LastActive(r.active, c, t + 1 - idle)
    {
      LastActiveAfterTick(s.active, c, t + 1 - idle);
    }
    forall c, k | LastActive(r.active, c, k) && c !in r.last
      ensures k + idle <= r.Now()
    {
      LastActiveAfterTick(s.active, c, k);
    }
  }

  lemma StepKeepsHistory(s: Counters, e: Event, idle: nat)
    requires idle >= 1 && History(s, idle) && Enabled(s.alive, s.known, e)
    ensures History(CountersStep(s, e, idle), idle)
  {
    hide LastActive, LastIsLast;
    match e
    case Connect(c) =>
      var s1 := s.(alive := s.alive + {c}, known := s.known + {c});
      NewIsUntouched(s, c, idle);
      assert History(s1, idle);
      TouchKeepsHistory(s1, c, idle);
      assert CountersStep(s, e, idle) == Touch(s1, c);
    case Message(c) =>
      if c in s.last {
        TouchKeepsHistory(s, c, idle);
      }
    case Down(_) =>
    case Destroy(_) =>
    case Tick => TickKeepsHistory(s, idle);
  }

  lemma NewIsUntouched(s: Counters, c: Conn, idle: nat)
    requires History(s, idle) && c !in s.known
    ensures forall t :: 0 <= t < |s.dropped| ==> c !in s.dropped[t]
  {
  }

  lemma {:induction false} RunKeepsHistory(s: Counters, events: seq<Event>, idle: nat)
    requires idle >= 1 && History(s, idle) && Runs(s, events, idle)
    ensures History(RunCounters(s, events, idle), idle)
    decreases |events|
  {
    hide History, CountersStep, Enabled;
    if events != [] {
      HistoryHasNow(s, idle);
      StepKeepsHistory(s, events[0], idle);
      HistoryHasNow(CountersStep(s, events[0], idle), idle);
      RunKeepsHistory(CountersStep(s, events[0], idle), events[1..], idle);
    }
  }

  lemma HistoryHasNow(s: Counters, idle: nat)
    requires History(s, idle)
    ensures s.active != []
  {
  }

  /** The connections that exist at each tick of a trace. */
  function AliveAtTicks(alive: set<Conn>, events: seq<Event>): seq<set<Conn>>
    decreases |events|
  {
    if events == [] then []
    else
      (if events[0].Tick? then [alive] else []) + AliveAtTicks(AliveAfter(alive, events[0]), events[1..])
  }

  function AliveAfter(alive: set<Conn>, e: Event): set<Conn> {
    match e
    case Connect(c) => alive + {c}
    case Destroy(c) => alive - {c}
    case _ => alive
  }

  /** Those shut down at a tick are those dropped who existed then. */
  ghost predicate ShutAlive(s: Counters, existing: seq<set<Conn>>) {
    && |s.shutdowns| == |s.dropped| == |existing|
    && forall t :: 0 <= t < |existing| ==> s.shutdowns[t] == s.dropped[t] * existing[t]
  }

  lemma {:induction false} RunShutsAlive(s: Counters, events: seq<Event>, idle: nat, existing: seq<set<Conn>>)
    requires s.active != [] && ShutAlive(s, existing)
    ensures ShutAlive(RunCounters(s, events, idle), existing + AliveAtTicks(s.alive, events))
    decreases |events|
  {
    if events == [] {
      assert existing + [] == existing;
    } else {
      var n, e := CountersStep(s, events[0], idle), events[0];
      var more := if e.Tick? then [s.alive] else [];
      var rest := AliveAtTicks(n.alive, events[1..]);
      assert existing + (more + rest) == existing + more + rest;
      assert e.Tick? ==> n.alive == s.alive;
      RunShutsAlive(n, events[1..], idle, existing + more);
    }
  }

  /**
   The wheel's promise, on every run: an entry is dropped at exactly the `idle`-th tick after the last
   interval its connection was active in; those of the dropped that exist at that tick are shut down then,
   and nobody else; and none is shut down twice.
   */
  lemma ShutdownsAreTimely(events: seq<Event>, idle: nat)
    requires idle >= 1 && Runs(InitialCounters(), events, idle)
    ensures
      var w, s := RunWheel(InitialWheel(idle), events), RunCounters(InitialCounters(), events, idle);
      var existing := AliveAtTicks({}, events);
      && |w.dropped| == |w.shutdowns| == |existing| == s.Now()
      && (forall t, c :: 0 <= t < |w.dropped| ==> (c in w.dropped[t] <==> LastActive(s.active, c, t + 1 - idle)))
      && (forall t :: 0 <= t < |w.dropped| ==> w.shutdowns[t] == w.dropped[t] * existing[t])
      && (forall t :: 0 <= t < |w.dropped| ==> w.dropped[t] * w.alive <= w.shutdowns[t])
      && (forall t, u, c :: 0 <= t < u < |w.dropped| && c in w.shutdowns[t] ==> c !in w.shutdowns[u])
  {
    hide RunWheel, RunCounters, CountersStep, WheelStep, CountIn, Runs, AliveAtTicks;
    WheelIsCounters(events, idle);
    RunKeepsHistory(InitialCounters(), events, idle);
    RunShutsAlive(InitialCounters(), events, idle, []);
    assert [] + AliveAtTicks({}, events) == AliveAtTicks({}, events);
    var w, s := RunWheel(InitialWheel(idle), events), RunCounters(InitialCounters(), events, idle);
    forall t, u, c | 0 <= t < u < |w.dropped| && c in w.shutdowns[t]
      ensures c !in w.shutdowns[u]
    {
      assert LastActive(s.active, c, t + 1 - idle);
      assert c in w.shutdowns[u] ==> LastActive(s.active, c, u + 1 - idle);
    }
  }

  // ---------------------------------------------------------------------------------------------
  // The same from the trace alone
  // ---------------------------------------------------------------------------------------------

  /** Who connected or sent something in each interval between ticks, dropped already or not. */
  function Hear(heard: seq<set<Conn>>, e: Event): (r: seq<set<Conn>>)
    requires heard != []
    ensures r != []
  {
    var now := |heard| - 1;
    match e
    case Connect(c) => heard[now := heard[now] + {c}]
    case Message(c) => heard[now := heard[now] + {c}]
    case Tick => heard + [{}]
    case _ => heard
  }

  function RunHeard(heard: seq<set<Conn>>, events: seq<Event>): seq<set<Conn>>
    requires heard != []
    decreases |events|
  {
    if events == [] then heard else RunHeard(Hear(heard, events[0]), events[1..])
  }

  /** Heard from `idle` intervals before tick `t`, not since, and not dropped before. */
  ghost predicate DueByTrace(heard: seq<set<Conn>>, dropped: seq<set<Conn>>, c: Conn, t: int, idle: nat) {
    && 0 <= t + 1 - idle <= t < |heard| && t <= |dropped|
    && c in heard[t + 1 - idle]
    && (forall j :: t + 1 - idle < j <= t ==> c !in heard[j])
    && (forall u :: 0 <= u < t ==> c !in dropped[u])
  }

  ghost predicate DroppedBefore(dropped: seq<set<Conn>>, c: Conn, t: int) {
    exists u :: 0 <= u < t && u < |dropped| && c in dropped[u]
  }

  /** Activity is what is heard from those not dropped yet, and the dropped are those due by the trace. */
  ghost predicate ByTrace(s: Counters, heard: seq<set<Conn>>, idle: nat) {
    && |heard| == |s.active| == |s.dropped| + 1
    && (forall k, c :: 0 <= k < |heard| ==>
          (c in s.active[k] <==> c in heard[k] && !DroppedBefore(s.dropped, c, k)))
    && (forall c :: c in s.known && c !in s.last ==> DroppedBefore(s.dropped, c, |s.dropped|))
    && (forall k, c :: 0 <= k < |heard| && c in heard[k] ==> c in s.known)
    && (forall t, c :: 0 <= t < |s.dropped| ==> (c in s.dropped[t] <==> DueByTrace(heard, s.dropped, c, t, idle)))
  }

  lemma NotDropped(s: Counters, c: Conn, idle: nat)
    requires History(s, idle) && c in s.last
    ensures !DroppedBefore(s.dropped, c, |s.dropped|)
  {
  }

  lemma DroppedBeforeKept(dropped: seq<set<Conn>>, more: set<Conn>, c: Conn, t: int)
    requires t <= |dropped|
    ensures DroppedBefore(dropped + [more], c, t) <==> DroppedBefore(dropped, c, t)
  {
    forall u | 0 <= u < t ensures (dropped + [more])[u] == dropped[u] {
    }
  }

  /** What happens in the current interval does not change what was due before. */
  lemma DueKept(heard: seq<set<Conn>>, heard': seq<set<Conn>>, dropped: seq<set<Conn>>, dropped': seq<set<Conn>>,
                c: Conn, t: nat, idle: nat)
    requires t < |heard| && t < |heard'| && t <= |dropped| && t <= |dropped'|
    requires forall j :: 0 <= j <= t ==> heard'[j] == heard[j]
    requires forall u :: 0 <= u < t ==> dropped'[u] == dropped[u]
    ensures DueByTrace(heard', dropped', c, t, idle) <==> DueByTrace(heard, dropped, c, t, idle)
  {
  }

  lemma HearKeepsByTrace(s: Counters, n: Counters, heard: seq<set<Conn>>, c: Conn, idle: nat)
    requires idle >= 1 && ByTrace(s, heard, idle) && c in n.known && n.dropped == s.dropped
    requires n.known == s.known + {c} && forall d :: d in n.known && d !in n.last ==> d in s.known && d !in s.last
    requires
      var now := |heard| - 1;
      if DroppedBefore(s.dropped, c, |s.dropped|) then n.active == s.active
      else n.active == s.active[now := s.active[now] + {c}]
    ensures ByTrace(n, heard[|heard| - 1 := heard[|heard| - 1] + {c}], idle)
  {
    hide DroppedBefore, DueByTrace;
    var now := |heard| - 1;
    var heard' := heard[now := heard[now] + {c}];
    forall t, d | 0 <= t < |s.dropped|
      ensures d in s.dropped[t] <==> DueByTrace(heard', s.dropped, d, t, idle)
    {
      DueKept(heard, heard', s.dropped, s.dropped, d, t, idle);
    }
  }

  lemma DueIsDueByTrace(s: Counters, heard: seq<set<Conn>>, c: Conn, idle: nat)
    requires idle >= 1 && History(s, idle) && ByTrace(s, heard, idle)
    ensures c in Due(s.last, |s.active|, idle) <==> DueByTrace(heard, s.dropped, c, |s.dropped|, idle)
  {
    hide DueByTrace;
    if c in s.last {
      NotDropped(s, c, idle);
      LastIsLastHeard(s, heard, c, idle);
      DueByLastHeard(s, heard, c, idle, s.last[c]);
    } else {
      NotLastIsNotDue(s, heard, c, idle);
    }
  }

  /** For a counted connection, the last interval of activity is the last it was heard in. */
  lemma LastIsLastHeard(s: Counters, heard: seq<set<Conn>>, c: Conn, idle: nat)
    requires History(s, idle) && ByTrace(s, heard, idle) && c in s.last
    ensures LastActive(heard, c, s.last[c])
  {
    hide DueByTrace;
    forall k | 0 <= k < |heard| ensures c in s.active[k] <==> c in heard[k] {
      assert !DroppedBefore(s.dropped, c, k);
    }
  }

  lemma DueByLastHeard(s: Counters, heard: seq<set<Conn>>, c: Conn, idle: nat, last: nat)
    requires idle >= 1 && LastActive(heard, c, last) && |heard| == |s.dropped| + 1
    requires !DroppedBefore(s.dropped, c, |s.dropped|)
    ensures last + idle == |heard| <==> DueByTrace(heard, s.dropped, c, |s.dropped|, idle)
  {
  }

  lemma NotLastIsNotDue(s: Counters, heard: seq<set<Conn>>, c: Conn, idle: nat)
    requires ByTrace(s, heard, idle) && c !in s.last
    ensures !DueByTrace(heard, s.dropped, c, |s.dropped|, idle)
  {
    if c in s.known {
      assert DroppedBefore(s.dropped, c, |s.dropped|);
    }
  }

  lemma TickKeepsByTrace(s: Counters, heard: seq<set<Conn>>, idle: nat)
    requires idle >= 1 && History(s, idle) && ByTrace(s, heard, idle)
    ensures ByTrace(CountersStep(s, Tick, idle), heard + [{}], idle)
  {
    hide DueByTrace, History;
    var n, heard' := CountersStep(s, Tick, idle), heard + [{}];
    var due := Due(s.last, |s.active|, idle);
    forall k, c | 0 <= k < |heard'|
      ensures c in n.active[k] <==> c in heard'[k] && !DroppedBefore(n.dropped, c, k)
    {
      if k < |heard| {
        DroppedBeforeKept(s.dropped, due, c, k);
      }
    }
    forall c | c in n.known && c !in n.last
      ensures DroppedBefore(n.dropped, c, |n.dropped|)
    {
      if c in s.last {
        assert c in n.dropped[|s.dropped|];
      } else {
        var u :| 0 <= u < |s.dropped| && c in s.dropped[u];
        assert c in n.dropped[u];
      }
    }
    forall t, c | 0 <= t < |n.dropped|
      ensures c in n.dropped[t] <==> DueByTrace(heard', n.dropped, c, t, idle)
    {
      DueKept(heard, heard', s.dropped, n.dropped, c, t, idle);
      if t == |s.dropped| {
        DueIsDueByTrace(s, heard, c, idle);
      }
    }
  }

  lemma StepKeepsByTrace(s: Counters, e: Event, heard: seq<set<Conn>>, idle: nat)
    requires idle >= 1 && History(s, idle) && ByTrace(s, heard, idle) && Enabled(s.alive, s.known, e)
    ensures heard != [] && ByTrace(CountersStep(s, e, idle), Hear(heard, e), idle)
  {
    hide DueByTrace, LastActive, LastIsLast;
    match e
    case Connect(c) =>
      NewIsUntouched(s, c, idle);
      assert !DroppedBefore(s.dropped, c, |s.dropped|);
      HearKeepsByTrace(s, CountersStep(s, e, idle), heard, c, idle);
    case Message(c) =>
      if c in s.last {
        NotDropped(s, c, idle);
      }
      assert s.known + {c} == s.known;
      HearKeepsByTrace(s, CountersStep(s, e, idle), heard, c, idle);
    case Down(_) =>
    case Destroy(_) =>
    case Tick => TickKeepsByTrace(s, heard, idle);
  }

  lemma {:induction false} RunKeepsByTrace(s: Counters, events: seq<Event>, heard: seq<set<Conn>>, idle: nat)
    requires idle >= 1 && History(s, idle) && heard != [] && ByTrace(s, heard, idle) && s.active != []
    requires Runs(s, events, idle)
    ensures ByTrace(RunCounters(s, events, idle), RunHeard(heard, events), idle)
    decreases |events|
  {
    hide History, ByTrace, CountersStep, Enabled, Hear;
    if events != [] {
      StepKeepsHistory(s, events[0], idle);
      HistoryHasNow(CountersStep(s, events[0], idle), idle);
      StepKeepsByTrace(s, events[0], heard, idle);
      RunKeepsByTrace(CountersStep(s, events[0], idle), events[1..], Hear(heard, events[0]), idle);
    }
  }

  /**
   On every run the wheel drops at tick `t` exactly the entries whose connection was heard from `idle` intervals
   before, not since, and had not been dropped already. Nothing but the events and the earlier drops decides it.
   */
  lemma DropsAreByTrace(events: seq<Event>, idle: nat)
    requires idle >= 1 && Runs(InitialCounters(), events, idle)
    ensures
      var w, heard := RunWheel(InitialWheel(idle), events), RunHeard([{}], events);
      && |heard| == |w.dropped| + 1
      && forall t, c :: 0 <= t < |w.dropped| ==> (c in w.dropped[t] <==> DueByTrace(heard, w.dropped, c, t, idle))
  {
    hide RunWheel, RunCounters, CountersStep, WheelStep, CountIn, Runs, RunHeard, DueByTrace;
    WheelIsCounters(events, idle);
    InitiallyByTrace(idle);
    RunKeepsByTrace(InitialCounters(), events, [{}], idle);
  }

  lemma InitiallyByTrace(idle: nat)
    requires idle >= 1
    ensures ByTrace(InitialCounters(), [{}], idle) && History(InitialCounters(), idle)
  {
  }

  // ---------------------------------------------------------------------------------------------
  // The server
  // ---------------------------------------------------------------------------------------------

  class EchoServer {
    var buckets: seq<set<Conn>>
    var owners: map<Conn, nat>
    var alive: set<Conn>
    var known: set<Conn>
    var dropped: seq<set<Conn>>
    var shutdowns: seq<set<Conn>>

    ghost function State(): Wheel
      reads this
    {
      Wheel(buckets, owners, alive, known, dropped, shutdowns)
    }

    ghost predicate Valid()
      reads this
    {
      Counted(State())
    }

    constructor (idleSeconds: nat)
      requires idleSeconds >= 1
      ensures Valid() && State() == InitialWheel(idleSeconds)
    {
      buckets := seq(idleSeconds, _ => {});
      owners := map[];
      alive, known := {}, {};
      dropped, shutdowns := [], [];
    }

    /** `connectionBuckets_.back().insert(ep)`: one more owner unless the set holds the entry already. */
    method InsertAtBack(c: Conn)
      requires buckets != [] && c in owners
      modifies this`buckets, this`owners
      ensures var back := old(|buckets|) - 1;
        && buckets == old(buckets)[back := old(buckets[back]) + {c}]
        && owners == old(owners)[c := old(owners[c]) + if c in old(buckets[back]) then 0 else 1]
    {
      var back := |buckets| - 1;
      if c !in buckets[back] {
        owners := owners[c := owners[c] + 1];
      }
      buckets := buckets[back := buckets[back] + {c}];
    }

    method OnConnection(c: Conn, connected: bool)
      requires Valid() && Enabled(alive, known, if connected then Connect(c) else Down(c))
      modifies this
      ensures Valid() && State() == WheelStep(old(State()), if connected then Connect(c) else Down(c))
    {
      ghost var w := State();
      if connected {
        NewIsInNoBucket(w, c);
        alive, known := alive + {c}, known + {c};
        owners := owners[c := 1];              // the local pointer to the new entry
        InsertAtBack(c);
        owners := owners[c := owners[c] - 1];  // it goes out of scope
        assert owners == w.owners[c := 1];
      }
      hide Counted;
      assert State() == WheelStep(w, if connected then Connect(c) else Down(c));
      StepKeepsCounted(w, if connected then Connect(c) else Down(c));
    }

    method OnMessage(c: Conn)
      requires Valid() && Enabled(alive, known, Message(c))
      modifies this
      ensures Valid() && State() == WheelStep(old(State()), Message(c))
    {
      ghost var w := State();
      if c in owners {
        owners := owners[c := owners[c] + 1];  // `lock()` succeeds
        InsertAtBack(c);
        owners := owners[c := owners[c] - 1];
        var back := |w.buckets| - 1;
        if c in w.buckets[back] {
          assert w.buckets[back] + {c} == w.buckets[back];
          assert buckets == w.buckets;
        }
        assert owners == w.owners[c := w.owners[c] + if c in w.buckets[back] then 0 else 1];
      }
      StepKeepsCounted(w, Message(c));
    }

    method ConnectionDestroyed(c: Conn)
      requires Valid() && Enabled(alive, known, Destroy(c))
      modifies this
      ensures Valid() && State() == WheelStep(old(State()), Destroy(c))
    {
      ghost var w := State();
      alive := alive - {c};
      StepKeepsCounted(w, Destroy(c));
    }

    /** One pointer to the entry goes away; tells whether it was the last. */
    method LetGo(c: Conn) returns (last: bool)
      requires c in owners && owners[c] >= 1
      modifies this`owners
      ensures last == (old(owners[c]) == 1) && owners == OneLess(old(owners), c)
    {
      last := owners[c] == 1;
      if last {
        owners := owners - {c};
      } else {
        owners := owners[c := owners[c] - 1];
      }
    }

    /** The overwritten bucket lets go of its entries one by one; an entry without owners is destroyed. */
    method ReleaseBucket(front: set<Conn>) returns (destroyed: set<Conn>, shutdown: set<Conn>)
      requires forall c :: c in front ==> c in owners && owners[c] >= 1
      modifies this`owners
      ensures owners == Release(old(owners), front)
      ensures destroyed == Dropped(old(owners), front) && shutdown == destroyed * alive
    {
      hide Release, Dropped, OneLess;
      var todo := front;
      destroyed, shutdown := {}, {};
      ghost var before, done := owners, {};
      ReleaseNone(before, done);
      while todo != {}
        invariant done !! todo && done + todo == front
        invariant owners == Release(before, done)
        invariant destroyed == Dropped(before, done) && shutdown == destroyed * alive
        decreases |todo|
      {
        var c :| c in todo;
        ReleaseOne(before, done, c);
        MeetOneMore(destroyed, c, alive);
        MoveOver(todo, done, c);
        todo := todo - {c};
        var last := LetGo(c);
        assert owners == Release(before, done + {c});
        done := done + {c};
        if last {
          destroyed := destroyed + {c};        // ~Entry
          if c in alive {
            shutdown := shutdown + {c};
          }
        }
      }
    }

    /** Pushing an empty bucket onto the full ring overwrites the front one. */
    method OnTimer()
      requires Valid()
      modifies this
      ensures Valid() && State() == WheelStep(old(State()), Tick)
    {
      ghost var w := State();
      var front := buckets[0];
      buckets := buckets[1..] + [{}];
      var destroyed, shutdown := ReleaseBucket(front);
      dropped := dropped + [destroyed];
      shutdowns := shutdowns + [shutdown];
      StepKeepsCounted(w, Tick);
    }
  }

  lemma NewIsInNoBucket(w: Wheel, c: Conn)
    requires Counted(w) && c !in w.known
    ensures forall i :: 0 <= i < |w.buckets| ==> c !in w.buckets[i]
  {
    hide CountIn;
  }

  /** The use counts after one owner of `c` is gone. */
  function OneLess(owners: map<Conn, nat>, c: Conn): map<Conn, nat>
    requires c in owners && owners[c] >= 1
  {
    if owners[c] == 1 then owners - {c} else owners[c := owners[c] - 1]
  }

  lemma ReleaseNone(owners: map<Conn, nat>, done: set<Conn>)
    requires done == {}
    ensures Release(owners, done) == owners && Dropped(owners, done) == {}
  {
  }

  lemma MoveOver(todo: set<Conn>, done: set<Conn>, c: Conn)
    requires c in todo && done !! todo
    ensures done + {c} !! todo - {c} && (done + {c}) + (todo - {c}) == done + todo
  {
  }

  lemma MeetOneMore(s: set<Conn>, c: Conn, alive: set<Conn>)
    ensures (s + {c}) * alive == s * alive + if c in alive then {c} else {}
    ensures s * alive + {} == s * alive && s + {} == s
  {
  }

  lemma ReleaseOne(owners: map<Conn, nat>, done: set<Conn>, c: Conn)
    requires c in owners && c !in done && owners[c] >= 1
    ensures var r, r' := Release(owners, done), Release(owners, done + {c});
      && c in r && r[c] == owners[c]
      && r' == OneLess(r, c)
    ensures Dropped(owners, done + {c}) == Dropped(owners, done) + if owners[c] == 1 then {c} else {}
  {
  }
}
