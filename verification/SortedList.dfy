/**
 The idle list: connections in the order of their last activity, each knowing its place, and a periodic
 scan that stops at the first one that is not idle. Times are integers in one unit.
 */
module SortedList {
  import opened Wrappers

  type Conn = nat

  datatype Event = Up(conn: Conn, time: int) | Message(conn: Conn, time: int) | Down(conn: Conn)
                 | Destroy(conn: Conn) | Tick(time: int)

  /** A node of the list; its `id` stands for its address, which an iterator holds. */
  datatype Cell = Cell(id: nat, conn: Conn)

  /** What a connection carries: the time of its last activity and the iterator to its cell. */
  datatype Context = Context(last: int, position: nat)

  /**
   `up` are the connections between their up and down callbacks, `connected` those whose `connected()` is
   true, `alive` those a weak pointer can lock, `shutdowns` those shut down at each tick.
   */
  datatype State = State(
    list: seq<Cell>, contexts: map<Conn, Context>, up: set<Conn>, connected: set<Conn>, alive: set<Conn>,
    known: set<Conn>, nextId: nat, shutdowns: seq<set<Conn>>)

  // ---------------------------------------------------------------------------------------------
  // List operations by position
  // ---------------------------------------------------------------------------------------------

  /** The index of the cell an iterator points at, or the length for a stale iterator. */
  function IndexOf(list: seq<Cell>, id: nat): (i: nat)
    ensures i <= |list|
    ensures i < |list| ==> list[i].id == id
    ensures forall j :: 0 <= j < i ==> list[j].id != id
  {
    if list == [] || list[0].id == id then 0 else 1 + IndexOf(list[1..], id)
  }

  function Erase(list: seq<Cell>, id: nat): seq<Cell> {
    var i := IndexOf(list, id);
    if i < |list| then list[..i] + list[i + 1..] else list
  }

  /** `splice(end(), list, position)`. */
  function MoveToBack(list: seq<Cell>, id: nat): seq<Cell> {
    var i := IndexOf(list, id);
    if i < |list| then list[..i] + list[i + 1..] + [list[i]] else list
  }

  // ---------------------------------------------------------------------------------------------
  // The scan
  // ---------------------------------------------------------------------------------------------

  datatype Scanned = Scanned(list: seq<Cell>, contexts: map<Conn, Context>, connected: set<Conn>, shut: set<Conn>)

  /** From the front: shut down the overdue, reset those from the future, stop at the first fresh one. */
  function Scan(list: seq<Cell>, contexts: map<Conn, Context>, connected: set<Conn>, alive: set<Conn>,
                now: int, idle: int): Scanned
    requires forall cell :: cell in list ==> cell.conn in contexts
  {
    if list == [] then Scanned([], contexts, connected, {})
    else
      var c := list[0].conn;
      var age := now - contexts[c].last;
      if c !in alive then Scan(list[1..], contexts, connected, alive, now, idle)
      else if age > idle then
        var r := Scan(list[1..], contexts, connected - {c}, alive, now, idle);
        r.(list := [list[0]] + r.list, shut := r.shut + if c in connected then {c} else {})
      else if age < 0 then
        var r := Scan(list[1..], contexts[c := contexts[c].(last := now)], connected, alive, now, idle);
        r.(list := [list[0]] + r.list)
      else Scanned(list, contexts, connected, {})
  }

  lemma ScanStops(list: seq<Cell>, contexts: map<Conn, Context>, connected: set<Conn>, alive: set<Conn>,
                  now: int, idle: int)
    requires forall cell :: cell in list ==> cell.conn in contexts
    requires list != [] ==> list[0].conn in alive && 0 <= now - contexts[list[0].conn].last <= idle
    ensures Scan(list, contexts, connected, alive, now, idle) == Scanned(list, contexts, connected, {})
  {
  }

  /** The scan past its first cell, when it does not stop there. */
  lemma ScanGoesOn(list: seq<Cell>, contexts: map<Conn, Context>, connected: set<Conn>, alive: set<Conn>,
                   now: int, idle: int)
    requires list != [] && forall cell :: cell in list ==> cell.conn in contexts
    ensures var c, tail, r := list[0].conn, list[1..], Scan(list, contexts, connected, alive, now, idle);
      var age := now - contexts[c].last;
      if c !in alive then r == Scan(tail, contexts, connected, alive, now, idle)
      else if age > idle then
        var q := Scan(tail, contexts, connected - {c}, alive, now, idle);
        r == q.(list := [list[0]] + q.list, shut := q.shut + if c in connected then {c} else {})
      else if age < 0 then
        var q := Scan(tail, contexts[c := contexts[c].(last := now)], connected, alive, now, idle);
        r == q.(list := [list[0]] + q.list)
      else true
  {
  }

  /** A scan's result with cells passed and connections shut down before it. */
  function After(done: seq<Cell>, shut: set<Conn>, r: Scanned): Scanned {
    r.(list := done + r.list, shut := shut + r.shut)
  }

  lemma AfterNothing(r: Scanned)
    ensures After([], {}, r) == r
  {
  }

  lemma AfterOneMore(done: seq<Cell>, shut: set<Conn>, cell: Cell, more: set<Conn>, q: Scanned)
    ensures
      var r := q.(list := [cell] + q.list, shut := q.shut + more);
      After(done, shut, r) == After(done + [cell], shut + more, q)
    ensures q.shut + {} == q.shut
  {
    assert done + ([cell] + q.list) == done + [cell] + q.list;
    assert shut + (q.shut + more) == shut + more + q.shut;
  }

  lemma AfterTheLast(list: seq<Cell>, it: nat, shut: set<Conn>, contexts: map<Conn, Context>, connected: set<Conn>)
    requires it <= |list|
    ensures
      var r := Scanned(list[it..], contexts, connected, {});
      After(list[..it], shut, r) == Scanned(list, contexts, connected, shut)
  {
    assert list[..it] + list[it..] == list;
  }

  // ---------------------------------------------------------------------------------------------
  // Steps
  // ---------------------------------------------------------------------------------------------

  /** Message and down callbacks come between the up callback and destruction, which follows the down callback. */
  predicate Enabled(s: State, e: Event) {
    match e
    case Up(c, _) => c !in s.known
    case Message(c, _) => c in s.up
    case Down(c) => c in s.up
    case Destroy(c) => c in s.alive && c !in s.up
    case Tick(_) => true
  }

  predicate Distinct(list: seq<Cell>) {
    forall i, j :: 0 <= i < j < |list| ==> list[i].id != list[j].id && list[i].conn != list[j].conn
  }

  /** Each up connection is listed exactly once and its stored position designates its own cell. */
  ghost predicate Listed(s: State) {
    && Distinct(s.list)
    && (forall cell :: cell in s.list ==> cell.id < s.nextId && cell.conn in s.up)
    && (forall c :: c in s.up ==> c in s.contexts && Cell(s.contexts[c].position, c) in s.list)
    && s.connected <= s.up <= s.alive <= s.known
  }

  function Step(s: State, e: Event, idle: int): State
    requires Listed(s) && Enabled(s, e)
  {
    match e
    case Up(c, now) =>
      State(s.list + [Cell(s.nextId, c)], s.contexts[c := Context(now, s.nextId)], s.up + {c}, s.connected + {c},
            s.alive + {c}, s.known + {c}, s.nextId + 1, s.shutdowns)
    case Message(c, time) =>
      s.(contexts := s.contexts[c := s.contexts[c].(last := time)],
         list := MoveToBack(s.list, s.contexts[c].position))
    case Down(c) =>
      s.(list := Erase(s.list, s.contexts[c].position), up := s.up - {c}, connected := s.connected - {c})
    case Destroy(c) => s.(alive := s.alive - {c})
    case Tick(now) =>
      var r := Scan(s.list, s.contexts, s.connected, s.alive, now, idle);
      s.(list := r.list, contexts := r.contexts, connected := r.connected, shutdowns := s.shutdowns + [r.shut])
  }

  // ---------------------------------------------------------------------------------------------
  // Structure
  // ---------------------------------------------------------------------------------------------

  /** The cell a stored position designates is the connection's own. */
  lemma OwnCell(s: State, c: Conn) returns (i: nat)
    requires Listed(s) && c in s.up
    ensures i == IndexOf(s.list, s.contexts[c].position) < |s.list|
    ensures s.list[i] == Cell(s.contexts[c].position, c)
  {
    i := IndexOf(s.list, s.contexts[c].position);
    var k :| 0 <= k < |s.list| && s.list[k] == Cell(s.contexts[c].position, c);
    assert i == k;
  }

  /** Over cells that are alive the scan keeps the list, and positions, and only takes away from `connected`. */
  lemma {:induction false} ScanKeepsList(list: seq<Cell>, contexts: map<Conn, Context>, connected: set<Conn>,
                                         alive: set<Conn>, now: int, idle: int)
    requires forall cell :: cell in list ==> cell.conn in contexts && cell.conn in alive
    ensures var r := Scan(list, contexts, connected, alive, now, idle);
      && r.list == list && r.connected <= connected && r.contexts.Keys == contexts.Keys
      && r.connected == connected - r.shut && r.shut <= connected
      && forall c :: c in contexts ==> r.contexts[c].position == contexts[c].position
  {
    if list != [] {
      var c := list[0].conn;
      var age := now - contexts[c].last;
      if age > idle {
        ScanKeepsList(list[1..], contexts, connected - {c}, alive, now, idle);
      } else if age < 0 {
        ScanKeepsList(list[1..], contexts[c := contexts[c].(last := now)], connected, alive, now, idle);
      }
    }
  }

  function Without(list: seq<Cell>, i: nat): seq<Cell>
    requires i < |list|
  {
    list[..i] + list[i + 1..]
  }

  lemma WithoutFacts(list: seq<Cell>, i: nat)
    requires Distinct(list) && i < |list|
    ensures Distinct(Without(list, i))
    ensures forall cell :: cell in Without(list, i) <==> cell in list && cell != list[i]
    ensures forall cell :: cell in Without(list, i) ==> cell.id != list[i].id && cell.conn != list[i].conn
  {
    var r := Without(list, i);
    assert forall k :: 0 <= k < |r| ==> r[k] == if k < i then list[k] else list[k + 1];
    forall cell | cell in list && cell != list[i]
      ensures cell in r
    {
      var k :| 0 <= k < |list| && list[k] == cell;
      assert r[if k < i then k else k - 1] == cell;
    }
  }

  lemma MessageKeepsListed(s: State, c: Conn, time: int, idle: int)
    requires Listed(s) && c in s.up
    ensures Listed(Step(s, Message(c, time), idle))
    ensures var i := IndexOf(s.list, s.contexts[c].position);
      && i < |s.list| && s.list[i] == Cell(s.contexts[c].position, c)
      && Step(s, Message(c, time), idle).list == Without(s.list, i) + [Cell(s.contexts[c].position, c)]
  {
    hide IndexOf;
    var i := OwnCell(s, c);
    WithoutFacts(s.list, i);
    var r, t := Without(s.list, i), Step(s, Message(c, time), idle);
    assert t.list == r + [s.list[i]];
    forall k, j | 0 <= k < j < |t.list|
      ensures t.list[k].id != t.list[j].id && t.list[k].conn != t.list[j].conn
    {
      if j == |r| {
        assert t.list[k] in r;
      }
    }
  }

  lemma DownKeepsListed(s: State, c: Conn, idle: int)
    requires Listed(s) && c in s.up
    ensures Listed(Step(s, Down(c), idle))
    ensures var i := IndexOf(s.list, s.contexts[c].position);
      i < |s.list| && s.list[i].conn == c && Step(s, Down(c), idle).list == Without(s.list, i)
  {
    hide IndexOf;
    var i := OwnCell(s, c);
    WithoutFacts(s.list, i);
  }

  lemma StepKeepsListed(s: State, e: Event, idle: int)
    requires Listed(s) && Enabled(s, e)
    ensures Listed(Step(s, e, idle))
  {
    hide IndexOf, Scan, MoveToBack, Erase;
    match e
    case Up(_, _) =>
    case Message(c, time) => MessageKeepsListed(s, c, time, idle);
    case Down(c) => DownKeepsListed(s, c, idle);
    case Destroy(_) =>
    case Tick(now) => ScanKeepsList(s.list, s.contexts, s.connected, s.alive, now, idle);
  }

  // ---------------------------------------------------------------------------------------------
  // Order under clock skew
  // ---------------------------------------------------------------------------------------------

  function Time(e: Event): Option<int> {
    match e
    case Up(_, t) => Some(t)
    case Message(_, t) => Some(t)
    case Tick(t) => Some(t)
    case _ => None
  }

  /** The latest time seen so far. */
  function Advance(clock: Option<int>, e: Event): Option<int> {
    match (clock, Time(e))
    case (_, None) => clock
    case (None, t) => t
    case (Some(a), Some(b)) => Some(if a < b then b else a)
  }

  /** No event is timed more than `skew` before the latest one. */
  predicate Punctual(clock: Option<int>, e: Event, skew: nat) {
    clock.Some? && Time(e).Some? ==> Time(e).value >= clock.value - skew
  }

  predicate InOrder(list: seq<Cell>, contexts: map<Conn, Context>, skew: nat)
    requires forall cell :: cell in list ==> cell.conn in contexts
  {
    forall i, j :: 0 <= i < j < |list| ==> contexts[list[i].conn].last <= contexts[list[j].conn].last + skew
  }

  /** Later cells are at most `skew` older than earlier ones, and nothing is later than the clock. */
  ghost predicate Ordered(s: State, clock: Option<int>, skew: nat)
    requires Listed(s)
  {
    && InOrder(s.list, s.contexts, skew)
    && (forall cell :: cell in s.list ==> clock.Some? && s.contexts[cell.conn].last <= clock.value)
  }

  /** The scan only moves times from the future back to `now`. */
  lemma {:induction false} ScanMovesTimesBack(list: seq<Cell>, contexts: map<Conn, Context>, connected: set<Conn>,
                                              alive: set<Conn>, now: int, idle: int)
    requires forall cell :: cell in list ==> cell.conn in contexts
    ensures var r := Scan(list, contexts, connected, alive, now, idle);
      && r.contexts.Keys == contexts.Keys
      && forall c :: c in contexts ==>
           r.contexts[c].last == contexts[c].last || r.contexts[c].last == now < contexts[c].last
  {
    if list != [] {
      var c := list[0].conn;
      var age := now - contexts[c].last;
      if c !in alive {
        ScanMovesTimesBack(list[1..], contexts, connected, alive, now, idle);
      } else if age > idle {
        ScanMovesTimesBack(list[1..], contexts, connected - {c}, alive, now, idle);
      } else if age < 0 {
        ScanMovesTimesBack(list[1..], contexts[c := contexts[c].(last := now)], connected, alive, now, idle);
      }
    }
  }

  lemma WithoutKeepsOrder(list: seq<Cell>, contexts: map<Conn, Context>, i: nat, skew: nat)
    requires forall cell :: cell in list ==> cell.conn in contexts
    requires InOrder(list, contexts, skew) && i < |list|
    ensures forall cell :: cell in Without(list, i) ==> cell in list
    ensures InOrder(Without(list, i), contexts, skew)
  {
    var r := Without(list, i);
    assert forall k :: 0 <= k < |r| ==> r[k] == list[if k < i then k else k + 1];
  }

  lemma MessageKeepsOrder(s: State, c: Conn, time: int, clock: Option<int>, skew: nat, idle: int)
    requires Listed(s) && Ordered(s, clock, skew) && c in s.up && Punctual(clock, Message(c, time), skew)
    ensures Listed(Step(s, Message(c, time), idle))
    ensures Ordered(Step(s, Message(c, time), idle), Advance(clock, Message(c, time)), skew)
  {
    hide IndexOf, MoveToBack, Without, InOrder;
    MessageKeepsListed(s, c, time, idle);
    var i := IndexOf(s.list, s.contexts[c].position);
    WithoutFacts(s.list, i);
    WithoutKeepsOrder(s.list, s.contexts, i, skew);
    AppendKeepsOrder(Without(s.list, i), s.contexts, s.list[i], time, skew);
  }

  /** A cell whose time is at most `skew` before every other one may go to the back. */
  lemma AppendKeepsOrder(list: seq<Cell>, contexts: map<Conn, Context>, cell: Cell, time: int, skew: nat)
    requires forall d :: d in list ==> d.conn in contexts && d.conn != cell.conn
    requires InOrder(list, contexts, skew) && cell.conn in contexts
    requires forall d :: d in list ==> contexts[d.conn].last <= time + skew
    ensures InOrder(list + [cell], contexts[cell.conn := contexts[cell.conn].(last := time)], skew)
  {
  }

  lemma TickKeepsOrder(s: State, now: int, clock: Option<int>, skew: nat, idle: int)
    requires Listed(s) && Ordered(s, clock, skew) && Punctual(clock, Tick(now), skew)
    requires Listed(Step(s, Tick(now), idle))
    ensures Ordered(Step(s, Tick(now), idle), Advance(clock, Tick(now)), skew)
  {
    hide Scan;
    ScanKeepsList(s.list, s.contexts, s.connected, s.alive, now, idle);
    ScanMovesTimesBack(s.list, s.contexts, s.connected, s.alive, now, idle);
    var t := Step(s, Tick(now), idle);
    forall i, j | 0 <= i < j < |t.list|
      ensures t.contexts[t.list[i].conn].last <= t.contexts[t.list[j].conn].last + skew
    {
      assert s.list[i] in s.list && s.list[j] in s.list;
    }
  }

  lemma StepKeepsOrder(s: State, e: Event, clock: Option<int>, skew: nat, idle: int)
    requires Listed(s) && Ordered(s, clock, skew) && Enabled(s, e) && Punctual(clock, e, skew)
    ensures Listed(Step(s, e, idle)) && Ordered(Step(s, e, idle), Advance(clock, e), skew)
  {
    hide IndexOf, Scan, MoveToBack, Erase, Without;
    StepKeepsListed(s, e, idle);
    match e
    case Up(c, _) =>
      assert forall cell :: cell in s.list ==> cell.conn != c;
    case Message(c, time) => MessageKeepsOrder(s, c, time, clock, skew, idle);
    case Down(c) =>
      DownKeepsListed(s, c, idle);
      WithoutKeepsOrder(s.list, s.contexts, IndexOf(s.list, s.contexts[c].position), skew);
    case Destroy(_) =>
    case Tick(now) => TickKeepsOrder(s, now, clock, skew, idle);
  }

  // ---------------------------------------------------------------------------------------------
  // What a tick shuts down
  // ---------------------------------------------------------------------------------------------

  /** The connections the scan is for: listed, still connected, and silent for more than `limit`. */
  function Overdue(s: State, now: int, limit: int): set<Conn>
    requires Listed(s)
  {
    set c | c in s.up && c in s.connected && now - s.contexts[c].last > limit
  }

  /** Stopping at the first fresh cell misses nobody who is overdue by more than the skew. */
  lemma {:induction false} ScanFindsOverdue(list: seq<Cell>, contexts: map<Conn, Context>, connected: set<Conn>,
                                            alive: set<Conn>, now: int, idle: int, skew: nat)
    requires forall cell :: cell in list ==> cell.conn in contexts && cell.conn in alive
    requires forall i, j :: 0 <= i < j < |list| ==> list[i].conn != list[j].conn
    requires InOrder(list, contexts, skew)
    ensures var shut := Scan(list, contexts, connected, alive, now, idle).shut;
      && (forall c :: c in shut ==>
            && c in connected && (exists i :: 0 <= i < |list| && list[i].conn == c)
            && c in contexts && now - contexts[c].last > idle)
      && (forall i :: 0 <= i < |list| && list[i].conn in connected && now - contexts[list[i].conn].last > idle + skew
            ==> list[i].conn in shut)
  {
    hide Scan;
    if list == [] || 0 <= now - contexts[list[0].conn].last <= idle {
      ScanStops(list, contexts, connected, alive, now, idle);
    } else {
      ScanGoesOn(list, contexts, connected, alive, now, idle);
      var c, tail := list[0].conn, list[1..];
      var age := now - contexts[c].last;
      assert forall i :: 0 <= i < |tail| ==> tail[i] == list[i + 1] && tail[i].conn != c;
      if age > idle {
        ScanFindsOverdue(tail, contexts, connected - {c}, alive, now, idle, skew);
      } else if age < 0 {
        ScanFindsOverdue(tail, contexts[c := contexts[c].(last := now)], connected, alive, now, idle, skew);
      }
    }
  }

  lemma TickShutsDown(s: State, now: int, clock: Option<int>, skew: nat, idle: int)
    requires Listed(s) && Ordered(s, clock, skew)
    ensures var shut := Scan(s.list, s.contexts, s.connected, s.alive, now, idle).shut;
      Overdue(s, now, idle + skew) <= shut <= Overdue(s, now, idle)
  {
    hide Scan;
    ScanFindsOverdue(s.list, s.contexts, s.connected, s.alive, now, idle, skew);
  }

  // ---------------------------------------------------------------------------------------------
  // Runs
  // ---------------------------------------------------------------------------------------------

  function Initial(): (s: State)
    ensures Listed(s)
  {
    State([], map[], {}, {}, {}, {}, 0, [])
  }

  /** The events are enabled when they happen, and none is timed more than `skew` before an earlier one. */
  predicate Runs(s: State, clock: Option<int>, events: seq<Event>, skew: nat, idle: int)
    requires Listed(s)
    decreases |events|
  {
    events != [] ==>
      && Enabled(s, events[0]) && Punctual(clock, events[0], skew)
      && (StepKeepsListed(s, events[0], idle);
          Runs(Step(s, events[0], idle), Advance(clock, events[0]), events[1..], skew, idle))
  }

  function Run(s: State, clock: Option<int>, events: seq<Event>, skew: nat, idle: int): (r: State)
    requires Listed(s) && Runs(s, clock, events, skew, idle)
    ensures Listed(r)
    decreases |events|
  {
    if events == [] then s
    else
      StepKeepsListed(s, events[0], idle);
      Run(Step(s, events[0], idle), Advance(clock, events[0]), events[1..], skew, idle)
  }

  function RunClock(clock: Option<int>, events: seq<Event>): Option<int>
    decreases |events|
  {
    if events == [] then clock else RunClock(Advance(clock, events[0]), events[1..])
  }

  /** The time of each connection's last up or message event. */
  function Hears(heard: map<Conn, int>, e: Event): map<Conn, int> {
    match e
    case Up(c, t) => heard[c := t]
    case Message(c, t) => heard[c := t]
    case _ => heard
  }

  function RunHeard(heard: map<Conn, int>, events: seq<Event>): map<Conn, int>
    decreases |events|
  {
    if events == [] then heard else RunHeard(Hears(heard, events[0]), events[1..])
  }

  /** The stored time is that of the last event, or has been moved back from it by at most the skew. */
  ghost predicate Remembers(s: State, heard: map<Conn, int>, clock: Option<int>, skew: nat)
    requires Listed(s)
  {
    forall c :: c in s.up ==>
      && c in heard && s.contexts[c].last <= heard[c] <= s.contexts[c].last + skew
      && clock.Some? && heard[c] <= clock.value
  }

  lemma StepRemembers(s: State, e: Event, heard: map<Conn, int>, clock: Option<int>, skew: nat, idle: int)
    requires Listed(s) && Remembers(s, heard, clock, skew) && Enabled(s, e) && Punctual(clock, e, skew)
    ensures Listed(Step(s, e, idle)) && Remembers(Step(s, e, idle), Hears(heard, e), Advance(clock, e), skew)
  {
    hide IndexOf, Scan, MoveToBack, Erase;
    StepKeepsListed(s, e, idle);
    if e.Tick? {
      ScanMovesTimesBack(s.list, s.contexts, s.connected, s.alive, e.time, idle);
    }
  }

  /** Shut down once at most: the connections shut down so far are known and no longer connected. */
  ghost predicate Once(s: State) {
    && (forall t, c :: 0 <= t < |s.shutdowns| && c in s.shutdowns[t] ==> c in s.known && c !in s.connected)
    && (forall t, u :: 0 <= t < u < |s.shutdowns| ==> s.shutdowns[t] !! s.shutdowns[u])
  }

  lemma StepKeepsOnce(s: State, e: Event, idle: int)
    requires Listed(s) && Once(s) && Enabled(s, e)
    ensures Once(Step(s, e, idle))
  {
    hide Scan, MoveToBack, Erase;
    if e.Tick? {
      ScanKeepsList(s.list, s.contexts, s.connected, s.alive, e.time, idle);
    }
  }

  lemma {:induction false} RunKeepsAll(s: State, clock: Option<int>, heard: map<Conn, int>, events: seq<Event>,
                                       skew: nat, idle: int)
    requires Listed(s) && Ordered(s, clock, skew) && Once(s) && Remembers(s, heard, clock, skew)
    requires Runs(s, clock, events, skew, idle)
    ensures var t := Run(s, clock, events, skew, idle);
      && Listed(t) && Ordered(t, RunClock(clock, events), skew) && Once(t)
      && Remembers(t, RunHeard(heard, events), RunClock(clock, events), skew)
    decreases |events|
  {
    hide Listed, Ordered, Once, Remembers, Step, Enabled, Punctual, Advance, Hears;
    if events != [] {
      var e := events[0];
      StepKeepsOrder(s, e, clock, skew, idle);
      StepKeepsOnce(s, e, idle);
      StepRemembers(s, e, heard, clock, skew, idle);
      RunKeepsAll(Step(s, e, idle), Advance(clock, e), Hears(heard, e), events[1..], skew, idle);
    }
  }

  lemma InitialIsFine(skew: nat)
    ensures Ordered(Initial(), None, skew) && Once(Initial()) && Remembers(Initial(), map[], None, skew)
  {
  }

  /** By the stored times: a tick shuts down the overdue, missing at most those overdue by the skew or less. */
  lemma EveryTickByStoredTimes(events: seq<Event>, now: int, skew: nat, idle: int)
    requires Runs(Initial(), None, events, skew, idle)
    ensures var s := Run(Initial(), None, events, skew, idle);
      && Listed(s) && Once(s)
      && var shut := Scan(s.list, s.contexts, s.connected, s.alive, now, idle).shut;
         && Overdue(s, now, idle + skew) <= shut <= Overdue(s, now, idle)
         && (skew == 0 ==> shut == Overdue(s, now, idle))
  {
    hide Run, Scan, Overdue;
    InitialIsFine(skew);
    RunKeepsAll(Initial(), None, map[], events, skew, idle);
    TickShutsDown(Run(Initial(), None, events, skew, idle), now, RunClock(None, events), skew, idle);
  }

  /** The connections between their up and down events. */
  function UpAfter(up: set<Conn>, e: Event): set<Conn> {
    match e
    case Up(c, _) => up + {c}
    case Down(c) => up - {c}
    case _ => up
  }

  function RunUp(up: set<Conn>, events: seq<Event>): set<Conn>
    decreases |events|
  {
    if events == [] then up else RunUp(UpAfter(up, events[0]), events[1..])
  }

  /** The up connections that have not been shut down are the connected ones. */
  ghost predicate ConnectedIsRight(s: State) {
    forall c :: c in s.connected <==> c in s.up && !ShutIn(s.shutdowns, c)
  }

  predicate ShutIn(shutdowns: seq<set<Conn>>, c: Conn) {
    exists t :: 0 <= t < |shutdowns| && c in shutdowns[t]
  }

  lemma ShutInOneMore(shutdowns: seq<set<Conn>>, more: set<Conn>, c: Conn)
    ensures ShutIn(shutdowns + [more], c) <==> ShutIn(shutdowns, c) || c in more
  {
    var longer := shutdowns + [more];
    if t :| 0 <= t < |shutdowns| && c in shutdowns[t] {
      assert c in longer[t];
    }
    if c in more {
      assert c in longer[|shutdowns|];
    }
  }

  lemma StepKeepsUp(s: State, e: Event, idle: int)
    requires Listed(s) && Once(s) && ConnectedIsRight(s) && Enabled(s, e)
    ensures Step(s, e, idle).up == UpAfter(s.up, e) && ConnectedIsRight(Step(s, e, idle))
  {
    hide Scan, MoveToBack, Erase, ShutIn;
    match e
    case Up(c, _) => assert !ShutIn(s.shutdowns, c) by {
      NewIsNotShut(s, c);
    }
    case Tick(now) =>
      ScanKeepsList(s.list, s.contexts, s.connected, s.alive, now, idle);
      var shut := Scan(s.list, s.contexts, s.connected, s.alive, now, idle).shut;
      forall c ensures ShutIn(s.shutdowns + [shut], c) <==> ShutIn(s.shutdowns, c) || c in shut {
        ShutInOneMore(s.shutdowns, shut, c);
      }
    case _ =>
  }

  lemma NewIsNotShut(s: State, c: Conn)
    requires Once(s) && c !in s.known
    ensures !ShutIn(s.shutdowns, c)
  {
  }

  lemma {:induction false} RunKeepsUp(s: State, clock: Option<int>, events: seq<Event>, skew: nat, idle: int)
    requires Listed(s) && Once(s) && ConnectedIsRight(s) && Runs(s, clock, events, skew, idle)
    ensures var t := Run(s, clock, events, skew, idle);
      t.up == RunUp(s.up, events) && ConnectedIsRight(t)
    decreases |events|
  {
    hide Listed, Once, ConnectedIsRight, Step, Enabled, Punctual, Advance, UpAfter;
    if events != [] {
      StepKeepsListed(s, events[0], idle);
      StepKeepsOnce(s, events[0], idle);
      StepKeepsUp(s, events[0], idle);
      RunKeepsUp(Step(s, events[0], idle), Advance(clock, events[0]), events[1..], skew, idle);
    }
  }

  /** The up connections not shut down before whose last up or message event is more than `limit` ago. */
  function Silent(up: set<Conn>, heard: map<Conn, int>, before: seq<set<Conn>>, now: int, limit: int): set<Conn> {
    set c | c in up && c in heard && !ShutIn(before, c) && now - heard[c] > limit
  }

  /**
   On every run with clock skew of at most `skew`, the next tick shuts down every up connection not heard from
   for more than `idle + skew` and none heard from within `idle - skew`; without skew, exactly those not heard
   from for more than `idle`. Who is up, when it was heard from and who was shut down before is read off the
   events and the earlier shutdowns. The list is still whole, and nobody has been shut down twice.
   */
  lemma EveryTickIsExact(events: seq<Event>, now: int, skew: nat, idle: int)
    requires Runs(Initial(), None, events, skew, idle)
    ensures var s, up, heard := Run(Initial(), None, events, skew, idle), RunUp({}, events), RunHeard(map[], events);
      && Listed(s) && Once(s) && s.up == up <= heard.Keys
      && var n, ticks := Step(s, Tick(now), idle), |s.shutdowns|;
         && |n.shutdowns| == ticks + 1 && n.shutdowns[..ticks] == s.shutdowns
         && var shut := n.shutdowns[ticks];
            && Silent(up, heard, s.shutdowns, now, idle + skew) <= shut
            && shut <= Silent(up, heard, s.shutdowns, now, idle - skew)
            && (skew == 0 ==> shut == Silent(up, heard, s.shutdowns, now, idle))
  {
    hide Run, RunHeard, RunUp, Runs, Scan, Listed, Once, ShutIn;
    InitialIsFine(skew);
    InitialIsUp();
    RunKeepsAll(Initial(), None, map[], events, skew, idle);
    RunKeepsUp(Initial(), None, events, skew, idle);
    EveryTickByStoredTimes(events, now, skew, idle);
  }

  lemma InitialIsUp()
    ensures ConnectedIsRight(Initial()) && Initial().up == {}
  {
  }

  /** A run of two events, step by step. */
  lemma RunOfTwo(e: Event, f: Event, a: State, b: State, skew: nat, idle: int)
    requires Enabled(Initial(), e) && Step(Initial(), e, idle) == a && Listed(a)
    requires Enabled(a, f) && Punctual(Advance(None, e), f, skew) && Step(a, f, idle) == b && Listed(b)
    ensures Runs(Initial(), None, [e, f], skew, idle) && Run(Initial(), None, [e, f], skew, idle) == b
    ensures RunHeard(map[], [e, f]) == Hears(Hears(map[], e), f)
  {
    hide Enabled, Step, Listed, Hears, Advance;
    assert [e, f][1..] == [f] && [f][1..] == [];
    assert Run(b, Advance(Advance(None, e), f), [], skew, idle) == b;
    assert Runs(a, Advance(None, e), [f], skew, idle) && Run(a, Advance(None, e), [f], skew, idle) == b;
    assert RunHeard(Hears(map[], e), [f]) == Hears(Hears(map[], e), f);
  }

  /** One connection, with its last activity stored as `last`. */
  function OneUp(c: Conn, last: int, shutdowns: seq<set<Conn>>): State {
    State([Cell(0, c)], map[c := Context(last, 0)], {c}, {c}, {c}, {c}, 1, shutdowns)
  }

  lemma OneUpScanned(c: Conn, last: int, now: int, idle: nat, shutdowns: seq<set<Conn>>)
    ensures var s := OneUp(c, last, shutdowns);
      var r := Scan(s.list, s.contexts, s.connected, s.alive, now, idle);
      && Listed(s)
      && (now - last > idle ==> r.shut == {c})
      && (now < last ==> r == Scanned(s.list, map[c := Context(now, 0)], {c}, {}))
  {
    var s := OneUp(c, last, shutdowns);
    ScanGoesOn(s.list, s.contexts, s.connected, s.alive, now, idle);
    assert s.list[1..] == [];
  }

  lemma OneUpBegins(c: Conn, now: int, idle: int)
    ensures Enabled(Initial(), Up(c, now)) && Step(Initial(), Up(c, now), idle) == OneUp(c, now, [])
  {
  }

  /** Moved back by the skew at a tick, a connection is shut down though heard from `idle - skew + 1` ago. */
  lemma LowerLimitIsSharp(c: Conn, skew: nat, idle: nat)
    requires skew > 0
    ensures var events, now := [Up(c, 0), Tick(0 - skew)], idle - skew + 1;
      && Runs(Initial(), None, events, skew, idle) && RunHeard(map[], events) == map[c := 0]
      && var s := Run(Initial(), None, events, skew, idle);
         Scan(s.list, s.contexts, s.connected, s.alive, now, idle).shut == {c}
  {
    hide Scan, Listed, Run, Runs, RunHeard;
    var a, b := OneUp(c, 0, []), OneUp(c, 0 - skew, [{}]);
    OneUpBegins(c, 0, idle);
    OneUpScanned(c, 0, 0 - skew, idle, []);
    OneUpScanned(c, 0 - skew, idle - skew + 1, idle, [{}]);
    assert Step(a, Tick(0 - skew), idle) == b;
    RunOfTwo(Up(c, 0), Tick(0 - skew), a, b, skew, idle);
  }

  /** Behind a connection heard from `idle` ago, one heard from `idle + skew` ago is not reached. */
  lemma UpperLimitIsSharp(c: Conn, d: Conn, skew: nat, idle: nat)
    requires c != d
    ensures var events, now := [Up(c, skew), Up(d, 0)], idle + skew;
      && Runs(Initial(), None, events, skew, idle) && RunHeard(map[], events) == map[c := skew, d := 0]
      && var s := Run(Initial(), None, events, skew, idle);
         Scan(s.list, s.contexts, s.connected, s.alive, now, idle).shut == {}
  {
    hide Scan, Listed, Run, Runs, RunHeard;
    var a := OneUp(c, skew, []);
    OneUpBegins(c, skew, idle);
    OneUpScanned(c, skew, skew, idle, []);
    StepKeepsListed(a, Up(d, 0), idle);
    var b := Step(a, Up(d, 0), idle);
    RunOfTwo(Up(c, skew), Up(d, 0), a, b, skew, idle);
    ListedHaveContexts(b);
    ScanStops(b.list, b.contexts, b.connected, b.alive, idle + skew, idle);
  }

  lemma ListedHaveContexts(s: State)
    requires Listed(s)
    ensures forall cell :: cell in s.list ==> cell.conn in s.contexts
  {
  }

  /** On every run the scan's branch for expired connections is not taken: everyone listed can be locked. */
  lemma NobodyListedIsExpired(events: seq<Event>, now: int, skew: nat, idle: int)
    requires Runs(Initial(), None, events, skew, idle)
    ensures var s := Run(Initial(), None, events, skew, idle);
      && Listed(s) && (forall cell :: cell in s.list ==> cell.conn in s.alive)
      && Scan(s.list, s.contexts, s.connected, s.alive, now, idle).list == s.list
  {
    hide Run, Scan, Runs;
    EveryTickByStoredTimes(events, now, skew, idle);
    var s := Run(Initial(), None, events, skew, idle);
    ScanKeepsList(s.list, s.contexts, s.connected, s.alive, now, idle);
  }

  // ---------------------------------------------------------------------------------------------
  // The server
  // ---------------------------------------------------------------------------------------------

  class EchoServer {
    const idle: int
    var connectionList: seq<Cell>
    var contexts: map<Conn, Context>
    var up: set<Conn>
    var connected: set<Conn>
    var alive: set<Conn>
    var known: set<Conn>
    var nextId: nat
    var shutdowns: seq<set<Conn>>

    ghost function Value(): State
      reads this
    {
      State(connectionList, contexts, up, connected, alive, known, nextId, shutdowns)
    }

    ghost predicate Valid()
      reads this
    {
      Listed(Value())
    }

    constructor (idle: int)
      ensures Valid() && Value() == Initial() && this.idle == idle
    {
      this.idle := idle;
      connectionList, contexts, nextId, shutdowns := [], map[], 0, [];
      up, connected, alive, known := {}, {}, {}, {};
    }

    method OnConnection(c: Conn, isUp: bool, now: int)
      requires Valid() && Enabled(Value(), if isUp then Up(c, now) else Down(c))
      modifies this
      ensures Valid() && Value() == Step(old(Value()), if isUp then Up(c, now) else Down(c), idle)
    {
      hide IndexOf;
      StepKeepsListed(Value(), if isUp then Up(c, now) else Down(c), idle);
      if isUp {
        connectionList := connectionList + [Cell(nextId, c)];
        contexts := contexts[c := Context(now, connectionList[|connectionList| - 1].id)];
        nextId := nextId + 1;
        up, connected, alive, known := up + {c}, connected + {c}, alive + {c}, known + {c};
      } else {
        connectionList := Erase(connectionList, contexts[c].position);
        up, connected := up - {c}, connected - {c};
      }
    }

    method OnMessage(c: Conn, time: int)
      requires Valid() && Enabled(Value(), Message(c, time))
      modifies this
      ensures Valid() && Value() == Step(old(Value()), Message(c, time), idle)
    {
      hide IndexOf, MoveToBack;
      MessageKeepsListed(Value(), c, time, idle);
      contexts := contexts[c := contexts[c].(last := time)];
      connectionList := MoveToBack(connectionList, contexts[c].position);
      assert contexts[c].position == connectionList[|connectionList| - 1].id;
    }

    method ConnectionDestroyed(c: Conn)
      requires Valid() && Enabled(Value(), Destroy(c))
      modifies this
      ensures Valid() && Value() == Step(old(Value()), Destroy(c), idle)
    {
      StepKeepsListed(Value(), Destroy(c), idle);
      alive := alive - {c};
    }

    /** The iterator loop; returns the connections it shut down. */
    method ScanList(now: int) returns (shut: set<Conn>)
      requires forall cell :: cell in connectionList ==> cell.conn in contexts
      modifies this`connectionList, this`contexts, this`connected
      ensures Scanned(connectionList, contexts, connected, shut)
        == Scan(old(connectionList), old(contexts), old(connected), alive, now, idle)
    {
      hide Scan, After;
      shut := {};
      var it := 0;
      ghost var rest, whole := connectionList, Scan(connectionList, contexts, connected, alive, now, idle);
      AfterNothing(whole);
      while it < |connectionList|
        invariant it <= |connectionList| && rest == connectionList[it..]
        invariant forall cell :: cell in rest ==> cell.conn in contexts
        invariant whole == After(connectionList[..it], shut, Scan(rest, contexts, connected, alive, now, idle))
        decreases |connectionList| - it
      {
        var c := connectionList[it].conn;
        ScanGoesOn(rest, contexts, connected, alive, now, idle);
        ghost var done, cell := connectionList[..it], rest[0];
        rest := rest[1..];
        if c in alive {
          assert connectionList[..it + 1] == done + [cell];
          var age := now - contexts[c].last;
          if age > idle {
            ghost var q := Scan(rest, contexts, connected - {c}, alive, now, idle);
            AfterOneMore(done, shut, cell, if c in connected then {c} else {}, q);
            if c in connected {
              connected := connected - {c};
              shut := shut + {c};
            } else {
              assert connected - {c} == connected && shut + {} == shut;
            }
          } else if age < 0 {
            contexts := contexts[c := contexts[c].(last := now)];
            AfterOneMore(done, shut, cell, {}, Scan(rest, contexts, connected, alive, now, idle));
            assert shut + {} == shut;
          } else {
            rest := connectionList[it..];
            break;
          }
          it := it + 1;
        } else {
          connectionList := connectionList[..it] + connectionList[it + 1..];
          assert connectionList[..it] == done && connectionList[it..] == rest;
        }
      }
      ScanStops(rest, contexts, connected, alive, now, idle);
      AfterTheLast(connectionList, it, shut, contexts, connected);
    }

    method OnTimer(now: int)
      requires Valid()
      modifies this
      ensures Valid() && Value() == Step(old(Value()), Tick(now), idle)
    {
      hide Scan;
      StepKeepsListed(Value(), Tick(now), idle);
      var shut := ScanList(now);
      shutdowns := shutdowns + [shut];
    }
  }
}
