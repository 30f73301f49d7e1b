/**
 The timer queue: timers sorted by deadline, fired from the periodic tick.

 A timer is known by a number.  Deadlines are 32-bit tick counts: insertion compares them as they are, expiry by the
 sign of their 32-bit difference from the current tick.  A callback is any sequence of additions, cancellations and
 set-ups.
 */
module Timers {
  import opened Basics

  const HALF: nat := 0x8000_0000

  datatype Timer = Timer(expires: nat, period: nat, active: bool)

  type Table = map<nat, Timer>

  datatype State = State(queue: seq<nat>, timers: Table)

  /** What code running beside the tick may do: a callback's own calls, or another CPU's. */
  datatype Command = Add(id: nat, at: nat, delay: nat) | Cancel(id: nat) | Setup(id: nat, period: nat)

  function Get(ts: Table, t: nat): Timer {
    if t in ts then ts[t] else Timer(0, 0, false)
  }

  // ---------------------------------------------------------------- the two comparisons

  /** The sign test on the 32-bit difference. */
  predicate Due(expires: nat, now: nat) {
    var difference := (expires - now) % WORD;
    difference == 0 || difference >= HALF
  }

  /** A deadline on the same side of the wrap-around as now. */
  predicate Near(expires: nat, now: nat) {
    expires < WORD && now < expires + HALF && expires < now + HALF
  }

  lemma DueIsPast(expires: nat, now: nat)
    requires Near(expires, now) && now < WORD
    ensures Due(expires, now) <==> expires <= now
  {
    if expires < now { assert (expires - now) % WORD == expires - now + WORD; }
  }

  // ---------------------------------------------------------------- the queue as a sequence

  ghost predicate Sorted(q: seq<nat>, ts: Table) {
    forall i, j :: 0 <= i < j < |q| ==> Get(ts, q[i]).expires <= Get(ts, q[j]).expires
  }

  /** A timer is active exactly when it is queued. */
  ghost predicate ActiveQueued(q: seq<nat>, ts: Table) {
    (forall t :: t in q ==> t in ts) && forall t :: t in ts ==> (ts[t].active <==> t in q)
  }

  /** Every timer is queued at most once, in deadline order, and is active exactly when it is queued. */
  ghost predicate QueueOk(s: State) {
    Distinct(s.queue) && Sorted(s.queue, s.timers) && ActiveQueued(s.queue, s.timers)
  }

  /** Where a deadline belongs: after every deadline that is no later. */
  function Place(q: seq<nat>, ts: Table, expires: nat): (k: nat)
    ensures k <= |q| && (forall i :: 0 <= i < k ==> Get(ts, q[i]).expires <= expires)
    ensures k < |q| ==> Get(ts, q[k]).expires > expires
  {
    if q == [] || Get(ts, q[0]).expires > expires then 0 else 1 + Place(q[1..], ts, expires)
  }

  lemma {:induction false} PlaceIs(q: seq<nat>, ts: Table, expires: nat, k: nat)
    requires k <= |q| && (forall i :: 0 <= i < k ==> Get(ts, q[i]).expires <= expires)
    requires k < |q| ==> Get(ts, q[k]).expires > expires
    ensures Place(q, ts, expires) == k
  {
    if k > 0 { PlaceIs(q[1..], ts, expires, k - 1); }
  }

  function Inserted(q: seq<nat>, ts: Table, t: nat): seq<nat> {
    var k := Place(q, ts, Get(ts, t).expires);
    q[..k] + [t] + q[k..]
  }

  lemma {:induction false} RemovedSorted(q: seq<nat>, ts: Table, t: nat)
    requires Sorted(q, ts)
    ensures Sorted(Removed(q, t), ts) && forall x :: x in Removed(q, t) ==> x in q
  {
    if q != [] {
      RemovedSorted(q[1..], ts, t);
      var r := Removed(q[1..], t);
      forall j | 0 <= j < |r| ensures Get(ts, q[0]).expires <= Get(ts, r[j]).expires { assert r[j] in q[1..]; }
    }
  }

  /** Writing to a timer that is not queued does not disturb the order. */
  lemma SortedFrame(q: seq<nat>, ts: Table, t: nat, x: Timer)
    requires Sorted(q, ts) && t !in q
    ensures Sorted(q, ts[t := x])
  {
    assert forall i :: 0 <= i < |q| ==> Get(ts[t := x], q[i]) == Get(ts, q[i]);
  }

  lemma InsertedAt(q: seq<nat>, ts: Table, t: nat, k: nat)
    requires k == Place(q, ts, Get(ts, t).expires)
    ensures |Inserted(q, ts, t)| == |q| + 1
    ensures forall i :: 0 <= i <= |q| ==> Inserted(q, ts, t)[i] == if i < k then q[i] else if i == k then t
        else q[i - 1]
  {
  }

  lemma InsertedHas(q: seq<nat>, ts: Table, t: nat)
    ensures forall x :: x in Inserted(q, ts, t) <==> x == t || x in q
  {
    var k := Place(q, ts, Get(ts, t).expires);
    assert q == q[..k] + q[k..];
  }

  lemma InsertedSorted(q: seq<nat>, ts: Table, t: nat)
    requires Sorted(q, ts)
    ensures Sorted(Inserted(q, ts, t), ts)
  {
    var k := Place(q, ts, Get(ts, t).expires);
    InsertedAt(q, ts, t, k);
    hide Place;
    var r := Inserted(q, ts, t);
    forall i, j | 0 <= i < j < |r| ensures Get(ts, r[i]).expires <= Get(ts, r[j]).expires {
      if i == k { assert Get(ts, q[k]).expires <= Get(ts, q[j - 1]).expires; }
      if j == k { assert r[i] == q[i]; }
    }
  }

  lemma InsertedDistinct(q: seq<nat>, ts: Table, t: nat)
    requires Distinct(q) && t !in q
    ensures Distinct(Inserted(q, ts, t))
  {
    InsertedAt(q, ts, t, Place(q, ts, Get(ts, t).expires));
  }

  // ---------------------------------------------------------------- the operations on values

  /** Taking a timer off the queue and, unless it is dropped, putting it back at a new deadline. */
  function Requeued(s: State, t: nat, x: Timer): State {
    var ts := s.timers[t := x];
    var q := Removed(s.queue, t);
    State(if x.active then Inserted(q, ts, t) else q, ts)
  }

  lemma RequeuedTable(s: State, t: nat, x: Timer)
    ensures Requeued(s, t, x).timers == s.timers[t := x]
  {
  }

  lemma RequeuedHas(s: State, t: nat, x: Timer)
    requires Distinct(s.queue)
    ensures forall y :: y in Requeued(s, t, x).queue <==> (if y == t then x.active else y in s.queue)
  {
    RemovedFacts(s.queue, t);
    InsertedHas(Removed(s.queue, t), s.timers[t := x], t);
    hide Inserted; hide Removed; hide Distinct;
  }

  lemma RequeuedOrder(s: State, t: nat, x: Timer)
    requires Distinct(s.queue) && Sorted(s.queue, s.timers)
    ensures Distinct(Requeued(s, t, x).queue) && Sorted(Requeued(s, t, x).queue, s.timers[t := x])
  {
    var ts := s.timers[t := x];
    var q := Removed(s.queue, t);
    RemovedFacts(s.queue, t);
    RemovedSorted(s.queue, s.timers, t);
    SortedFrame(q, s.timers, t, x);
    InsertedSorted(q, ts, t);
    InsertedDistinct(q, ts, t);
    hide Inserted; hide Removed; hide Distinct; hide Sorted;
  }

  /** Requeueing keeps the queue in order and each timer active exactly when queued. */
  lemma RequeuedOk(s: State, t: nat, x: Timer)
    requires QueueOk(s)
    ensures QueueOk(Requeued(s, t, x))
  {
    RequeuedTable(s, t, x);
    RequeuedHas(s, t, x);
    RequeuedOrder(s, t, x);
    hide Requeued; hide Distinct; hide Sorted;
  }

  function Deadline(at: nat, delay: nat): nat {
    (at + if delay == 0 then 1 else delay) % WORD
  }

  /** The timer as an addition or cancellation leaves it. */
  function Ordered(s: State, c: Command): Timer
    requires !c.Setup?
  {
    match c
    case Add(t, at, delay) => Get(s.timers, t).(expires := Deadline(at, delay), active := true)
    case Cancel(t) => Get(s.timers, t).(active := false)
  }

  /** The list up to t: what is left of it once t's link is cleared. */
  function CutAfter(q: seq<nat>, t: nat): seq<nat> {
    if q == [] then [] else if q[0] == t then [t] else [q[0]] + CutAfter(q[1..], t)
  }

  /** Setting a timer up clears its fields, its link among them, whether or not it is queued. */
  function SetUp(s: State, t: nat, period: nat): State {
    State(CutAfter(s.queue, t), s.timers[t := Timer(0, period, false)])
  }

  lemma {:induction false} CutAbsent(q: seq<nat>, t: nat)
    ensures t !in q ==> CutAfter(q, t) == q
    ensures t in q ==> t in CutAfter(q, t)
  {
    if q != [] { CutAbsent(q[1..], t); }
  }

  /** Setting a timer up leaves the queue in order exactly when the timer was not queued. */
  lemma SetUpOk(s: State, t: nat, period: nat)
    requires QueueOk(s)
    ensures QueueOk(SetUp(s, t, period)) <==> t !in s.queue
    ensures t !in s.queue ==> SetUp(s, t, period).queue == s.queue
  {
    CutAbsent(s.queue, t);
    if t !in s.queue {
      SortedFrame(s.queue, s.timers, t, Timer(0, period, false));
    }
    hide CutAfter; hide Sorted; hide Distinct;
  }

  function Obeyed(s: State, c: Command): State {
    if c.Setup? then SetUp(s, c.id, c.period) else Requeued(s, c.id, Ordered(s, c))
  }

  function ObeyedAll(s: State, cs: seq<Command>): State
    decreases |cs|
  {
    if cs == [] then s else ObeyedAll(Obeyed(s, cs[0]), cs[1..])
  }

  function Rearmed(x: Timer, now: nat): Timer {
    if x.period != 0 then x.(expires := (now + x.period) % WORD) else x.(active := false)
  }

  /** The tick takes the first timer off and re-arms it when it has a period. */
  function Popped(s: State, now: nat): State
    requires s.queue != []
  {
    Requeued(s, s.queue[0], Rearmed(Get(s.timers, s.queue[0]), now))
  }

  // ---------------------------------------------------------------- deadlines as times

  /** The difference of two tick counts that have wrapped around. */
  lemma WrappedLeft(due: nat, now: nat)
    ensures (due % WORD - now % WORD) % WORD == (due - now) % WORD
  {
    var q := due / WORD - now / WORD;
    assert due % WORD - now % WORD == (due - now) - WORD * q;
    WholeWords(due - now, q);
  }

  lemma WholeWords(x: int, q: int)
    ensures (x - WORD * q) % WORD == x % WORD
  {
    var d := x / WORD;
    assert x - WORD * q == WORD * (d - q) + x % WORD;
  }

  /** Of two tick counts, however often they have wrapped around: due exactly once the time has come. */
  lemma DueInTime(due: nat, now: nat)
    requires now < due + HALF && due < now + HALF
    ensures Due(due % WORD, now % WORD) <==> due <= now
  {
    WrappedLeft(due, now);
    if due < now { assert (due - now) % WORD == due - now + WORD; }
  }

  /** A timer added for some delay is due once that has passed, and one tick later at the earliest. */
  lemma AddedDue(at: nat, delay: nat, now: nat)
    requires at <= now < at + HALF && delay < HALF
    ensures Due(Deadline(at, delay), now % WORD) <==> now - at >= delay && now > at
  {
    DueInTime(at + if delay == 0 then 1 else delay, now);
    hide Due;
  }

  /** A periodic timer taken at now is due again one period later, and a one-shot timer is no longer active. */
  lemma RearmedDue(x: Timer, now: nat, later: nat)
    requires x.active && x.period < HALF && now <= later < now + HALF
    ensures Rearmed(x, now).active <==> x.period != 0
    ensures x.period != 0 ==>
      (Due(Rearmed(x, now).expires, later % WORD) <==> later - now >= x.period) && Rearmed(x, now).period == x.period
  {
    DueInTime(now + x.period, later);
    hide Due;
  }

  /** The tick leaves the timer it takes on the queue exactly when it is periodic, and due one period later. */
  lemma PeriodicReturns(s: State, now: nat, later: nat)
    requires QueueOk(s) && s.queue != [] && now <= later < now + HALF
    requires s.queue[0] in s.timers && s.timers[s.queue[0]].period < HALF
    ensures var h := s.queue[0]; var p := Popped(s, now);
      && (h in p.queue <==> s.timers[h].period != 0) && h in p.timers
      && (h in p.queue ==> (Due(p.timers[h].expires, later % WORD) <==> later - now >= s.timers[h].period))
      && forall t :: t != h ==> (t in p.queue <==> t in s.queue)
  {
    var h := s.queue[0];
    assert h in s.queue;
    RearmedDue(s.timers[h], now, later);
    RequeuedHas(s, h, Rearmed(s.timers[h], now));
    RequeuedTable(s, h, Rearmed(s.timers[h], now));
    hide Requeued; hide Due; hide Sorted; hide Distinct; hide Rearmed;
  }

  // ---------------------------------------------------------------- what is due

  /** The queued timers whose deadline has come, in queue order. */
  function DueOnes(q: seq<nat>, ts: Table, now: nat): seq<nat> {
    if q == [] then [] else (if Get(ts, q[0]).expires <= now then [q[0]] else []) + DueOnes(q[1..], ts, now)
  }

  lemma {:induction false} DueOnesHas(q: seq<nat>, ts: Table, now: nat)
    ensures forall t :: t in DueOnes(q, ts, now) <==> t in q && Get(ts, t).expires <= now
  {
    if q != [] { DueOnesHas(q[1..], ts, now); }
  }

  lemma {:induction false} DueOnesJoin(a: seq<nat>, b: seq<nat>, ts: Table, now: nat)
    ensures DueOnes(a + b, ts, now) == DueOnes(a, ts, now) + DueOnes(b, ts, now)
  {
    if a == [] { assert a + b == b; } else {
      assert (a + b)[1..] == a[1..] + b;
      DueOnesJoin(a[1..], b, ts, now);
    }
  }

  lemma {:induction false} DueOnesFrame(q: seq<nat>, ts: Table, t: nat, x: Timer, now: nat)
    requires t !in q
    ensures DueOnes(q, ts[t := x], now) == DueOnes(q, ts, now)
  {
    if q != [] { DueOnesFrame(q[1..], ts, t, x, now); }
  }

  lemma {:induction false} DueOnesRemoved(q: seq<nat>, ts: Table, t: nat, now: nat)
    requires Distinct(q)
    ensures DueOnes(Removed(q, t), ts, now) == Removed(DueOnes(q, ts, now), t)
  {
    if q != [] {
      DueOnesRemoved(q[1..], ts, t, now);
      var d := DueOnes(q[1..], ts, now);
      if q[0] == t {
        assert forall j :: 0 <= j < |q[1..]| ==> q[1..][j] != t;
        DueOnesHas(q[1..], ts, now);
        RemovedAt(d, t, |d|);
        assert ([t] + d)[1..] == d && [] + d == d;
      } else if Get(ts, q[0]).expires <= now {
        assert ([q[0]] + d)[1..] == d;
        assert ([q[0]] + Removed(q[1..], t))[1..] == Removed(q[1..], t);
      } else {
        assert [] + d == d;
        assert ([q[0]] + Removed(q[1..], t))[1..] == Removed(q[1..], t);
      }
    }
  }

  lemma {:induction false} NothingDue(q: seq<nat>, ts: Table, now: nat)
    requires Sorted(q, ts) && (q != [] ==> Get(ts, q[0]).expires > now)
    ensures DueOnes(q, ts, now) == []
  {
    if q != [] { NothingDue(q[1..], ts, now); }
  }

  lemma {:induction false} DueOnesOrdered(q: seq<nat>, ts: Table, now: nat)
    requires Sorted(q, ts) && Distinct(q)
    ensures Sorted(DueOnes(q, ts, now), ts) && Distinct(DueOnes(q, ts, now))
  {
    if q != [] {
      DueOnesOrdered(q[1..], ts, now);
      DueOnesHas(q[1..], ts, now);
      var d := DueOnes(q[1..], ts, now);
      forall j | 0 <= j < |d| ensures d[j] != q[0] && Get(ts, q[0]).expires <= Get(ts, d[j]).expires {
        assert d[j] in q[1..];
      }
    }
  }

  lemma InsertedDue(q: seq<nat>, ts: Table, t: nat, now: nat)
    requires Get(ts, t).expires > now
    ensures DueOnes(Inserted(q, ts, t), ts, now) == DueOnes(q, ts, now)
  {
    var k := Place(q, ts, Get(ts, t).expires);
    DueOnesJoin(q[..k] + [t], q[k..], ts, now);
    DueOnesJoin(q[..k], [t], ts, now);
    DueOnesJoin(q[..k], q[k..], ts, now);
    assert q[..k] + q[k..] == q;
    assert DueOnes([t], ts, now) == [];
    hide DueOnes; hide Place;
  }

  /** Requeueing a timer beyond now only takes it out of the due ones. */
  lemma RequeuedDue(s: State, t: nat, x: Timer, now: nat)
    requires Distinct(s.queue) && (x.active ==> x.expires > now)
    ensures DueOnes(Requeued(s, t, x).queue, Requeued(s, t, x).timers, now) ==
      Removed(DueOnes(s.queue, s.timers, now), t)
  {
    var ts := s.timers[t := x];
    var q := Removed(s.queue, t);
    RemovedFacts(s.queue, t);
    DueOnesRemoved(s.queue, s.timers, t, now);
    DueOnesFrame(q, s.timers, t, x, now);
    hide DueOnes; hide Removed; hide Inserted; hide Distinct;
    if x.active { InsertedDue(q, ts, t, now); }
  }

  // ---------------------------------------------------------------- the tick

  /** No deadline is across the wrap-around, and no period carries one there. */
  ghost predicate Unwrapped(s: State, now: nat) {
    now < WORD && (forall t :: t in s.queue ==> Near(Get(s.timers, t).expires, now)) &&
    forall t :: t in s.timers ==> s.timers[t].period < HALF && now + s.timers[t].period < WORD
  }

  /** A command given while the tick for now runs, not before it and not across the wrap-around. */
  ghost predicate Timely(c: Command, ts: Table, now: nat) {
    && c.id in ts
    && (c.Add? ==> c.at >= now && c.at + c.delay + 1 < WORD && c.at + c.delay + 1 < now + HALF)
    && (c.Setup? ==> c.period < HALF && now + c.period < WORD)
  }

  /**
   Each timer set up is known not to be queued: it is in idle, or the commands have cancelled it and not added it
   since.
   */
  ghost predicate Prepared(cs: seq<Command>, idle: set<nat>)
    decreases |cs|
  {
    cs == [] ||
    match cs[0]
    case Add(t, _, _) => Prepared(cs[1..], idle - {t})
    case Cancel(t) => Prepared(cs[1..], idle + {t})
    case Setup(t, _) => t in idle && Prepared(cs[1..], idle)
  }

  ghost predicate EachTimely(cs: seq<Command>, ts: Table, now: nat) {
    forall i :: 0 <= i < |cs| ==> Timely(cs[i], ts, now)
  }

  ghost predicate AllTimely(cs: seq<Command>, ts: Table, now: nat) {
    EachTimely(cs, ts, now) && Prepared(cs, {})
  }

  ghost predicate Idle(idle: set<nat>, q: seq<nat>) {
    forall t :: t in idle ==> t !in q
  }

  /** Timers come and go from the queue, not from the table. */
  ghost predicate SameTimers(ts: Table, ts': Table) {
    ts'.Keys == ts.Keys
  }

  lemma RequeuedUnwrapped(s: State, t: nat, x: Timer, now: nat)
    requires Distinct(s.queue) && Unwrapped(s, now) && t in s.timers && x.period == s.timers[t].period
    requires x.active ==> Near(x.expires, now)
    ensures Unwrapped(Requeued(s, t, x), now) && SameTimers(s.timers, Requeued(s, t, x).timers)
  {
    RequeuedTable(s, t, x);
    RequeuedHas(s, t, x);
    hide Requeued; hide Distinct;
  }

  /** Setting up a timer that is not queued leaves what is due as it is. */
  lemma SetUpKeeps(s: State, c: Command, now: nat)
    requires QueueOk(s) && Unwrapped(s, now) && Timely(c, s.timers, now) && c.Setup? && c.id !in s.queue
    ensures QueueOk(Obeyed(s, c)) && Unwrapped(Obeyed(s, c), now) && SameTimers(s.timers, Obeyed(s, c).timers)
    ensures Obeyed(s, c).queue == s.queue
    ensures DueOnes(Obeyed(s, c).queue, Obeyed(s, c).timers, now) == Removed(DueOnes(s.queue, s.timers, now), c.id)
  {
    SetUpOk(s, c.id, c.period);
    DueOnesFrame(s.queue, s.timers, c.id, Timer(0, c.period, false), now);
    DueOnesHas(s.queue, s.timers, now);
    RemovedAbsent(DueOnes(s.queue, s.timers, now), c.id);
    hide DueOnes; hide Removed; hide Sorted; hide Distinct; hide CutAfter;
  }

  lemma RequeuedKeeps(s: State, c: Command, now: nat)
    requires QueueOk(s) && Unwrapped(s, now) && Timely(c, s.timers, now) && !c.Setup?
    ensures QueueOk(Obeyed(s, c)) && Unwrapped(Obeyed(s, c), now) && SameTimers(s.timers, Obeyed(s, c).timers)
    ensures DueOnes(Obeyed(s, c).queue, Obeyed(s, c).timers, now) == Removed(DueOnes(s.queue, s.timers, now), c.id)
    ensures forall y :: y in Obeyed(s, c).queue <==> if y == c.id then c.Add? else y in s.queue
  {
    var x := Ordered(s, c);
    assert x.active ==> Near(x.expires, now) && x.expires > now;
    RequeuedOk(s, c.id, x);
    RequeuedUnwrapped(s, c.id, x, now);
    RequeuedDue(s, c.id, x, now);
    RequeuedHas(s, c.id, x);
    hide DueOnes; hide Requeued; hide Removed; hide Unwrapped; hide Sorted; hide Distinct; hide ActiveQueued;
  }

  lemma ObeyedKeeps(s: State, c: Command, now: nat)
    requires QueueOk(s) && Unwrapped(s, now) && Timely(c, s.timers, now) && (c.Setup? ==> c.id !in s.queue)
    ensures QueueOk(Obeyed(s, c)) && Unwrapped(Obeyed(s, c), now) && SameTimers(s.timers, Obeyed(s, c).timers)
    ensures DueOnes(Obeyed(s, c).queue, Obeyed(s, c).timers, now) == Removed(DueOnes(s.queue, s.timers, now), c.id)
    ensures forall y :: y in Obeyed(s, c).queue <==> if y == c.id then c.Add? else y in s.queue
  {
    hide QueueOk; hide DueOnes; hide Obeyed; hide Removed; hide Unwrapped;
    if c.Setup? { SetUpKeeps(s, c, now); } else { RequeuedKeeps(s, c, now); }
  }

  function Without(d: seq<nat>, cs: seq<Command>): (r: seq<nat>)
    ensures |r| <= |d|
    decreases |cs|
  {
    if cs == [] then d else RemovedShorter(d, cs[0].id); Without(Removed(d, cs[0].id), cs[1..])
  }

  lemma RemovedShorter(q: seq<nat>, t: nat)
    ensures |Removed(q, t)| <= |q|
  {
  }

  /** What is known to be idle after a command. */
  function IdleAfter(idle: set<nat>, c: Command): set<nat> {
    match c
    case Add(t, _, _) => idle - {t}
    case Cancel(t) => idle + {t}
    case Setup(_, _) => idle
  }

  lemma {:induction false} ObeyedAllKeeps(s: State, cs: seq<Command>, now: nat, idle: set<nat>)
    requires QueueOk(s) && Unwrapped(s, now) && EachTimely(cs, s.timers, now) && Prepared(cs, idle) &&
        Idle(idle, s.queue)
    ensures QueueOk(ObeyedAll(s, cs)) && Unwrapped(ObeyedAll(s, cs), now) &&
        SameTimers(s.timers, ObeyedAll(s, cs).timers)
    ensures DueOnes(ObeyedAll(s, cs).queue, ObeyedAll(s, cs).timers, now) == Without(DueOnes(s.queue, s.timers, now),
        cs)
    decreases |cs|
  {
    if cs != [] {
      ObeyedKeeps(s, cs[0], now);
      TimelyFrame(cs[1..], s.timers, Obeyed(s, cs[0]).timers, now);
      hide QueueOk; hide DueOnes; hide Obeyed; hide Removed; hide Unwrapped; hide Timely;
      ObeyedAllKeeps(Obeyed(s, cs[0]), cs[1..], now, IdleAfter(idle, cs[0]));
    }
  }

  lemma TimelyFrame(cs: seq<Command>, ts: Table, ts': Table, now: nat)
    requires EachTimely(cs, ts, now) && ts.Keys == ts'.Keys
    ensures EachTimely(cs, ts', now)
  {
    forall i | 0 <= i < |cs| ensures Timely(cs[i], ts', now) {
      assert Timely(cs[i], ts, now);
      assert cs[i].id in ts.Keys;
    }
  }

  lemma PoppedKeeps(s: State, now: nat)
    requires QueueOk(s) && Unwrapped(s, now) && s.queue != [] && Get(s.timers, s.queue[0]).expires <= now
    ensures QueueOk(Popped(s, now)) && Unwrapped(Popped(s, now), now) && SameTimers(s.timers, Popped(s, now).timers)
    ensures var due := DueOnes(s.queue, s.timers, now);
      due != [] && due[0] == s.queue[0] && DueOnes(Popped(s, now).queue, Popped(s, now).timers, now) == due[1..]
  {
    var t := s.queue[0];
    assert t in s.queue && t in s.timers && s.timers[t].active;
    var x := Rearmed(Get(s.timers, t), now);
    assert x.active ==> Near(x.expires, now) && x.expires > now;
    RequeuedOk(s, t, x);
    RequeuedUnwrapped(s, t, x, now);
    RequeuedDue(s, t, x, now);
    var later := DueOnes(s.queue[1..], s.timers, now);
    assert DueOnes(s.queue, s.timers, now) == [t] + later;
    hide DueOnes; hide Requeued; hide Unwrapped; hide Sorted; hide Distinct; hide ActiveQueued;
  }

  /** The timers a tick fires: each due timer in turn, unless the callbacks before it have taken it away. */
  function FireList(due: seq<nat>, script: nat -> seq<Command>, n: nat): seq<nat>
    decreases |due|
  {
    if due == [] then [] else [due[0]] + FireList(Without(due[1..], script(n)), script, n + 1)
  }

  /** The state once n timers have fired and their callbacks have run. */
  function AfterFiring(s: State, script: nat -> seq<Command>, now: nat, n: nat): State {
    if n == 0 then s
    else
      var before := AfterFiring(s, script, now, n - 1);
      if before.queue == [] then before else ObeyedAll(Popped(before, now), script(n - 1))
  }

  // ---------------------------------------------------------------- what a tick fires

  ghost predicate Touches(cs: seq<Command>, t: nat) {
    exists i :: 0 <= i < |cs| && cs[i].id == t
  }

  lemma TouchesSplit(cs: seq<Command>)
    requires cs != []
    ensures forall x :: Touches(cs, x) <==> cs[0].id == x || Touches(cs[1..], x)
  {
    forall x ensures Touches(cs, x) <==> cs[0].id == x || Touches(cs[1..], x) {
      if Touches(cs[1..], x) {
        var i :| 0 <= i < |cs[1..]| && cs[1..][i].id == x;
        assert cs[i + 1].id == x;
      }
    }
  }

  lemma {:induction false} WithoutFacts(d: seq<nat>, cs: seq<Command>)
    requires Distinct(d)
    ensures Distinct(Without(d, cs)) && forall x :: x in Without(d, cs) <==> x in d && !Touches(cs, x)
    decreases |cs|
  {
    if cs != [] {
      RemovedFacts(d, cs[0].id);
      WithoutFacts(Removed(d, cs[0].id), cs[1..]);
      hide Removed; hide Distinct;
      TouchesSplit(cs);
    }
  }

  lemma {:induction false} WithoutSorted(d: seq<nat>, cs: seq<Command>, ts: Table)
    requires Sorted(d, ts)
    ensures Sorted(Without(d, cs), ts)
    decreases |cs|
  {
    if cs != [] {
      RemovedSorted(d, ts, cs[0].id);
      WithoutSorted(Removed(d, cs[0].id), cs[1..], ts);
    }
  }

  lemma {:induction false} FireListOrder(due: seq<nat>, script: nat -> seq<Command>, n: nat, ts: Table)
    requires Distinct(due) && Sorted(due, ts)
    ensures Distinct(FireList(due, script, n)) && Sorted(FireList(due, script, n), ts)
    ensures forall t :: t in FireList(due, script, n) ==> t in due
    decreases |due|
  {
    if due != [] {
      var rest := Without(due[1..], script(n));
      WithoutFacts(due[1..], script(n));
      WithoutSorted(due[1..], script(n), ts);
      hide Without;
      FireListOrder(rest, script, n + 1, ts);
      var f := FireList(rest, script, n + 1);
      forall j | 0 <= j < |f| ensures f[j] != due[0] && Get(ts, due[0]).expires <= Get(ts, f[j]).expires {
        assert f[j] in rest && f[j] in due[1..];
      }
    }
  }

  /** A due timer is fired unless a callback run before its turn touched it, and then it is not. */
  lemma {:induction false} FiredUnlessTouched(due: seq<nat>, script: nat -> seq<Command>, n: nat, t: nat)
    requires Distinct(due) && t in due
    ensures t in FireList(due, script, n) ||
      exists m :: n <= m < n + |FireList(due, script, n)| && Touches(script(m), t)
    ensures var f := FireList(due, script, n);
      forall j, m :: 0 <= j < |f| && f[j] == t && n <= m < n + j ==> !Touches(script(m), t)
    decreases |due|
  {
    var rest := Without(due[1..], script(n));
    WithoutFacts(due[1..], script(n));
    var f := FireList(rest, script, n + 1);
    FireListOrder(rest, script, n + 1, map[]);
    assert FireList(due, script, n) == [due[0]] + f;
    hide FireList; hide Without; hide Touches; hide Distinct;
    if t in rest {
      FiredUnlessTouched(rest, script, n + 1, t);
      if t !in f {
        var m :| n + 1 <= m < n + 1 + |f| && Touches(script(m), t);
      }
    } else {
      assert t == due[0] || Touches(script(n), t);
      assert t !in f;
    }
  }

  lemma {:induction false} FireListAll(due: seq<nat>, script: nat -> seq<Command>, n: nat)
    requires forall m, t :: t in due && n <= m < n + |due| ==> !Touches(script(m), t)
    requires Distinct(due)
    ensures FireList(due, script, n) == due
    decreases |due|
  {
    if due != [] {
      assert forall t :: t in due[1..] ==> t in due;
      WithoutNone(due[1..], script(n));
      FireListAll(due[1..], script, n + 1);
    }
  }

  lemma {:induction false} WithoutNone(d: seq<nat>, cs: seq<Command>)
    requires forall t :: t in d ==> !Touches(cs, t)
    ensures Without(d, cs) == d
    decreases |cs|
  {
    if cs != [] {
      TouchesSplit(cs);
      assert Touches(cs, cs[0].id);
      RemovedAt(d, cs[0].id, |d|);
      WithoutNone(d, cs[1..]);
    }
  }

  function Position(q: seq<nat>, t: nat): nat {
    if q == [] || q[0] == t then 0 else 1 + Position(q[1..], t)
  }

  lemma {:induction false} PositionAt(q: seq<nat>, i: nat)
    requires Distinct(q) && i < |q|
    ensures Position(q, q[i]) == i
  {
    if i > 0 { PositionAt(q[1..], i - 1); }
  }

  /** Timers are fired in the order of the queue. */
  lemma FiredInQueueOrder(due: seq<nat>, script: nat -> seq<Command>, n: nat)
    requires Distinct(due)
    ensures var f := FireList(due, script, n);
      forall i, j :: 0 <= i < j < |f| ==> Position(due, f[i]) < Position(due, f[j])
  {
    var rank := map t | t in due :: Timer(Position(due, t), 0, false);
    forall i | 0 <= i < |due| ensures Get(rank, due[i]).expires == i { PositionAt(due, i); }
    FireListOrder(due, script, n, rank);
    var f := FireList(due, script, n);
    hide FireList; hide Position;
    forall i, j | 0 <= i < j < |f|
      ensures Position(due, f[i]) < Position(due, f[j]) {
      assert f[i] in due && f[j] in due && f[i] != f[j];
      assert Get(rank, f[i]).expires <= Get(rank, f[j]).expires;
    }
  }

  /** One of the first n callbacks adds or cancels t. */
  ghost predicate TouchedBy(script: nat -> seq<Command>, n: nat, t: nat) {
    exists m: nat :: m < n && Touches(script(m), t)
  }

  /**
   A tick fires each timer at most once, in deadline order, and only timers that were queued and due; a due timer
   that no callback of the tick touches is fired.
   */
  lemma TickFires(s: State, now: nat, script: nat -> seq<Command>)
    requires QueueOk(s)
    ensures var f := FireList(DueOnes(s.queue, s.timers, now), script, 0);
      && Distinct(f) && Sorted(f, s.timers)
      && (forall t :: t in f ==> t in s.queue && Get(s.timers, t).expires <= now)
      && (forall t :: t in s.queue && Get(s.timers, t).expires <= now && !TouchedBy(script, |f|, t) ==> t in f)
  {
    var due := DueOnes(s.queue, s.timers, now);
    DueOnesOrdered(s.queue, s.timers, now);
    DueOnesHas(s.queue, s.timers, now);
    FireListOrder(due, script, 0, s.timers);
    hide FireList; hide DueOnes; hide Sorted; hide Distinct;
    forall t | t in due ensures t in FireList(due, script, 0) || TouchedBy(script, |FireList(due, script, 0)|, t) {
      FiredUnlessTouched(due, script, 0, t);
    }
  }

  // ---------------------------------------------------------------- the order of additions

  /** x is queued somewhere before y. */
  ghost predicate Before(q: seq<nat>, x: nat, y: nat) {
    exists i, j :: 0 <= i < j < |q| && q[i] == x && q[j] == y
  }

  lemma {:induction false} BeforeRemoved(q: seq<nat>, t: nat, x: nat, y: nat)
    requires Before(q, x, y) && t != x && t != y
    ensures Before(Removed(q, t), x, y)
  {
    var i, j :| 0 <= i < j < |q| && q[i] == x && q[j] == y;
    var k := First(q, t);
    RemovedAt(q, t, k);
    if k < |q| {
      var r := q[..k] + q[k + 1..];
      var i', j' := if i < k then i else i - 1, if j < k then j else j - 1;
      assert r[i'] == x && r[j'] == y;
    }
  }

  /** The place of the first t, or the length. */
  function First(q: seq<nat>, t: nat): (k: nat)
    ensures k <= |q| && (forall i :: 0 <= i < k ==> q[i] != t) && (k < |q| ==> q[k] == t)
  {
    if q == [] || q[0] == t then 0 else 1 + First(q[1..], t)
  }

  lemma BeforeInserted(q: seq<nat>, ts: Table, t: nat, x: nat, y: nat)
    requires Before(q, x, y)
    ensures Before(Inserted(q, ts, t), x, y)
  {
    var i, j :| 0 <= i < j < |q| && q[i] == x && q[j] == y;
    var k := Place(q, ts, Get(ts, t).expires);
    InsertedAt(q, ts, t, k);
    var r := Inserted(q, ts, t);
    var i', j' := if i < k then i else i + 1, if j < k then j else j + 1;
    assert r[i'] == x && r[j'] == y;
  }

  /** A timer is inserted after each one whose deadline is no later. */
  lemma InsertedAfter(q: seq<nat>, ts: Table, t: nat, x: nat)
    requires Sorted(q, ts) && x in q && Get(ts, x).expires <= Get(ts, t).expires
    ensures Before(Inserted(q, ts, t), x, t)
  {
    var k := Place(q, ts, Get(ts, t).expires);
    InsertedAt(q, ts, t, k);
    var i :| 0 <= i < |q| && q[i] == x;
    assert i < k;
    assert Inserted(q, ts, t)[i] == x && Inserted(q, ts, t)[k] == t;
  }

  /** A command for another timer leaves the order of two timers as it is. */
  lemma OrderKept(s: State, c: Command, x: nat, y: nat)
    requires Before(s.queue, x, y) && c.id != x && c.id != y && (c.Setup? ==> c.id !in s.queue)
    ensures Before(Obeyed(s, c).queue, x, y)
  {
    if c.Setup? {
      CutAbsent(s.queue, c.id);
    } else {
      BeforeRemoved(s.queue, c.id, x, y);
      var ts := s.timers[c.id := Ordered(s, c)];
      if c.Add? { BeforeInserted(Removed(s.queue, c.id), ts, c.id, x, y); }
      hide Inserted; hide Removed; hide Before;
    }
  }

  lemma {:induction false} OrderKeptAll(s: State, cs: seq<Command>, x: nat, y: nat, now: nat, idle: set<nat>)
    requires QueueOk(s) && Unwrapped(s, now) && EachTimely(cs, s.timers, now) && Prepared(cs, idle) &&
        Idle(idle, s.queue)
    requires Before(s.queue, x, y) && !Touches(cs, x) && !Touches(cs, y)
    ensures Before(ObeyedAll(s, cs).queue, x, y)
    decreases |cs|
  {
    if cs != [] {
      TouchesSplit(cs);
      assert Timely(cs[0], s.timers, now);
      ObeyedKeeps(s, cs[0], now);
      OrderKept(s, cs[0], x, y);
      TimelyFrame(cs[1..], s.timers, Obeyed(s, cs[0]).timers, now);
      hide QueueOk; hide DueOnes; hide Obeyed; hide Removed; hide Unwrapped; hide Timely; hide Before; hide Touches;
      OrderKeptAll(Obeyed(s, cs[0]), cs[1..], x, y, now, IdleAfter(idle, cs[0]));
    }
  }

  /**
   Among equal deadlines the queue is in the order of the additions: when x is queued as y is added, with a deadline
   that is no later, x stays before y as long as no command touches either.
   */
  lemma AdditionOrder(s: State, y: nat, at: nat, delay: nat, cs: seq<Command>, x: nat, now: nat)
    requires QueueOk(s) && Unwrapped(s, now) && Timely(Command.Add(y, at, delay), s.timers, now)
    requires x in s.queue && x != y && Get(s.timers, x).expires <= Deadline(at, delay)
    requires AllTimely(cs, s.timers, now) && !Touches(cs, x) && !Touches(cs, y)
    ensures Before(ObeyedAll(Obeyed(s, Command.Add(y, at, delay)), cs).queue, x, y)
  {
    var c := Command.Add(y, at, delay);
    var t := Obeyed(s, c);
    ObeyedKeeps(s, c, now);
    AddedAfter(s, c, x);
    TimelyFrame(cs, s.timers, t.timers, now);
    hide QueueOk; hide Obeyed; hide Unwrapped; hide Before; hide Touches; hide DueOnes; hide Removed;
    OrderKeptAll(t, cs, x, y, now, {});
  }

  lemma AddedAfter(s: State, c: Command, x: nat)
    requires QueueOk(s) && c.Add? && x in s.queue && x != c.id && Get(s.timers, x).expires <= Deadline(c.at, c.delay)
    ensures Before(Obeyed(s, c).queue, x, c.id)
  {
    var ts := s.timers[c.id := Ordered(s, c)];
    var q := Removed(s.queue, c.id);
    RemovedFacts(s.queue, c.id);
    RemovedSorted(s.queue, s.timers, c.id);
    SortedFrame(q, s.timers, c.id, Ordered(s, c));
    hide Removed; hide Inserted; hide Distinct; hide ActiveQueued;
    InsertedAfter(q, ts, c.id, x);
  }

  // ---------------------------------------------------------------- across the wrap-around

  /** What the tick's loop relies on: no timer that is due waits behind one that is not. */
  ghost predicate DueInFront(q: seq<nat>, ts: Table, now: nat) {
    forall i, j :: 0 <= i < j < |q| && Due(Get(ts, q[j]).expires, now) ==> Due(Get(ts, q[i]).expires, now)
  }

  /**
   Of a queue in unsigned order the due timers are in front exactly when each has a smaller deadline than any that
   is not due.
   */
  lemma DueInFrontExactly(q: seq<nat>, ts: Table, now: nat)
    requires Sorted(q, ts)
    ensures DueInFront(q, ts, now) <==>
      forall d, e :: d in q && e in q && Due(Get(ts, d).expires, now) && !Due(Get(ts, e).expires, now)
        ==> Get(ts, d).expires < Get(ts, e).expires
  {
    hide Due;
    if DueInFront(q, ts, now) {
      forall d, e | d in q && e in q && Due(Get(ts, d).expires, now) && !Due(Get(ts, e).expires, now)
        ensures Get(ts, d).expires < Get(ts, e).expires
      {
        var i :| 0 <= i < |q| && q[i] == d;
        var j :| 0 <= j < |q| && q[j] == e;
        assert i < j;
      }
    }
  }

  lemma DueRange(expires: nat, now: nat)
    requires expires < WORD && now < WORD
    ensures Due(expires, now) <==> expires >= now + HALF || (now <= expires + HALF && expires <= now)
  {
    if expires < now { assert (expires - now) % WORD == expires - now + WORD; }
  }

  /**
   A timer whose deadline, read without sign, lies on the wrong side of the tick: due but far ahead, or not due but
   far behind.
   */
  predicate Astray(expires: nat, now: nat) {
    if Due(expires, now) then expires >= now + HALF else expires + HALF < now
  }

  /**
   A due timer waits behind one that is not due exactly when some deadline is across the wrap-around from the tick:
   a due one 2^31 or more above it while something is not due, or one that is not due more than 2^31 below it while
   something is due.
   */
  lemma WrapExactly(q: seq<nat>, ts: Table, now: nat)
    requires Sorted(q, ts) && now < WORD && forall t :: t in q ==> Get(ts, t).expires < WORD
    ensures !DueInFront(q, ts, now) <==>
      exists d, e :: d in q && e in q && Due(Get(ts, d).expires, now) && !Due(Get(ts, e).expires, now)
        && (Astray(Get(ts, d).expires, now) || Astray(Get(ts, e).expires, now))
  {
    DueInFrontExactly(q, ts, now);
    forall t | t in q
      ensures var x := Get(ts, t).expires; Due(x, now) <==> x >= now + HALF || (now <= x + HALF && x <= now)
    {
      DueRange(Get(ts, t).expires, now);
    }
    hide Due; hide DueInFront; hide Sorted;
  }

  /** Across the wrap-around the two comparisons disagree: a timer that is due waits behind one that is not. */
  lemma WrapDelays()
    ensures var ts: Table := map[0 := Timer(WORD - 5, 0, true), 1 := Timer(Deadline(WORD - 10, 20), 0, true)];
      Inserted([0], ts, 1) == [1, 0] && Due(ts[0].expires, WORD - 5) && !Due(ts[1].expires, WORD - 5)
  {
    var ts: Table := map[0 := Timer(WORD - 5, 0, true), 1 := Timer(Deadline(WORD - 10, 20), 0, true)];
    PlaceIs([0], ts, 10, 0);
  }

  // ---------------------------------------------------------------- the queue in place

  /** Nothing that runs during the tick adds or cancels t. */
  ghost predicate Untouched(script: nat -> seq<Command>, t: nat) {
    forall n :: !Touches(script(n), t)
  }

  /** A timer left alone is re-armed, or dropped, exactly when it was fired. */
  ghost predicate Settled(ts: Table, ts': Table, script: nat -> seq<Command>, now: nat, fired: seq<nat>) {
    forall t :: t in ts && Untouched(script, t) ==> t in ts' && ts'[t] == if t in fired then Rearmed(ts[t], now)
        else ts[t]
  }

  lemma {:induction false} ObeyedAllFrame(s: State, cs: seq<Command>, t: nat)
    requires t in s.timers && !Touches(cs, t)
    ensures t in ObeyedAll(s, cs).timers && ObeyedAll(s, cs).timers[t] == s.timers[t]
    decreases |cs|
  {
    if cs != [] {
      TouchesSplit(cs);
      if !cs[0].Setup? { RequeuedTable(s, cs[0].id, Ordered(s, cs[0])); }
      hide Requeued; hide Touches;
      ObeyedAllFrame(Obeyed(s, cs[0]), cs[1..], t);
    }
  }

  lemma SettledStep(ts: Table, s: State, script: nat -> seq<Command>, now: nat, fired: seq<nat>)
    requires QueueOk(s) && Unwrapped(s, now) && s.queue != [] && Get(s.timers, s.queue[0]).expires <= now
    requires SameTimers(ts, s.timers) && Settled(ts, s.timers, script, now, fired)
    ensures Settled(ts, ObeyedAll(Popped(s, now), script(|fired|)).timers, script, now, fired + [s.queue[0]])
  {
    var h := s.queue[0];
    assert h in s.queue && h in s.timers && s.timers[h].active;
    assert now + s.timers[h].period < WORD;
    RequeuedTable(s, h, Rearmed(Get(s.timers, h), now));
    var p := Popped(s, now);
    assert p.timers == s.timers[h := Rearmed(s.timers[h], now)];
    assert h in ts.Keys;
    assert Untouched(script, h) ==> h !in fired;
    hide Requeued; hide ObeyedAll; hide QueueOk; hide Unwrapped; hide Touches; hide Popped; hide SameTimers;
    hide Sorted; hide Distinct;
    hide ActiveQueued; hide Rearmed;
    assert forall t :: t in ts && Untouched(script, t) ==> t in s.timers;
    forall t | t in ts && Untouched(script, t)
      ensures t in ObeyedAll(p, script(|fired|)).timers
      ensures ObeyedAll(p, script(|fired|)).timers[t] == if t in fired + [h] then Rearmed(ts[t], now) else ts[t]
    {
      assert t in p.timers && !Touches(script(|fired|), t);
      ObeyedAllFrame(p, script(|fired|), t);
    }
  }

  class TimerQueue {
    var queue: seq<nat>
    var timers: Table

    ghost function View(): State
      reads this
    {
      State(queue, timers)
    }

    ghost predicate Valid()
      reads this
    {
      QueueOk(View())
    }

    constructor ()
      ensures Valid() && queue == [] && timers == map[]
    {
      queue, timers := [], map[];
    }

    /** The queue stays in order exactly when the timer was not queued. */
    method Setup(t: nat, period: nat)
      requires Valid()
      modifies this
      ensures View() == SetUp(old(View()), t, period)
      ensures Valid() <==> t !in old(queue)
      ensures t !in old(queue) ==> queue == old(queue)
    {
      SetUpOk(View(), t, period);
      hide QueueOk; hide CutAfter;
      queue := CutAfter(queue, t);
      timers := timers[t := Timer(0, period, false)];
    }

    method QueueInsert(t: nat)
      requires t in timers && forall i :: 0 <= i < |queue| ==> queue[i] in timers
      modifies `queue
      ensures queue == Inserted(old(queue), timers, t)
    {
      var k := 0;
      while k < |queue| && timers[queue[k]].expires <= timers[t].expires
        invariant k <= |queue| && queue == old(queue)
        invariant forall i :: 0 <= i < k ==> timers[queue[i]].expires <= timers[t].expires
      {
        k := k + 1;
      }
      PlaceIs(queue, timers, timers[t].expires, k);
      queue := queue[..k] + [t] + queue[k..];
    }

    method QueueRemove(t: nat)
      modifies `queue
      ensures queue == Removed(old(queue), t)
    {
      var k := 0;
      while k < |queue|
        invariant k <= |queue| && queue == old(queue)
        invariant forall i :: 0 <= i < k ==> queue[i] != t
      {
        if queue[k] == t {
          RemovedAt(queue, t, k);
          queue := queue[..k] + queue[k + 1..];
          return;
        }
        k := k + 1;
      }
      RemovedAt(queue, t, |queue|);
    }

    /** Arms a timer, moving it when it is already armed. */
    method Add(t: nat, at: nat, delay: nat)
      requires Valid() && t in timers
      modifies this
      ensures Valid() && View() == Obeyed(old(View()), Command.Add(t, at, delay))
    {
      ghost var before := View();
      RequeuedOk(before, t, Ordered(before, Command.Add(t, at, delay)));
      RemovedAbsent(queue, t);
      RemovedFacts(queue, t);
      hide Distinct; hide Sorted; hide Removed; hide Inserted;
      if timers[t].active { QueueRemove(t); }
      assert queue == Removed(before.queue, t);
      timers := timers[t := Timer(Deadline(at, delay), timers[t].period, true)];
      QueueInsert(t);
    }

    method Cancel(t: nat) returns (result: int)
      requires Valid() && t in timers
      modifies this
      ensures Valid() && View() == Obeyed(old(View()), Command.Cancel(t))
      ensures result == if old(t in queue) then 0 else -1
      ensures t !in queue
    {
      ghost var before := View();
      RequeuedOk(before, t, Ordered(before, Command.Cancel(t)));
      RemovedAbsent(queue, t);
      RemovedFacts(queue, t);
      hide Distinct; hide Sorted; hide Removed; hide Inserted;
      var wasActive := timers[t].active;
      if wasActive {
        QueueRemove(t);
        timers := timers[t := timers[t].(active := false)];
      }
      assert timers == before.timers[t := before.timers[t].(active := false)];
      result := if wasActive then 0 else -1;
    }

    /** The calls of one callback; idle are timers known not to be queued. */
    method Obey(cs: seq<Command>, ghost now: nat, ghost idle: set<nat>)
      requires Valid() && Unwrapped(View(), now)
      requires EachTimely(cs, timers, now) && Prepared(cs, idle) && Idle(idle, queue)
      modifies this
      ensures View() == ObeyedAll(old(View()), cs)
      ensures Valid() && Unwrapped(View(), now) && SameTimers(old(timers), timers)
      ensures DueOnes(queue, timers, now) == Without(DueOnes(old(queue), old(timers), now), cs)
      decreases |cs|
    {
      ObeyedAllKeeps(View(), cs, now, idle);
      if cs != [] {
        assert Timely(cs[0], timers, now);
        ObeyedKeeps(View(), cs[0], now);
        ghost var keys := timers;
        hide QueueOk; hide DueOnes; hide Requeued; hide SetUp; hide Removed; hide Unwrapped; hide Without;
        match cs[0] {
          case Add(t, at, delay) => Add(t, at, delay);
          case Cancel(t) => var _ := Cancel(t);
          case Setup(t, period) => Setup(t, period);
        }
        TimelyFrame(cs[1..], keys, timers, now);
        Obey(cs[1..], now, IdleAfter(idle, cs[0]));
      }
    }

    /** Takes the first timer off the queue and re-arms it when it is periodic. */
    method PopFirst(now: nat) returns (t: nat)
      requires Valid() && queue != []
      modifies this
      ensures t == old(queue)[0] && View() == Popped(old(View()), now)
    {
      t := queue[0];
      assert t in queue && t in timers && forall i :: 0 <= i < |queue| ==> queue[i] in timers;
      hide QueueOk; hide Inserted; hide Place; hide Sorted; hide Distinct; hide ActiveQueued;
      assert Removed(queue, t) == queue[1..];
      hide Removed;
      queue := queue[1..];
      if timers[t].period != 0 {
        timers := timers[t := timers[t].(expires := (now + timers[t].period) % WORD)];
        QueueInsert(t);
      } else {
        timers := timers[t := timers[t].(active := false)];
      }
    }

    /** Fires the first timer: cs is what runs while its callback has the lock released. */
    method FireFirst(now: nat, cs: seq<Command>) returns (t: nat)
      requires Valid() && Unwrapped(View(), now) && AllTimely(cs, timers, now)
      requires queue != [] && Get(timers, queue[0]).expires <= now
      modifies this
      ensures Valid() && Unwrapped(View(), now) && SameTimers(old(timers), timers)
      ensures t == old(queue)[0] && View() == ObeyedAll(Popped(old(View()), now), cs)
      ensures var due := DueOnes(old(queue), old(timers), now);
        due != [] && due[0] == t && DueOnes(queue, timers, now) == Without(due[1..], cs)
    {
      ghost var before := View();
      PoppedKeeps(before, now);
      hide QueueOk; hide DueOnes; hide Popped; hide Unwrapped; hide Without; hide ObeyedAll;
      t := PopFirst(now);
      TimelyFrame(cs, before.timers, timers, now);
      Obey(cs, now, {});
    }

    /** The tick for now: script(n) is what runs while the n-th callback has the lock released. */
    method Tick(now: nat, script: nat -> seq<Command>) returns (fired: seq<nat>)
      requires Valid() && Unwrapped(View(), now)
      requires forall n :: AllTimely(script(n), timers, now)
      modifies this
      ensures Valid() && Unwrapped(View(), now) && SameTimers(old(timers), timers)
      ensures fired == FireList(DueOnes(old(queue), old(timers), now), script, 0)
      ensures View() == AfterFiring(old(View()), script, now, |fired|)
      ensures DueOnes(queue, timers, now) == []
      ensures Settled(old(timers), timers, script, now, fired)
    {
      fired := [];
      ghost var start := View();
      hide QueueOk; hide DueOnes; hide Popped; hide Unwrapped; hide Without; hide ObeyedAll; hide FireList;
      hide AfterFiring;
      hide Settled; SettledNone(timers, script, now);
      AfterNone(start, script, now);
      while queue != [] && DueFirst(now)
        invariant Valid() && Unwrapped(View(), now) && SameTimers(start.timers, timers)
        invariant fired + FireList(DueOnes(queue, timers, now), script, |fired|)
               == FireList(DueOnes(start.queue, start.timers, now), script, 0)
        invariant View() == AfterFiring(start, script, now, |fired|)
        invariant Settled(start.timers, timers, script, now, fired)
        decreases |DueOnes(queue, timers, now)|
      {
        TimelyFrame(script(|fired|), start.timers, timers, now);
        FireListStep(DueOnes(queue, timers, now), script, |fired|);
        AfterStep(start, script, now, |fired|);
        SettledStep(start.timers, View(), script, now, fired);
        var t := FireFirst(now, script(|fired|));
        fired := fired + [t];
      }
      if queue == [] { NoneQueued(timers, now); }
      FireNone(script, |fired|);
    }

    /** The signed comparison of the first deadline with now. */
    predicate DueFirst(now: nat): (due: bool)
      requires Valid() && Unwrapped(View(), now) && queue != []
      reads this
      ensures due <==> Get(timers, queue[0]).expires <= now
      ensures !due ==> DueOnes(queue, timers, now) == []
    {
      assert queue[0] in queue;
      DueIsPast(Get(timers, queue[0]).expires, now);
      NothingDueFirst(queue, timers, now);
      Due(timers[queue[0]].expires, now)
    }
  }

  lemma SettledNone(ts: Table, script: nat -> seq<Command>, now: nat)
    ensures Settled(ts, ts, script, now, [])
  {
  }

  lemma NoneQueued(ts: Table, now: nat)
    ensures DueOnes([], ts, now) == []
  {
  }

  lemma FireNone(script: nat -> seq<Command>, n: nat)
    ensures FireList([], script, n) == []
  {
  }

  lemma FireListStep(due: seq<nat>, script: nat -> seq<Command>, n: nat)
    ensures due != [] ==> FireList(due, script, n) == [due[0]] + FireList(Without(due[1..], script(n)), script, n + 1)
  {
  }

  lemma AfterNone(s: State, script: nat -> seq<Command>, now: nat)
    ensures AfterFiring(s, script, now, 0) == s
  {
  }

  lemma AfterStep(s: State, script: nat -> seq<Command>, now: nat, n: nat)
    ensures var before := AfterFiring(s, script, now, n);
      before.queue != [] ==> AfterFiring(s, script, now, n + 1) == ObeyedAll(Popped(before, now), script(n))
  {
  }

  lemma NothingDueFirst(q: seq<nat>, ts: Table, now: nat)
    requires Sorted(q, ts) && q != []
    ensures Get(ts, q[0]).expires > now ==> DueOnes(q, ts, now) == []
  {
    if Get(ts, q[0]).expires > now { NothingDue(q, ts, now); }
  }
}
