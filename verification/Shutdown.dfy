/**
 The scheduled shutdown on top of the timer queue.

 Times are in ticks of a 100 Hz clock.  Each operation takes the tick counts it reads as parameters.  Bringing the
 machine down is the flag `down`; the message is left out.  The tick takes a timer off the queue and gives up the
 lock before it calls the timer's function, so other code can run while the shutdown's timer is in flight.
 */
module Shutdown {
  import opened Basics
  import opened Timers

  const HZ: nat := 100
  const DEFAULT_MS: nat := 600000

  datatype Mode = PowerOff | Reboot | Halt

  // ---------------------------------------------------------------- milliseconds and ticks

  /** Milliseconds rounded up to ticks, in 32-bit arithmetic. */
  function ToTicks(ms: nat): nat {
    ((ms * HZ) % WORD + 999) % WORD / 1000
  }

  /** The conversion never gives less time than asked for exactly when its product, rounded up, fits a word. */
  lemma ToTicksRoundsUp(ms: nat)
    requires ms < WORD
    ensures ToTicks(ms) * 10 >= ms <==> ms * HZ + 999 < WORD
    ensures ms * HZ + 999 < WORD && ToTicks(ms) > 0 ==> (ToTicks(ms) - 1) * 10 < ms
  {
    if ms * HZ + 999 >= WORD {
      assert ms >= 42949663;
      if ms > 42949670 { assert ToTicks(ms) <= 4294967; } else {
        assert (ms * HZ) % WORD + 999 < WORD + 999;
      }
    }
  }

  function Ticks(ms: nat): nat {
    if ToTicks(ms) == 0 then 1 else ToTicks(ms)
  }

  /** The deadline kept for showing the time left. */
  function Noted(now: nat, ms: nat): nat {
    (now + Ticks(ms)) % WORD
  }

  /** The signed 32-bit difference, nothing when it is not positive, in milliseconds, in 32-bit arithmetic. */
  function Remaining(deadline: nat, now: nat): nat {
    var left := (deadline - now) % WORD;
    if left == 0 || left >= HALF then 0 else left * 1000 % WORD / HZ
  }

  /** The arithmetic alone: the result is the time left exactly when the product fits a word. */
  lemma RemainingExactly(deadline: nat, now: nat)
    requires now <= deadline < now + HALF
    ensures Remaining(deadline, now) == (deadline - now) * 10 <==> (deadline - now) * 1000 < WORD
  {
    var left := deadline - now;
    assert (deadline - now) % WORD == left;
    if left * 1000 >= WORD { assert left * 1000 % WORD < WORD; }
  }

  lemma TicksBound(ms: nat)
    ensures 1 <= Ticks(ms) <= 4294967
  {
  }

  /**
   For every deadline that scheduling notes the time shown is right: the time left, and 0 once it has passed.  No
   delay leaves more than 4294967 ticks, so the product always fits a word; the tick counts may have wrapped around.
   */
  lemma TimeLeft(readAt: nat, ms: nat, now: nat)
    requires readAt <= now < readAt + Ticks(ms) + HALF
    ensures Remaining(Noted(readAt, ms), now % WORD)
      == if now < readAt + Ticks(ms) then (readAt + Ticks(ms) - now) * 10 else 0
  {
    TicksBound(ms);
    var due := readAt + Ticks(ms);
    hide Ticks;
    WrappedLeft(due, now);
    LeftRange(due, now);
  }

  lemma LeftRange(due: nat, now: nat)
    requires now < due + HALF && due < now + HALF
    ensures var left := (due - now) % WORD;
      if now < due then left == due - now else left == 0 || left >= HALF
  {
    if now > due { assert (due - now) % WORD == due - now + WORD; }
  }

  // ---------------------------------------------------------------- the state and its steps

  /**
   The timers, and what shutdown.c keeps; inFlight while the tick has the shutdown's timer and has not called its
   function.
   */
  datatype World = World(s: State, active: bool, mode: Mode, deadline: nat, inFlight: bool, down: bool)

  /** Other is a call of the timer queue by other code. */
  datatype Event = Schedule(mode: Mode, delayMs: nat, armedAt: nat, readAt: nat) | CancelIt | Take(now: nat) | Callback
    | Other(command: Command)

  function Cancelled(w: World, t: nat): World {
    if w.active then w.(s := Obeyed(w.s, Command.Cancel(t)), active := false) else w
  }

  /** Setting the timer up and arming it, after cancel_shutdown. */
  function Armed(w: World, t: nat, e: Event): World
    requires e.Schedule?
  {
    var ready := Obeyed(w.s, Command.Setup(t, 0));
    w.(s := Obeyed(ready, Command.Add(t, e.armedAt, ToTicks(e.delayMs))), active := true, mode := e.mode,
       deadline := Noted(e.readAt, e.delayMs))
  }

  /** Other code leaves the shutdown's timer alone and sets up no timer that is queued. */
  predicate Elsewhere(c: Command, s: State, t: nat) {
    c.id != t && c.id in s.timers && (c.Setup? ==> c.id !in s.queue)
  }

  function Step(w: World, t: nat, e: Event): World {
    if w.down then w
    else
      match e
      case CancelIt => Cancelled(w, t)
      case Schedule(_, _, _, _) => Armed(Cancelled(w, t), t, e)
      case Take(now) =>
        if !w.inFlight && w.s.queue != [] && Due(Get(w.s.timers, w.s.queue[0]).expires, now)
        then w.(s := Popped(w.s, now), inFlight := w.s.queue[0] == t)
        else w
      case Callback =>
        if !w.inFlight then w
        else w.(inFlight := false, active := false, down := w.active)
      case Other(c) => if Elsewhere(c, w.s, t) then w.(s := Obeyed(w.s, c)) else w
  }

  /**
   A shutdown whose timer is queued is pending, and outside the tick's hands a pending one is queued; the timer is
   one-shot.
   */
  ghost predicate Sound(w: World, t: nat) {
    && QueueOk(w.s) && t in w.s.timers && w.s.timers[t].period == 0
    && (!w.down ==> (t in w.s.queue ==> w.active) && (w.active && !w.inFlight ==> t in w.s.queue))
  }

  /** Setting up a timer that is not queued and arming it leaves it queued. */
  lemma ArmedKeeps(s: State, t: nat, at: nat, delay: nat)
    requires QueueOk(s) && t in s.timers && t !in s.queue
    ensures var armed := Obeyed(Obeyed(s, Command.Setup(t, 0)), Command.Add(t, at, delay));
      && QueueOk(armed) && t in armed.queue && t in armed.timers &&
         armed.timers[t] == Timer(Deadline(at, delay), 0, true)
      && armed.timers.Keys == s.timers.Keys && forall x :: x in s.timers && x != t ==> armed.timers[x] == s.timers[x]
  {
    SetUpOk(s, t, 0);
    var ready := Obeyed(s, Command.Setup(t, 0));
    var x := Ordered(ready, Command.Add(t, at, delay));
    RequeuedOk(ready, t, x);
    RequeuedHas(ready, t, x);
    RequeuedTable(ready, t, x);
    hide Requeued; hide CutAfter; hide Sorted; hide Distinct; hide Deadline;
  }

  /** After cancel_shutdown the timer is not queued: setting it up cannot hurt the queue. */
  lemma CancelledIdle(w: World, t: nat)
    requires Sound(w, t) && !w.down
    ensures t !in Cancelled(w, t).s.queue && Sound(Cancelled(w, t), t) && !Cancelled(w, t).active
    ensures Cancelled(w, t).s.timers.Keys == w.s.timers.Keys
    ensures forall x :: x in w.s.timers && x != t ==> Cancelled(w, t).s.timers[x] == w.s.timers[x]
  {
    if w.active {
      var x := Ordered(w.s, Command.Cancel(t));
      RequeuedOk(w.s, t, x);
      RequeuedHas(w.s, t, x);
      RequeuedTable(w.s, t, x);
      hide Requeued; hide Sorted; hide Distinct;
    }
  }

  lemma OtherKeeps(w: World, t: nat, c: Command)
    requires Sound(w, t) && Elsewhere(c, w.s, t)
    ensures var s' := Obeyed(w.s, c);
      QueueOk(s') && (t in s'.queue <==> t in w.s.queue) && t in s'.timers && s'.timers[t] == w.s.timers[t]
  {
    if c.Setup? {
      SetUpOk(w.s, c.id, c.period);
      hide CutAfter; hide Sorted; hide Distinct;
    } else {
      var x := Ordered(w.s, c);
      RequeuedOk(w.s, c.id, x);
      RequeuedHas(w.s, c.id, x);
      RequeuedTable(w.s, c.id, x);
      hide Requeued; hide Sorted; hide Distinct;
    }
  }

  lemma TakeKeeps(w: World, t: nat, now: nat)
    requires Sound(w, t) && w.s.queue != []
    ensures var s' := Popped(w.s, now); var h := w.s.queue[0];
      && QueueOk(s') && t in s'.timers && s'.timers[t].period == 0
      && (h == t ==> t !in s'.queue) &&
         (h != t ==> (t in s'.queue <==> t in w.s.queue) && s'.timers[t] == w.s.timers[t])
  {
    var h := w.s.queue[0];
    assert h in w.s.queue;
    var x := Rearmed(Get(w.s.timers, h), now);
    RequeuedOk(w.s, h, x);
    RequeuedHas(w.s, h, x);
    RequeuedTable(w.s, h, x);
    hide Requeued; hide Sorted; hide Distinct;
  }

  lemma StepSound(w: World, t: nat, e: Event)
    requires Sound(w, t)
    ensures Sound(Step(w, t, e), t)
  {
    if !w.down {
      match e
      case CancelIt => CancelledIdle(w, t);
      case Schedule(_, delay, at, _) =>
        CancelledIdle(w, t);
        hide QueueOk; hide Obeyed;
        ArmedKeeps(Cancelled(w, t).s, t, at, ToTicks(delay));
      case Take(now) =>
        if w.s.queue != [] { TakeKeeps(w, t, now); }
        hide QueueOk; hide Popped; hide Due;
      case Callback =>
      case Other(c) =>
        if Elsewhere(c, w.s, t) { OtherKeeps(w, t, c); }
        hide QueueOk; hide Obeyed;
    }
  }

  /** The deadline shown is not before the queued one exactly when the addition wraps around for both or for neither. */
  lemma DeadlineNotBefore(w: World, t: nat, e: Event)
    requires Sound(w, t) && !w.down && e.Schedule? && e.armedAt <= e.readAt < WORD && e.delayMs < WORD
    ensures var v := Step(w, t, e); var ticks := Ticks(e.delayMs);
      && t in v.s.timers && v.active
      && (v.s.timers[t].expires <= v.deadline <==> (e.armedAt + ticks >= WORD || e.readAt + ticks < WORD))
  {
    CancelledIdle(w, t);
    ArmedKeeps(Cancelled(w, t).s, t, e.armedAt, ToTicks(e.delayMs));
    var ticks := Ticks(e.delayMs);
    assert ticks < WORD;
    hide QueueOk; hide Obeyed; hide Cancelled; hide ToTicks;
    assert Deadline(e.armedAt, ToTicks(e.delayMs)) == (e.armedAt + ticks) % WORD;
  }

  /** The time shown for a state. */
  function Shown(w: World, now: nat): nat {
    if w.active then Remaining(w.deadline, now) else 0
  }

  // ---------------------------------------------------------------- steps within a tick

  /** Calls made while the tick for now runs, not before it and not across the wrap-around. */
  ghost predicate TimelyEvent(e: Event, ts: Table, now: nat) {
    match e
    case CancelIt => true
    case Schedule(_, delay, at, _) => at >= now && at + ToTicks(delay) + 1 < WORD &&
        at + ToTicks(delay) + 1 < now + HALF
    case Other(c) => Timely(c, ts, now)
    case _ => false
  }

  ghost predicate AllTimelyEvents(es: seq<Event>, ts: Table, now: nat) {
    forall i :: 0 <= i < |es| ==> TimelyEvent(es[i], ts, now)
  }

  lemma TimelyEventsFrame(es: seq<Event>, ts: Table, ts': Table, now: nat)
    requires AllTimelyEvents(es, ts, now) && ts.Keys == ts'.Keys
    ensures AllTimelyEvents(es, ts', now)
  {
    forall i | 0 <= i < |es| ensures TimelyEvent(es[i], ts', now) {
      assert TimelyEvent(es[i], ts, now);
      if es[i].Other? { assert es[i].command.id in ts.Keys; }
    }
  }

  function DueCount(s: State, now: nat): nat {
    |DueOnes(s.queue, s.timers, now)|
  }

  lemma CommandTimely(s: State, c: Command, now: nat)
    requires QueueOk(s) && Unwrapped(s, now) && Timely(c, s.timers, now) && (c.Setup? ==> c.id !in s.queue)
    ensures QueueOk(Obeyed(s, c)) && Unwrapped(Obeyed(s, c), now) && Obeyed(s, c).timers.Keys == s.timers.Keys
    ensures DueCount(Obeyed(s, c), now) <= DueCount(s, now)
    ensures c.Cancel? ==> c.id !in Obeyed(s, c).queue
    ensures c.Setup? ==> c.id !in Obeyed(s, c).queue
  {
    ObeyedKeeps(s, c, now);
    RemovedShorter(DueOnes(s.queue, s.timers, now), c.id);
    hide DueOnes; hide Obeyed; hide QueueOk; hide Unwrapped; hide Removed;
  }

  /** Such a call adds nothing to what is due. */
  lemma StepTimely(w: World, t: nat, e: Event, now: nat)
    requires Sound(w, t) && Unwrapped(w.s, now) && TimelyEvent(e, w.s.timers, now)
    ensures var v := Step(w, t, e);
      && Unwrapped(v.s, now) && v.s.timers.Keys == w.s.timers.Keys && DueCount(v.s, now) <= DueCount(w.s, now)
      && v.inFlight == w.inFlight
  {
    hide QueueOk; hide Obeyed; hide Unwrapped; hide DueCount; hide ToTicks;
    if !w.down {
      match e
      case CancelIt => CommandTimely(w.s, Command.Cancel(t), now);
      case Schedule(_, delay, at, _) =>
        var s0 := w.s;
        if w.active { CommandTimely(s0, Command.Cancel(t), now); }
        CancelledIdle(w, t);
        var s1 := Cancelled(w, t).s;
        CommandTimely(s1, Command.Setup(t, 0), now);
        var s2 := Obeyed(s1, Command.Setup(t, 0));
        assert t in s2.timers.Keys;
        CommandTimely(s2, Command.Add(t, at, ToTicks(delay)), now);
      case Other(c) => if Elsewhere(c, w.s, t) { CommandTimely(w.s, c, now); }
    }
  }

  /** Taking the first due timer leaves one fewer due. */
  lemma TakeTimely(w: World, t: nat, now: nat)
    requires Sound(w, t) && Unwrapped(w.s, now) && !w.down && !w.inFlight && w.s.queue != []
    requires Get(w.s.timers, w.s.queue[0]).expires <= now
    ensures var v := Step(w, t, Take(now));
      && Unwrapped(v.s, now) && v.s.timers.Keys == w.s.timers.Keys && DueCount(v.s, now) < DueCount(w.s, now)
      && v == w.(s := Popped(w.s, now), inFlight := w.s.queue[0] == t)
  {
    assert w.s.queue[0] in w.s.queue;
    DueIsPast(Get(w.s.timers, w.s.queue[0]).expires, now);
    PoppedKeeps(w.s, now);
    hide DueOnes; hide Popped; hide QueueOk; hide Unwrapped; hide Due;
  }

  function Run(w: World, t: nat, es: seq<Event>): World
    decreases |es|
  {
    if es == [] then w else Run(Step(w, t, es[0]), t, es[1..])
  }

  lemma {:induction false} RunJoins(w: World, t: nat, a: seq<Event>, b: seq<Event>)
    ensures Run(w, t, a + b) == Run(Run(w, t, a), t, b)
    decreases |a|
  {
    if a == [] { assert a + b == b; } else {
      assert (a + b)[1..] == a[1..] + b;
      RunJoins(Step(w, t, a[0]), t, a[1..], b);
    }
  }

  lemma RunMore(w: World, t: nat, es: seq<Event>, e: Event)
    ensures Run(w, t, es + [e]) == Step(Run(w, t, es), t, e)
  {
    RunJoins(w, t, es, [e]);
    hide Step;
    assert [e][1..] == [];
  }

  /** Cancelling, then setting up and arming. */
  lemma ScheduleFacts(w: World, t: nat, e: Event)
    requires Sound(w, t) && !w.down && e.Schedule?
    ensures var c := Cancelled(w, t); var v := Step(w, t, e);
      && QueueOk(c.s) && t in c.s.timers && t !in c.s.queue && v.active
      && v == c.(s := Obeyed(SetUp(c.s, t, 0), Command.Add(t, e.armedAt, ToTicks(e.delayMs))), active := true,
                 mode := e.mode, deadline := Noted(e.readAt, e.delayMs))
      && Sound(v, t) && t in v.s.queue && t in v.s.timers
      && v.s.timers[t].expires == (e.armedAt + Ticks(e.delayMs)) % WORD
      && forall x :: x in w.s.timers && x != t ==> x in v.s.timers && v.s.timers[x] == w.s.timers[x]
  {
    StepSound(w, t, e);
    CancelledIdle(w, t);
    ArmedKeeps(Cancelled(w, t).s, t, e.armedAt, ToTicks(e.delayMs));
    hide QueueOk; hide Requeued; hide CutAfter; hide ToTicks; hide Cancelled;
    assert forall x :: x in w.s.timers ==> x in Cancelled(w, t).s.timers.Keys;
  }

  // ---------------------------------------------------------------- in place

  class PendingShutdown {
    const queue: TimerQueue
    const timer: nat
    var active: bool
    var mode: Mode
    var deadline: nat
    var down: bool
    var inFlight: bool

    ghost function View(): World
      reads this, queue
    {
      World(queue.View(), active, mode, deadline, inFlight, down)
    }

    ghost predicate Valid()
      reads this, queue
    {
      Sound(View(), timer)
    }

    constructor (q: TimerQueue, t: nat)
      requires q.Valid() && t in q.timers && q.timers[t] == Timer(0, 0, false)
      ensures Valid() && queue == q && timer == t && !active && !down && !inFlight
    {
      queue, timer := q, t;
      active, mode, deadline, down, inFlight := false, PowerOff, 0, false, false;
    }

    /** cancel_shutdown, step by step. */
    method CancelNow()
      requires Valid() && !down
      modifies this`active, queue
      ensures View() == Cancelled(old(View()), timer) && queue.Valid()
    {
      CancelledIdle(View(), timer);
      hide QueueOk; hide Obeyed;
      if active {
        var _ := queue.Cancel(timer);
        active := false;
      }
    }

    method Cancel()
      requires Valid() && !down
      modifies this, queue
      ensures Valid() && View() == Step(old(View()), timer, CancelIt)
      ensures !active && timer !in queue.queue
    {
      StepSound(View(), timer, CancelIt);
      CancelledIdle(View(), timer);
      hide QueueOk; hide Obeyed; hide Sound; hide Cancelled;
      CancelNow();
    }

    /** The rest of schedule_shutdown, once nothing is pending. */
    method Arm(m: Mode, delayMs: nat, armedAt: nat, readAt: nat)
      requires queue.Valid() && timer in queue.timers && timer !in queue.queue
      modifies `active, `mode, `deadline, queue
      ensures active && mode == m && deadline == Noted(readAt, delayMs)
      ensures queue.View() == Obeyed(SetUp(old(queue.View()), timer, 0), Command.Add(timer, armedAt, ToTicks(delayMs)))
    {
      hide QueueOk; hide Obeyed; hide ToTicks; hide Noted; hide CutAfter;
      active, mode := true, m;
      queue.Setup(timer, 0);
      queue.Add(timer, armedAt, ToTicks(delayMs));
      deadline := Noted(readAt, delayMs);
    }

    /** armedAt and readAt are the two tick counts read: when the timer is armed, and when the deadline is noted. */
    method Schedule(m: Mode, delayMs: nat, armedAt: nat, readAt: nat)
      requires Valid() && !down
      modifies this, queue
      ensures Valid() && View() == Step(old(View()), timer, Event.Schedule(m, delayMs, armedAt, readAt))
      ensures active && timer in queue.queue && queue.timers[timer].expires == (armedAt + Ticks(delayMs)) % WORD
      ensures forall x :: x in old(queue.timers) && x != timer ==>
          x in queue.timers && queue.timers[x] == old(queue.timers)[x]
    {
      ScheduleFacts(View(), timer, Event.Schedule(m, delayMs, armedAt, readAt));
      hide QueueOk; hide Obeyed; hide ToTicks; hide SetUp; hide Sound; hide Cancelled; hide Step;
      CancelNow();
      Arm(m, delayMs, armedAt, readAt);
    }

    /** The ten-minute shutdown armed at start-up: it leaves a pending one alone. */
    method ScheduleDefault(armedAt: nat, readAt: nat)
      requires Valid() && !down
      modifies this, queue
      ensures Valid()
      ensures View() ==
        if old(active) then old(View())
            else Step(old(View()), timer, Event.Schedule(PowerOff, DEFAULT_MS, armedAt, readAt))
    {
      hide Step; hide Sound;
      if active { return; }
      Schedule(PowerOff, DEFAULT_MS, armedAt, readAt);
    }

    /** The timer's callback. */
    method Fire()
      requires Valid() && !down && inFlight
      modifies this
      ensures Valid() && View() == Step(old(View()), timer, Callback)
      ensures down == old(active) && !active && !inFlight
    {
      StepSound(View(), timer, Callback);
      hide QueueOk;
      inFlight := false;
      if !active { return; }
      active := false;
      down := true;
    }

    /** ShutdownRuns.ShownOverRuns says what this is over a run. */
    method RemainingMs(now: nat) returns (ms: nat)
      ensures ms == Shown(View(), now)
    {
      if !active { return 0; }
      var left := (deadline - now) % WORD;
      if left == 0 || left >= HALF { return 0; }
      ms := left * 1000 % WORD / HZ;
    }

    /** A call of the timer queue by other code. */
    method CallQueue(c: Command)
      requires Valid() && !down && Elsewhere(c, queue.View(), timer)
      modifies this, queue
      ensures Valid() && View() == Step(old(View()), timer, Other(c))
    {
      StepSound(View(), timer, Other(c));
      OtherKeeps(View(), timer, c);
      if c.Setup? { SetUpOk(queue.View(), c.id, c.period); }
      hide QueueOk; hide Requeued; hide SetUp; hide Popped;
      match c {
        case Add(x, at, delay) => queue.Add(x, at, delay);
        case Cancel(x) => var _ := queue.Cancel(x);
        case Setup(x, period) => queue.Setup(x, period);
      }
    }

    /** One call made while the tick has the lock released. */
    method Do(e: Event, ghost now: nat)
      requires Valid() && !down && Unwrapped(queue.View(), now) && TimelyEvent(e, queue.timers, now)
      modifies this, queue
      ensures Valid() && View() == Step(old(View()), timer, e) && !down && inFlight == old(inFlight)
      ensures Unwrapped(queue.View(), now) && queue.timers.Keys == old(queue.timers).Keys
      ensures DueCount(queue.View(), now) <= old(DueCount(queue.View(), now))
    {
      StepTimely(View(), timer, e, now);
      StepsUp(View(), timer, e);
      hide Sound; hide Unwrapped; hide DueCount; hide Obeyed; hide Armed; hide Cancelled; hide QueueOk; hide ToTicks;
      hide Popped; hide Due;
      match e {
        case CancelIt => Cancel();
        case Schedule(m, delay, at, readAt) => Schedule(m, delay, at, readAt);
        case Other(c) => if Elsewhere(c, State(queue.queue, queue.timers), timer) { CallQueue(c); }
      }
    }

    method DoAll(es: seq<Event>, ghost now: nat)
      requires Valid() && !down && Unwrapped(queue.View(), now) && AllTimelyEvents(es, queue.timers, now)
      modifies this, queue
      ensures Valid() && View() == Run(old(View()), timer, es) && !down && inFlight == old(inFlight)
      ensures Unwrapped(queue.View(), now) && queue.timers.Keys == old(queue.timers).Keys
      ensures DueCount(queue.View(), now) <= old(DueCount(queue.View(), now))
      decreases |es|
    {
      if es != [] {
        ghost var keys := queue.timers;
        assert TimelyEvent(es[0], queue.timers, now);
        hide Sound; hide Unwrapped; hide DueCount; hide Step; hide TimelyEvent;
        Do(es[0], now);
        TimelyEventsFrame(es[1..], keys, queue.timers, now);
        DoAll(es[1..], now);
      }
    }

    method TakeFirst(now: nat)
      requires Valid() && !down && !inFlight && Unwrapped(queue.View(), now) && queue.queue != []
      requires Get(queue.timers, queue.queue[0]).expires <= now
      modifies this`inFlight, queue
      ensures Valid() && View() == Step(old(View()), timer, Take(now))
      ensures Unwrapped(queue.View(), now) && queue.timers.Keys == old(queue.timers).Keys
      ensures DueCount(queue.View(), now) < old(DueCount(queue.View(), now))
    {
      StepSound(View(), timer, Take(now));
      TakeTimely(View(), timer, now);
      hide Sound; hide Unwrapped; hide DueCount; hide Popped; hide QueueOk; hide Due; hide Step;
      var first := queue.PopFirst(now);
      inFlight := first == timer;
    }

    /** One round of the tick: the first timer is taken, es happens, and its function returns. */
    method Round(now: nat, es: seq<Event>)
      requires Valid() && !down && !inFlight && Unwrapped(queue.View(), now) && queue.queue != []
      requires Get(queue.timers, queue.queue[0]).expires <= now && AllTimelyEvents(es, queue.timers, now)
      modifies this, queue
      ensures Valid() && !inFlight
      ensures View() == Step(Run(Step(old(View()), timer, Take(now)), timer, es), timer, Callback)
      ensures Unwrapped(queue.View(), now) && queue.timers.Keys == old(queue.timers).Keys
      ensures DueCount(queue.View(), now) < old(DueCount(queue.View(), now))
    {
      ghost var keys := queue.timers;
      hide Sound; hide Unwrapped; hide DueCount; hide Step; hide Run; hide AllTimelyEvents;
      TakeFirst(now);
      TimelyEventsFrame(es, keys, queue.timers, now);
      DoAll(es, now);
      NothingInFlight(View(), timer);
      if inFlight { Fire(); }
    }

    /**
     The tick for now: the n-th timer it takes finds the calls of script(n) made before its function returns, by the
     function itself or elsewhere.  It goes on until nothing is due or the machine is down.
     */
    method Tick(now: nat, script: nat -> seq<Event>) returns (n: nat)
      requires Valid() && !down && !inFlight && Unwrapped(queue.View(), now)
      requires forall k :: AllTimelyEvents(script(k), queue.timers, now)
      modifies this, queue
      ensures Valid() && !inFlight && View() == Run(old(View()), timer, TickTrace(script, now, n))
      ensures down || DueCount(queue.View(), now) == 0
      ensures Quiet(script) ==> (down <==> old(active) && old(Get(queue.timers, timer)).expires <= now)
    {
      ghost var start := View();
      n := 0;
      hide Sound; hide Unwrapped; hide DueCount; hide Step; hide Run; hide TickTrace; hide AllTimelyEvents; hide Due;
      hide QueueOk;
      StartTrace(start, timer, script, now);
      while !down && DueNow(now)
        invariant Valid() && !inFlight && Unwrapped(queue.View(), now) && queue.timers.Keys == start.s.timers.Keys
        invariant View() == Run(start, timer, TickTrace(script, now, n))
        decreases DueCount(queue.View(), now)
      {
        TraceMore(start, timer, script, now, n);
        TimelyEventsFrame(script(n), start.s.timers, queue.timers, now);
        Round(now, script(n));
        n := n + 1;
      }
      if Quiet(script) { QuietTick(start, View(), timer, script, now, n); }
    }

    /** The loop's test. */
    predicate DueNow(now: nat): (due: bool)
      requires Valid() && Unwrapped(queue.View(), now)
      reads this, queue
      ensures due ==> queue.queue != [] && Get(queue.timers, queue.queue[0]).expires <= now
      ensures !due ==> DueCount(queue.View(), now) == 0
    {
      NoneQueued(queue.timers, now);
      queue.queue != [] && queue.DueFirst(now)
    }
  }

  /** The steps of n rounds of a tick. */
  function TickTrace(script: nat -> seq<Event>, now: nat, n: nat): seq<Event> {
    if n == 0 then [] else TickTrace(script, now, n - 1) + ([Take(now)] + script(n - 1) + [Callback])
  }

  /** Nothing that runs during the tick schedules or cancels a shutdown. */
  ghost predicate Quiet(script: nat -> seq<Event>) {
    forall k: nat, i: nat :: i < |script(k)| ==> script(k)[i].Other?
  }

  lemma StartTrace(w: World, t: nat, script: nat -> seq<Event>, now: nat)
    ensures Run(w, t, TickTrace(script, now, 0)) == w
  {
  }

  lemma TraceMore(w: World, t: nat, script: nat -> seq<Event>, now: nat, n: nat)
    ensures var v := Run(w, t, TickTrace(script, now, n));
      Run(w, t, TickTrace(script, now, n + 1)) == Step(Run(Step(v, t, Take(now)), t, script(n)), t, Callback)
  {
    var before := TickTrace(script, now, n);
    var v := Run(w, t, before);
    hide Step;
    RunJoins(w, t, before, [Take(now)] + script(n) + [Callback]);
    RunMore(v, t, [Take(now)] + script(n), Callback);
    assert ([Take(now)] + script(n))[1..] == script(n);
  }

  /** With no timer of its own in flight the callback's step is nothing. */
  lemma NothingInFlight(w: World, t: nat)
    ensures !w.inFlight ==> Step(w, t, Callback) == w
  {
  }

  lemma StepsUp(w: World, t: nat, e: Event)
    requires Sound(w, t) && !w.down
    ensures Sound(Step(w, t, e), t) && (!e.Callback? ==> !Step(w, t, e).down)
    ensures e.Other? && !Elsewhere(e.command, w.s, t) ==> Step(w, t, e) == w
  {
    StepSound(w, t, e);
    hide Sound;
  }

  /** What other code does leaves a pending shutdown as it is. */
  lemma {:induction false} QuietRun(w: World, t: nat, es: seq<Event>)
    requires Sound(w, t) && forall i: nat :: i < |es| ==> es[i].Other?
    ensures var v := Run(w, t, es);
      && Sound(v, t) && v == w.(s := v.s) && (t in v.s.queue <==> t in w.s.queue) && v.s.timers[t] == w.s.timers[t]
    decreases |es|
  {
    if es != [] {
      StepSound(w, t, es[0]);
      if Elsewhere(es[0].command, w.s, t) { OtherKeeps(w, t, es[0].command); }
      hide Obeyed; hide QueueOk;
      QuietRun(Step(w, t, es[0]), t, es[1..]);
    }
  }

  /** After some rounds of a quiet tick: either its timer has gone off, or the pending shutdown is as it was. */
  lemma {:induction false} QuietRounds(w: World, t: nat, script: nat -> seq<Event>, now: nat, n: nat)
    requires Sound(w, t) && !w.down && !w.inFlight && Quiet(script)
    ensures var v := Run(w, t, TickTrace(script, now, n));
      && Sound(v, t) && !v.inFlight
      && (v.down ==> w.active && Due(w.s.timers[t].expires, now))
      && (!v.down ==> v.active == w.active && (w.active ==> v.s.timers[t] == w.s.timers[t]))
  {
    if n == 0 {
      StartTrace(w, t, script, now);
    } else {
      QuietRounds(w, t, script, now, n - 1);
      TraceMore(w, t, script, now, n - 1);
      QuietRound(w, Run(w, t, TickTrace(script, now, n - 1)), t, script(n - 1), now);
      hide Run; hide TickTrace; hide Step;
    }
  }

  lemma QuietRound(w: World, v: World, t: nat, es: seq<Event>, now: nat)
    requires Sound(w, t) && Sound(v, t) && !v.inFlight && forall i: nat :: i < |es| ==> es[i].Other?
    requires v.down ==> w.active && Due(w.s.timers[t].expires, now)
    requires !v.down ==> v.active == w.active && (w.active ==> v.s.timers[t] == w.s.timers[t])
    ensures var u := Step(Run(Step(v, t, Take(now)), t, es), t, Callback);
      && Sound(u, t) && !u.inFlight
      && (u.down ==> w.active && Due(w.s.timers[t].expires, now))
      && (!u.down ==> u.active == w.active && (w.active ==> u.s.timers[t] == w.s.timers[t]))
  {
    var taken := Step(v, t, Take(now));
    StepSound(v, t, Take(now));
    if v.s.queue != [] { TakeKeeps(v, t, now); }
    QuietRun(taken, t, es);
    StepSound(Run(taken, t, es), t, Callback);
    hide Run; hide Popped; hide QueueOk; hide Due;
  }

  lemma QuietTick(w: World, v: World, t: nat, script: nat -> seq<Event>, now: nat, n: nat)
    requires Sound(w, t) && !w.down && !w.inFlight && Quiet(script) && Unwrapped(w.s, now)
    requires v == Run(w, t, TickTrace(script, now, n)) && (v.down || DueCount(v.s, now) == 0)
    ensures v.down <==> w.active && Get(w.s.timers, t).expires <= now
  {
    QuietRounds(w, t, script, now, n);
    if w.active { DueIsPast(w.s.timers[t].expires, now); }
    DueOnesHas(v.s.queue, v.s.timers, now);
    hide Run; hide TickTrace; hide DueOnes; hide Due;
  }
}
