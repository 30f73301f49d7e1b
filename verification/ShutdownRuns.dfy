/**
 The shutdown over whole runs, its steps interleaved.

 The tick takes a timer off the queue and gives up the lock before it calls the timer's function, so calls from
 elsewhere can fall between the two.  A run is any sequence of the events of Shutdown, over the timer queue itself.
 */
module ShutdownRuns {
  import opened Basics
  import opened Timers
  import opened Shutdown

  /** Nothing is pending; the queue may hold any other timers. */
  ghost predicate Start(w: World, t: nat) {
    QueueOk(w.s) && t in w.s.timers && w.s.timers[t].period == 0 && t !in w.s.queue && !w.active && !w.inFlight &&
        !w.down
  }

  lemma {:induction false} RunKeepsSound(w: World, t: nat, es: seq<Event>)
    requires Sound(w, t)
    ensures Sound(Run(w, t, es), t)
    decreases |es|
  {
    if es == [] {
    } else {
      StepSound(w, t, es[0]);
      hide Step; hide Sound;
      RunKeepsSound(Step(w, t, es[0]), t, es[1..]);
    }
  }

  /** Outside a running tick a shutdown is pending exactly when its timer is queued, over every run. */
  lemma PendingExactlyQueued(w: World, t: nat, es: seq<Event>)
    requires Start(w, t)
    ensures var v := Run(w, t, es);
      && QueueOk(v.s)
      && (!v.down && !v.inFlight ==> (v.active <==> t in v.s.queue))
      && (!v.down && t in v.s.queue ==> v.active)
  {
    RunKeepsSound(w, t, es);
    hide QueueOk;
  }

  /**
   Over every run, each schedule sets its timer up when it is not queued, wherever the tick is.  Without its
   cancellation the queue would survive the setting up exactly when the timer was not queued, which outside a
   running tick means: when no other shutdown was pending.
   */
  lemma SetUpUnqueued(w: World, t: nat, before: seq<Event>)
    requires Start(w, t)
    ensures var v := Run(w, t, before);
      !v.down ==>
        && t !in Cancelled(v, t).s.queue && QueueOk(Obeyed(Cancelled(v, t).s, Command.Setup(t, 0)))
        && (QueueOk(Obeyed(v.s, Command.Setup(t, 0))) <==> t !in v.s.queue)
        && (!v.inFlight ==> (QueueOk(Obeyed(v.s, Command.Setup(t, 0))) <==> !v.active))
  {
    var v := Run(w, t, before);
    RunKeepsSound(w, t, before);
    hide QueueOk; hide Run; hide CutAfter; hide Requeued;
    if !v.down {
      CancelledIdle(v, t);
      SetUpOk(Cancelled(v, t).s, t, 0);
      SetUpOk(v.s, t, 0);
      hide Cancelled;
    }
  }

  ghost predicate NoSchedule(es: seq<Event>) {
    forall i :: 0 <= i < |es| ==> !es[i].Schedule?
  }

  lemma {:induction false} InactiveStays(w: World, t: nat, es: seq<Event>)
    requires Sound(w, t) && NoSchedule(es) && (w.down || !w.active)
    ensures Run(w, t, es).down == w.down
    decreases |es|
  {
    if es == [] {
    } else {
      StepSound(w, t, es[0]);
      hide Sound; hide Obeyed; hide Popped; hide Due;
      InactiveStays(Step(w, t, es[0]), t, es[1..]);
    }
  }

  /** A cancelled shutdown never fires, whatever follows, unless another is scheduled. */
  lemma CancelledNeverFires(w: World, t: nat, es: seq<Event>, later: seq<Event>)
    requires Start(w, t) && NoSchedule(later)
    ensures Run(w, t, es + [CancelIt] + later).down == Run(w, t, es).down
  {
    var v := Run(w, t, es);
    RunJoins(w, t, es + [CancelIt], later);
    RunMore(w, t, es, CancelIt);
    RunKeepsSound(w, t, es);
    StepSound(v, t, CancelIt);
    hide Sound; hide Run; hide Obeyed;
    InactiveStays(Step(v, t, CancelIt), t, later);
  }

  // ---------------------------------------------------------------- the time shown

  /** The last schedule among the events. */
  function LastSchedule(es: seq<Event>): Option<Event> {
    if es == [] then None
    else if es[|es| - 1].Schedule? then Some(es[|es| - 1])
    else LastSchedule(es[..|es| - 1])
  }

  /** The deadline kept while a shutdown is pending is the one its schedule noted. */
  ghost predicate Remembers(w: World, last: Option<Event>) {
    !w.down && w.active ==>
      && last.Some? && last.value.Schedule?
      && w.deadline == Noted(last.value.readAt, last.value.delayMs)
  }

  lemma RemembersStep(w: World, t: nat, last: Option<Event>, e: Event)
    requires Remembers(w, last)
    ensures Remembers(Step(w, t, e), if e.Schedule? then Some(e) else last)
  {
    hide Obeyed; hide Popped; hide Due; hide Noted; hide ToTicks;
  }

  lemma {:induction false} RunRemembers(w: World, t: nat, es: seq<Event>)
    requires !w.active
    ensures Remembers(Run(w, t, es), LastSchedule(es))
    decreases |es|
  {
    if es == [] {
    } else {
      var n := |es| - 1;
      assert es == es[..n] + [es[n]];
      hide Step; hide Run; hide Remembers;
      RunRemembers(w, t, es[..n]);
      RunMore(w, t, es[..n], es[n]);
      RemembersStep(Run(w, t, es[..n]), t, LastSchedule(es[..n]), es[n]);
    }
  }

  /**
   Over every run, while a shutdown is pending the time shown is the time left until the deadline of its schedule,
   to the tick, and 0 once that has passed.
   */
  lemma ShownOverRuns(w: World, t: nat, es: seq<Event>, now: nat)
    requires Start(w, t) && !Run(w, t, es).down && Run(w, t, es).active
    ensures var last := LastSchedule(es);
      && last.Some? && last.value.Schedule?
      && var due := last.value.readAt + Ticks(last.value.delayMs);
        last.value.readAt <= now < due + HALF ==>
          Shown(Run(w, t, es), now % WORD) == if now < due then (due - now) * 10 else 0
  {
    RunRemembers(w, t, es);
    hide Run; hide LastSchedule; hide Start; hide Remaining; hide Noted; hide Ticks;
    var e := LastSchedule(es).value;
    if e.readAt <= now < e.readAt + Ticks(e.delayMs) + HALF { TimeLeft(e.readAt, e.delayMs, now); }
  }

  /** The mode kept while a shutdown is pending, or with which the machine went down, is that of the last schedule. */
  ghost predicate InMode(w: World, last: Option<Event>) {
    w.active || w.down ==> last.Some? && last.value.Schedule? && w.mode == last.value.mode
  }

  /** The last schedule before the machine went down, if it did. */
  function LastInForce(w: World, t: nat, es: seq<Event>, last: Option<Event>): Option<Event>
    decreases |es|
  {
    if es == [] then last
    else LastInForce(Step(w, t, es[0]), t, es[1..], if es[0].Schedule? && !w.down then Some(es[0]) else last)
  }

  lemma InModeStep(w: World, t: nat, last: Option<Event>, e: Event)
    requires InMode(w, last)
    ensures InMode(Step(w, t, e), if e.Schedule? && !w.down then Some(e) else last)
  {
    hide Obeyed; hide Popped; hide Due; hide Noted; hide ToTicks;
  }

  lemma {:induction false} RunInMode(w: World, t: nat, es: seq<Event>, last: Option<Event>)
    requires InMode(w, last)
    ensures InMode(Run(w, t, es), LastInForce(w, t, es, last))
    decreases |es|
  {
    if es == [] {
    } else {
      hide Step; hide InMode;
      InModeStep(w, t, last, es[0]);
      RunInMode(Step(w, t, es[0]), t, es[1..], if es[0].Schedule? && !w.down then Some(es[0]) else last);
    }
  }

  /** Over every run, the machine goes down in the mode of the last schedule there was before. */
  lemma ModeOverRuns(w: World, t: nat, es: seq<Event>)
    requires Start(w, t)
    ensures var v := Run(w, t, es); var last := LastInForce(w, t, es, None);
      v.active || v.down ==> last.Some? && last.value.Schedule? && v.mode == last.value.mode
  {
    hide QueueOk; hide Run; hide LastInForce;
    RunInMode(w, t, es, None);
  }

  // ---------------------------------------------------------------- when the machine goes down

  /** A queued shutdown is due when its schedule's delay has passed. */
  ghost predicate Waits(w: World, t: nat, last: Option<Event>) {
    !w.down && t in w.s.queue ==>
      && last.Some? && last.value.Schedule? && t in w.s.timers
      && w.s.timers[t].expires == Deadline(last.value.armedAt, ToTicks(last.value.delayMs))
  }

  lemma WaitsStep(w: World, t: nat, last: Option<Event>, e: Event)
    requires Sound(w, t) && Waits(w, t, last)
    ensures Waits(Step(w, t, e), t, if e.Schedule? then Some(e) else last)
  {
    hide ToTicks; hide Deadline;
    if !w.down {
      match e
      case CancelIt => CancelledIdle(w, t);
      case Schedule(_, delay, at, _) =>
        CancelledIdle(w, t);
        hide QueueOk; hide Obeyed;
        ArmedKeeps(Cancelled(w, t).s, t, at, ToTicks(delay));
      case Take(now) =>
        if w.s.queue != [] { TakeKeeps(w, t, now); }
        hide QueueOk; hide Popped; hide Due;
      case Callback =>
      case Other(c) =>
        if Elsewhere(c, w.s, t) { OtherKeeps(w, t, c); }
        hide QueueOk; hide Obeyed;
    }
  }

  lemma {:induction false} RunWaits(w: World, t: nat, es: seq<Event>)
    requires Sound(w, t) && t !in w.s.queue
    ensures Waits(Run(w, t, es), t, LastSchedule(es))
    decreases |es|
  {
    if es == [] {
    } else {
      var n := |es| - 1;
      assert es == es[..n] + [es[n]];
      hide Step; hide Run; hide Waits; hide Sound;
      RunWaits(w, t, es[..n]);
      RunKeepsSound(w, t, es[..n]);
      RunMore(w, t, es[..n], es[n]);
      WaitsStep(Run(w, t, es[..n]), t, LastSchedule(es[..n]), es[n]);
    }
  }

  /**
   Over every run, a queued shutdown can be taken by the tick exactly when as many ticks have passed since its
   schedule as the delay asked for; so not before the delay has passed in milliseconds, when the conversion fits a
   word.
   */
  lemma NotBeforeItsTime(w: World, t: nat, es: seq<Event>, now: nat)
    requires Start(w, t) && !Run(w, t, es).down && t in Run(w, t, es).s.queue
    ensures var v := Run(w, t, es); var last := LastSchedule(es);
      && last.Some? && last.value.Schedule? && t in v.s.timers
      && var e := last.value;
        e.armedAt <= now < e.armedAt + HALF ==>
          && (Due(v.s.timers[t].expires, now % WORD) <==> now - e.armedAt >= Ticks(e.delayMs))
          && (Due(v.s.timers[t].expires, now % WORD) && e.delayMs * HZ + 999 < WORD ==>
                (now - e.armedAt) * 10 >= e.delayMs)
  {
    RunWaits(w, t, es);
    hide Run; hide LastSchedule; hide Start; hide Due;
    var e := LastSchedule(es).value;
    TicksBound(e.delayMs);
    if e.armedAt <= now < e.armedAt + HALF { AddedDue(e.armedAt, ToTicks(e.delayMs), now); }
    if e.delayMs * HZ + 999 < WORD { ToTicksRoundsUp(e.delayMs); }
  }

  // ---------------------------------------------------------------- between the taking and the callback

  ghost predicate NoCallback(es: seq<Event>) {
    forall i :: 0 <= i < |es| ==> !es[i].Callback?
  }

  /** The last call of schedule or cancel among the events. */
  function LastCall(es: seq<Event>): Option<Event> {
    if es == [] then None
    else
      var last := es[|es| - 1];
      if last.Schedule? || last.CancelIt? then Some(last) else LastCall(es[..|es| - 1])
  }

  /** While the tick holds the shutdown's timer: whether it is pending again, and queued again, by the last call. */
  ghost predicate Held(w: World, t: nat, last: Option<Event>) {
    && Sound(w, t) && !w.down && w.inFlight
    && (w.active <==> last != Some(CancelIt))
    && (t in w.s.queue <==> last.Some? && last.value.Schedule?)
  }

  lemma HeldStep(w: World, t: nat, last: Option<Event>, e: Event)
    requires Held(w, t, last) && !e.Callback?
    ensures Held(Step(w, t, e), t, if e.Schedule? || e.CancelIt? then Some(e) else last)
  {
    StepSound(w, t, e);
    match e
    case CancelIt => CancelledIdle(w, t);
    case Schedule(_, _, _, _) => ScheduleFacts(w, t, e);
    case Take(_) =>
    case Other(c) =>
      if Elsewhere(c, w.s, t) { OtherKeeps(w, t, c); }
      hide QueueOk; hide Obeyed;
  }

  lemma {:induction false} AfterBetween(w: World, t: nat, es: seq<Event>)
    requires Held(w, t, None) && NoCallback(es)
    ensures Held(Run(w, t, es), t, LastCall(es))
    decreases |es|
  {
    if es == [] {
    } else {
      var n := |es| - 1;
      assert es == es[..n] + [es[n]];
      hide Held; hide Step; hide Run;
      AfterBetween(w, t, es[..n]);
      RunMore(w, t, es[..n], es[n]);
      HeldStep(Run(w, t, es[..n]), t, LastCall(es[..n]), es[n]);
    }
  }

  /** The tick for now takes the shutdown's timer. */
  ghost predicate Takes(w: World, t: nat, now: nat) {
    !w.down && !w.inFlight && w.s.queue != [] && w.s.queue[0] == t && Due(Get(w.s.timers, t).expires, now)
  }

  lemma TakenIsHeld(w: World, t: nat, now: nat)
    requires Sound(w, t) && Takes(w, t, now)
    ensures Held(Step(w, t, Take(now)), t, None)
  {
    assert t in w.s.queue;
    StepSound(w, t, Take(now));
    TakeKeeps(w, t, now);
    hide QueueOk; hide Popped; hide Due;
  }

  /**
   What the callback of a taken timer does depends on the last schedule or cancel since it was taken: with none the
   machine goes down on its deadline; a cancellation, and it stays up; a new schedule, and it goes down at once
   although the new shutdown's own timer is still queued.
   */
  lemma CallbackOutcome(w: World, t: nat, before: seq<Event>, now: nat, between: seq<Event>)
    requires Start(w, t) && Takes(Run(w, t, before), t, now) && NoCallback(between)
    ensures var v := Run(w, t, before + [Take(now)] + between + [Callback]); var last := LastCall(between);
      && (v.down <==> last != Some(CancelIt))
      && (v.down && t in v.s.queue <==> last.Some? && last.value.Schedule?)
  {
    var u := Run(w, t, before);
    RunMore(w, t, before + [Take(now)] + between, Callback);
    RunJoins(w, t, before + [Take(now)], between);
    RunMore(w, t, before, Take(now));
    RunKeepsSound(w, t, before);
    hide Run; hide Sound; hide LastCall;
    TakenIsHeld(u, t, now);
    AfterBetween(Step(u, t, Take(now)), t, between);
    hide Popped; hide Due; hide Obeyed; hide Takes;
  }

  // ---------------------------------------------------------------- a shutdown that comes too early

  /** An empty queue, and the shutdown's timer, number 0. */
  function Fresh(): World {
    World(State([], map[0 := Timer(0, 0, false)]), false, PowerOff, 0, false, false)
  }

  lemma FreshStart()
    ensures Start(Fresh(), 0)
  {
  }

  /** Scheduled at tick 5 for now, the timer is queued for tick 6, when the tick takes it. */
  lemma TakenAtSix()
    ensures Takes(Run(Fresh(), 0, [Event.Schedule(PowerOff, 0, 5, 5)]), 0, 6)
  {
    var e := Event.Schedule(PowerOff, 0, 5, 5);
    var v := Step(Fresh(), 0, e);
    RunMore(Fresh(), 0, [], e);
    assert [] + [e] == [e];
    ScheduleFacts(Fresh(), 0, e);
    assert ToTicks(0) == 0;
    QueueOfOne(v, 0);
    DueIsPast(6, 6);
    hide Run; hide Step; hide Due; hide QueueOk;
  }

  lemma QueueOfOne(w: World, t: nat)
    requires QueueOk(w.s) && t in w.s.queue && w.s.timers.Keys == {t}
    ensures w.s.queue == [t]
  {
    var q := w.s.queue;
    assert |q| >= 2 ==> q[0] != q[1];
    assert forall x :: x in q ==> x in w.s.timers.Keys;
    assert forall i :: 0 <= i < |q| ==> q[i] in q;
  }

  /** Ten more minutes asked for between the taking and the callback, and the machine goes down at once. */
  lemma TooEarly()
    ensures var es := [Event.Schedule(PowerOff, 0, 5, 5), Take(6), Event.Schedule(PowerOff, DEFAULT_MS, 6, 6),
        Callback];
      var v := Run(Fresh(), 0, es);
      && Start(Fresh(), 0) && v.down && 0 in v.s.queue
  {
    var before, between := [Event.Schedule(PowerOff, 0, 5, 5)], [Event.Schedule(PowerOff, DEFAULT_MS, 6, 6)];
    FreshStart();
    TakenAtSix();
    assert LastCall(between) == Some(between[0]);
    hide Run; hide Takes; hide Start; hide LastCall;
    CallbackOutcome(Fresh(), 0, before, 6, between);
    assert before + [Take(6)] + between + [Callback]
        == [Event.Schedule(PowerOff, 0, 5, 5), Take(6), Event.Schedule(PowerOff, DEFAULT_MS, 6, 6), Callback];
  }
}
