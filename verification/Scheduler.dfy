/**
 The round-robin scheduler: a queue of tasks scanned in a circle from the one that is running.
 */
module Scheduler {

  datatype TaskState = Running | Ready | Blocked | Sleeping | Terminated

  datatype Task = Task(pid: nat, state: TaskState)

  /** The current task, and the others in the order the scan visits them. */
  datatype Ring = Ring(current: Task, rest: seq<Task>)

  function RingOf(tasks: seq<Task>, current: nat): Ring
    requires current < |tasks|
  {
    Ring(tasks[current], tasks[current + 1..] + tasks[..current])
  }

  function Alive(ts: seq<Task>): seq<Task> {
    if ts == [] then [] else (if ts[0].state == Terminated then [] else [ts[0]]) + Alive(ts[1..])
  }

  /** The position of the first ready task, or the length when there is none. */
  function FirstReady(ts: seq<Task>): (d: nat)
    ensures d <= |ts| && (forall i :: 0 <= i < d ==> ts[i].state != Ready) && (d < |ts| ==> ts[d].state == Ready)
  {
    if ts == [] || ts[0].state == Ready then 0 else 1 + FirstReady(ts[1..])
  }

  /** A running task that is switched away from goes back to ready; any other state stays. */
  function Paused(t: Task): Task {
    if t.state == Running then t.(state := Ready) else t
  }

  /** One call of the scheduler, seen from the current task. */
  function ScheduleRing(r: Ring): Ring {
    var alive := Alive(r.rest);
    var d := FirstReady(alive);
    if d == |alive| then Ring(r.current, alive)
    else Ring(alive[d].(state := Running), alive[d + 1..] + [Paused(r.current)] + alive[..d])
  }

  /** No task but the current one is running. */
  ghost predicate OneRunning(r: Ring) {
    forall i :: 0 <= i < |r.rest| ==> r.rest[i].state != Running
  }

  ghost predicate DistinctPids(ts: seq<Task>) {
    forall i, j :: 0 <= i < j < |ts| ==> ts[i].pid != ts[j].pid
  }

  lemma {:induction false} AliveFacts(ts: seq<Task>)
    ensures |Alive(ts)| <= |ts|
    ensures forall t :: t in Alive(ts) <==> t in ts && t.state != Terminated
    ensures DistinctPids(ts) ==> DistinctPids(Alive(ts))
  {
    if ts != [] {
      AliveFacts(ts[1..]);
      assert forall t :: t in ts <==> t == ts[0] || t in ts[1..];
      if DistinctPids(ts) && ts[0].state != Terminated {
        var rest := Alive(ts[1..]);
        forall j | 0 <= j < |rest| ensures rest[j].pid != ts[0].pid {
          assert rest[j] in rest;
          var k :| 0 <= k < |ts[1..]| && ts[1..][k] == rest[j];
          assert ts[k + 1] == rest[j];
        }
      }
    }
  }

  lemma {:induction false} AliveSplit(a: seq<Task>, b: seq<Task>)
    ensures Alive(a + b) == Alive(a) + Alive(b)
  {
    if a == [] {
      assert a + b == b;
    } else {
      assert (a + b)[1..] == a[1..] + b;
      AliveSplit(a[1..], b);
    }
  }

  /** A call keeps at most one task running, which is the current one. */
  lemma ScheduleKeepsOneRunning(r: Ring)
    requires OneRunning(r)
    ensures OneRunning(ScheduleRing(r))
    ensures ScheduleRing(r).current == r.current || ScheduleRing(r).current.state == Running
  {
    AliveQuiet(r.rest);
    hide Alive; hide FirstReady;
    var alive := Alive(r.rest);
    var d := FirstReady(alive);
    if d < |alive| { Quiet(alive[d + 1..], Paused(r.current), alive[..d]); }
  }

  lemma AliveQuiet(ts: seq<Task>)
    requires forall i :: 0 <= i < |ts| ==> ts[i].state != Running
    ensures forall i :: 0 <= i < |Alive(ts)| ==> Alive(ts)[i].state != Running
  {
    AliveFacts(ts);
    hide Alive;
    assert forall t :: t in ts ==> t.state != Running;
    forall i | 0 <= i < |Alive(ts)| ensures Alive(ts)[i].state != Running { assert Alive(ts)[i] in Alive(ts); }
  }

  lemma Quiet(a: seq<Task>, t: Task, b: seq<Task>)
    requires t.state != Running && (forall i :: 0 <= i < |a| ==> a[i].state != Running)
    requires forall i :: 0 <= i < |b| ==> b[i].state != Running
    ensures forall i :: 0 <= i < |a + [t] + b| ==> (a + [t] + b)[i].state != Running
  {
  }

  // ---------------------------------------------------------------- bounded waiting

  /** Task pid is ready, at position g of the scan. */
  ghost predicate ReadyAt(r: Ring, pid: nat, g: nat) {
    g < |r.rest| && r.rest[g] == Task(pid, Ready)
  }

  /**
   Between two calls tasks may change state, but none comes or goes, none but the current one may run, and pid stays
   ready.
   */
  ghost predicate Between(r: Ring, r': Ring, pid: nat) {
    && |r'.rest| == |r.rest| && OneRunning(r')
    && (forall i :: 0 <= i < |r.rest| ==> r'.rest[i].pid == r.rest[i].pid)
    && (forall i :: 0 <= i < |r.rest| && r.rest[i] == Task(pid, Ready) ==> r'.rest[i] == Task(pid, Ready))
  }

  lemma {:induction false} AliveKeeps(ts: seq<Task>, g: nat) returns (g': nat)
    requires g < |ts| && ts[g].state == Ready
    ensures g' <= g && g' < |Alive(ts)| && Alive(ts)[g'] == ts[g]
  {
    if g == 0 {
      g' := 0;
    } else {
      g' := AliveKeeps(ts[1..], g - 1);
      if ts[0].state != Terminated { g' := g' + 1; }
    }
  }

  /** One call either runs a ready task or brings it at least one place nearer. */
  lemma Nearer(r: Ring, pid: nat, g: nat) returns (g': nat)
    requires ReadyAt(r, pid, g)
    ensures ScheduleRing(r).current == Task(pid, Running) || (g' < g && ReadyAt(ScheduleRing(r), pid, g'))
  {
    var alive := Alive(r.rest);
    var a := AliveKeeps(r.rest, g);
    var d := FirstReady(alive);
    g' := if d < a then a - d - 1 else 0;
    if d < a {
      assert ScheduleRing(r).rest[g'] == alive[d + 1..][g'];
    }
  }

  /** Calls of the scheduler with other activity in between: before[i] is what call i finds. */
  ghost predicate ScheduleRun(before: seq<Ring>, pid: nat) {
    forall i :: 0 <= i < |before| - 1 ==> Between(ScheduleRing(before[i]), before[i + 1], pid)
  }

  /**
   A task that stays ready runs within as many calls as there are other tasks: if it has not run after the calls of
   a run, then there were fewer calls than its place in the scan.
   */
  lemma {:induction false} BoundedWaiting(before: seq<Ring>, pid: nat, g: nat)
    requires before != [] && ScheduleRun(before, pid) && ReadyAt(before[0], pid, g)
    requires forall i :: 0 <= i < |before| ==> ScheduleRing(before[i]).current != Task(pid, Running)
    ensures |before| <= g < |before[0].rest|
    decreases |before|
  {
    var g' := Nearer(before[0], pid, g);
    if |before| > 1 {
      assert Between(ScheduleRing(before[0]), before[1], pid);
      BoundedWaiting(before[1..], pid, g');
    }
  }

  // ---------------------------------------------------------------- what a call does to each task

  ghost predicate SomeReady(ts: seq<Task>) {
    exists i :: 0 <= i < |ts| && ts[i].state == Ready
  }

  /** A task whose turn is over: ready again if it was running, otherwise as it was. */
  ghost predicate StoodDown(t: Task, t': Task) {
    t'.pid == t.pid && (t.state == Running ==> t'.state == Ready) && (t.state != Running ==> t'.state == t.state)
  }

  /**
   The others after a call in which another task takes over: the survivors among them, and the one that stood down.
   */
  lemma TakenOver(r: Ring, d: nat)
    requires d == FirstReady(Alive(r.rest)) && d < |Alive(r.rest)|
    ensures var alive := Alive(r.rest); var r' := ScheduleRing(r);
      && r'.current == Task(alive[d].pid, Running) && |r'.rest| == |alive|
      && StoodDown(r.current, r'.rest[|alive| - d - 1])
      && (forall t :: t in r'.rest <==> t in alive[d + 1..] || t in alive[..d] || t == r'.rest[|alive| - d - 1])
  {
    hide Alive; hide FirstReady;
  }

  lemma AroundOne(ts: seq<Task>, d: nat)
    requires d < |ts| && DistinctPids(ts)
    ensures forall t :: t in ts[d + 1..] || t in ts[..d] <==> t in ts && t.pid != ts[d].pid
  {
    forall t | t in ts && t.pid != ts[d].pid ensures t in ts[d + 1..] || t in ts[..d] {
      var i :| 0 <= i < |ts| && ts[i] == t;
      if i < d { assert ts[..d][i] == t; } else { assert ts[d + 1..][i - d - 1] == t; }
    }
  }

  lemma ReadySurvives(ts: seq<Task>)
    ensures SomeReady(ts) <==> FirstReady(Alive(ts)) < |Alive(ts)|
  {
    AliveFacts(ts);
    var alive, d := Alive(ts), FirstReady(Alive(ts));
    hide Alive; hide FirstReady;
    if d < |alive| {
      assert alive[d] in alive;
      var i :| 0 <= i < |ts| && ts[i] == alive[d];
    }
    if SomeReady(ts) {
      var i :| 0 <= i < |ts| && ts[i].state == Ready;
      assert ts[i] in ts && ts[i] in alive;
    }
  }

  /** The others afterwards: old', and those there were but the terminated and the one that took over. */
  ghost predicate OthersAfter(before: seq<Task>, after: seq<Task>, taker: nat, old': Task) {
    forall t :: t in after <==> (t in before && t.state != Terminated && t.pid != taker) || t == old'
  }

  lemma OthersAre(r: Ring, d: nat)
    requires DistinctPids(r.rest) && d == FirstReady(Alive(r.rest)) && d < |Alive(r.rest)|
    ensures var r' := ScheduleRing(r); var k := |Alive(r.rest)| - d - 1;
      k < |r'.rest| && OthersAfter(r.rest, r'.rest, r'.current.pid, r'.rest[k])
  {
    AliveFacts(r.rest);
    TakenOver(r, d);
    AroundOne(Alive(r.rest), d);
    hide Alive; hide FirstReady; hide ScheduleRing; hide StoodDown; hide DistinctPids;
  }

  /**
   One call, task by task.  When another task is ready, one of them takes over and runs; the old current task is
   among the others, ready if it was running and in its own state otherwise, and every other task but the terminated
   keeps its state. When none is, the current task stays as it is, and so do the others but the terminated.
   */
  lemma ScheduleStates(r: Ring)
    requires DistinctPids(r.rest)
    ensures var r' := ScheduleRing(r);
      if SomeReady(r.rest) then
        && Task(r'.current.pid, Ready) in r.rest && r'.current.state == Running
        && exists i :: 0 <= i < |r'.rest| && StoodDown(r.current, r'.rest[i]) &&
             OthersAfter(r.rest, r'.rest, r'.current.pid, r'.rest[i])
      else
        r'.current == r.current && forall t :: t in r'.rest <==> t in r.rest && t.state != Terminated
  {
    ReadySurvives(r.rest);
    AliveFacts(r.rest);
    var alive, d := Alive(r.rest), FirstReady(Alive(r.rest));
    if d < |alive| {
      TakenOver(r, d);
      OthersAre(r, d);
      assert alive[d] in alive && alive[d] == Task(alive[d].pid, Ready);
      hide ScheduleRing;
    }
    hide Alive; hide FirstReady; hide DistinctPids; hide OthersAfter; hide StoodDown; hide SomeReady;
  }

  /**
   A running task that another takes over from, and that nobody blocks or ends, runs again within as many calls as
   there are other tasks: if it has not run after the calls of a run, there were fewer.
   */
  lemma PreemptedRunsAgain(r: Ring, before: seq<Ring>)
    requires r.current.state == Running && SomeReady(r.rest) && before != []
    requires Between(ScheduleRing(r), before[0], r.current.pid) && ScheduleRun(before, r.current.pid)
    requires forall i :: 0 <= i < |before| ==> ScheduleRing(before[i]).current != Task(r.current.pid, Running)
    ensures |before| < |before[0].rest|
  {
    ReadySurvives(r.rest);
    var d, n := FirstReady(Alive(r.rest)), |Alive(r.rest)|;
    TakenOver(r, d);
    hide Alive; hide FirstReady; hide ScheduleRing;
    BoundedWaiting(before, r.current.pid, n - d - 1);
  }

  /** Of two tasks the running one is preempted, and ready. */
  lemma TwoTasks()
    ensures ScheduleRing(Ring(Task(1, Running), [Task(2, Ready)])) == Ring(Task(2, Running), [Task(1, Ready)])
  {
  }

  // ---------------------------------------------------------------- the queue

  /** The position the scan reaches after d steps from the one after current, among n tasks. */
  function Around(current: nat, d: nat, n: nat): nat
    requires current < n && d < n
  {
    if current + 1 + d < n then current + 1 + d else current + 1 + d - n
  }

  lemma RestAt(tasks: seq<Task>, current: nat, d: nat)
    requires current < |tasks| && d < |tasks| - 1
    ensures RingOf(tasks, current).rest[d] == tasks[Around(current, d, |tasks|)] &&
        Around(current, d, |tasks|) != current
  {
  }

  lemma FirstReadyIs(ts: seq<Task>, d: nat)
    requires d <= |ts| && (forall i :: 0 <= i < d ==> ts[i].state != Ready) && (d < |ts| ==> ts[d].state == Ready)
    ensures FirstReady(ts) == d
  {
  }

  /** Process numbers are distinct and used up in order, and no task but the current one is running. */
  ghost predicate QueueOk(tasks: seq<Task>, current: nat, nextPid: nat) {
    && current < |tasks| && DistinctPids(tasks) && (forall i :: 0 <= i < |tasks| ==> tasks[i].pid < nextPid)
    && (forall i :: 0 <= i < |tasks| && i != current ==> tasks[i].state != Running)
  }

  class TaskQueue {
    var tasks: seq<Task>
    var current: nat
    var nextPid: nat

    ghost predicate Valid()
      reads this
    {
      QueueOk(tasks, current, nextPid)
    }

    /** The first task, already running. */
    constructor ()
      ensures Valid() && tasks == [Task(1, Running)] && current == 0
    {
      tasks, current, nextPid := [Task(1, Running)], 0, 2;
    }

    /** A new task goes to the end of the queue; none is made when there is no memory for it or its stack. */
    method Create(available: bool) returns (pid: nat)
      requires Valid()
      modifies this
      ensures Valid() && current == old(current)
      ensures tasks == if available then old(tasks) + [Task(pid, Ready)] else old(tasks)
    {
      if !available {
        return 0;
      }
      pid := nextPid;
      tasks := tasks + [Task(pid, Ready)];
      nextPid := nextPid + 1;
    }

    /** Removes the terminated tasks other than the current one, keeping the order of the rest. */
    method ReapTerminated()
      requires Valid()
      modifies this
      ensures Valid() && nextPid == old(nextPid)
      ensures tasks == old(Alive(tasks[..current]) + [tasks[current]] + Alive(tasks[current + 1..]))
      ensures current == |old(Alive(tasks[..current]))|
    {
      hide Alive; hide DistinctPids;
      ghost var before, c := tasks, current;
      ghost var done: nat := 0;
      var i := 0;
      ReapStart(before, c);
      while i < |tasks|
        invariant Valid() && nextPid == old(nextPid)
        invariant Reaping(before, c, done, tasks, i, current)
        decreases |tasks| - i
      {
        ReapHead(before, c, done, tasks, i, current);
        if tasks[i].state == Terminated && i != current {
          ReapRemove(before, c, done, tasks, i, current);
          RemovedOk(tasks, i, current, nextPid);
          tasks := tasks[..i] + tasks[i + 1..];
          if i < current {
            current := current - 1;
          }
        } else {
          ReapKeep(before, c, done, tasks, i, current);
          i := i + 1;
        }
        done := done + 1;
      }
      ReapEnd(before, c, done, tasks, i, current);
    }

    /** The circular scan: it stops at the first ready task, or back at the current one. */
    method FindNext() returns (next: nat)
      requires Valid()
      ensures var rest := RingOf(tasks, current).rest; var d := FirstReady(rest);
        && d < |tasks| && next == Around(current, d, |tasks|) && (next == current <==> d == |rest|)
        && (next != current ==> tasks[next].state == Ready && tasks[next] == rest[d])
    {
      ghost var rest := RingOf(tasks, current).rest;
      next := if current + 1 < |tasks| then current + 1 else 0;
      ghost var d := 0;
      while next != current && tasks[next].state != Ready
        invariant d < |tasks| && next == Around(current, d, |tasks|)
        invariant forall e :: 0 <= e < d ==> rest[e].state != Ready
        decreases |tasks| - d
      {
        RestAt(tasks, current, d);
        next := if next + 1 < |tasks| then next + 1 else 0;
        d := d + 1;
      }
      if next != current { RestAt(tasks, current, d); }
      FirstReadyIs(rest, d);
    }

    /** The task at next takes over; taking over is making it the current task. */
    method SwitchTo(next: nat)
      requires Valid() && next < |tasks| && next != current
      modifies this`tasks, this`current
      ensures Valid() && current == next
      ensures tasks == old(tasks[current := Paused(tasks[current])][next := tasks[next].(state := Running)])
    {
      assert current < |tasks|;
      SwitchedOk(tasks, current, next, nextPid);
      hide QueueOk;
      ghost var was := tasks;
      var previous := current;
      tasks := tasks[next := tasks[next].(state := Running)];
      if tasks[previous].state == Running {
        tasks := tasks[previous := tasks[previous].(state := Ready)];
      }
      current := next;
      tasks := tasks[current := tasks[current].(state := Running)];
      assert tasks == was[previous := Paused(was[previous])][next := was[next].(state := Running)];
    }

    /** One call of the scheduler. */
    method Schedule()
      requires Valid()
      modifies this
      ensures Valid() && nextPid == old(nextPid)
      ensures RingOf(tasks, current) == ScheduleRing(old(RingOf(tasks, current)))
    {
      assert current < |tasks|;
      ghost var before, c := tasks, current;
      ReapTerminated();
      assert current < |tasks|;
      hide Alive; hide FirstReady; hide QueueOk; hide ScheduleRing;
      ghost var d := FirstReady(RingOf(tasks, current).rest);
      var next := FindNext();
      ScheduledRing(before, c, tasks, current, d, next);
      if next == current || tasks[next].state != Ready {
        return;
      }
      SwitchTo(next);
    }

    /** The current task ends; it is reaped by a later call, once another task runs. */
    method Exit()
      requires Valid()
      modifies this
      ensures Valid()
      ensures var r := old(RingOf(tasks, current));
        RingOf(tasks, current) == ScheduleRing(r.(current := r.current.(state := Terminated)))
    {
      tasks := tasks[current := tasks[current].(state := Terminated)];
      Schedule();
    }
  }

  // ---------------------------------------------------------------- the loop of the reaper

  /** After the first done tasks of before, whose current one is c: ts is what is left, with the scan at i. */
  ghost predicate Reaping(before: seq<Task>, c: nat, done: nat, ts: seq<Task>, i: nat, current: nat) {
    && c < |before| && done <= |before| && i <= |ts| && ts[i..] == before[done..]
    && if done <= c then ts[..i] == Alive(before[..done]) && current == i + (c - done)
       else ts[..i] == Alive(before[..c]) + [before[c]] + Alive(before[c + 1..done]) && current == |Alive(before[..c])|
  }

  lemma AliveMore(before: seq<Task>, a: nat, done: nat)
    requires a <= done < |before|
    ensures Alive(before[a..done + 1]) == Alive(before[a..done]) + if before[done].state == Terminated then []
        else [before[done]]
  {
    assert before[a..done + 1] == before[a..done] + [before[done]];
    AliveSplit(before[a..done], [before[done]]);
  }

  lemma ReapStart(before: seq<Task>, c: nat)
    requires c < |before|
    ensures Reaping(before, c, 0, before, 0, c)
  {
    assert before[..0] == [];
  }

  lemma ReapHead(before: seq<Task>, c: nat, done: nat, ts: seq<Task>, i: nat, current: nat)
    requires Reaping(before, c, done, ts, i, current) && i < |ts|
    ensures done < |before| && ts[i] == before[done] && (i == current <==> done == c)
  {
    assert ts[i] == ts[i..][0];
  }

  lemma ReapRemove(before: seq<Task>, c: nat, done: nat, ts: seq<Task>, i: nat, current: nat)
    requires Reaping(before, c, done, ts, i, current) && i < |ts| && i != current && ts[i].state == Terminated
    ensures Reaping(before, c, done + 1, ts[..i] + ts[i + 1..], i, if i < current then current - 1 else current)
  {
    ReapHead(before, c, done, ts, i, current);
    hide Alive;
    var ts' := ts[..i] + ts[i + 1..];
    assert ts'[i..] == ts[i + 1..] == ts[i..][1..] == before[done + 1..];
    assert ts'[..i] == ts[..i];
    AliveMore(before, 0, done);
    assert before[0..done] == before[..done] && before[0..done + 1] == before[..done + 1];
    if done > c { AliveMore(before, c + 1, done); }
  }

  lemma ReapKeep(before: seq<Task>, c: nat, done: nat, ts: seq<Task>, i: nat, current: nat)
    requires Reaping(before, c, done, ts, i, current) && i < |ts| && (i == current || ts[i].state != Terminated)
    ensures Reaping(before, c, done + 1, ts, i + 1, current)
  {
    ReapHead(before, c, done, ts, i, current);
    assert before[c + 1..c + 1] == [] && Alive([]) == [];
    hide Alive;
    assert ts[i + 1..] == ts[i..][1..] == before[done + 1..];
    assert ts[..i + 1] == ts[..i] + [before[done]];
    AliveMore(before, 0, done);
    assert before[0..done] == before[..done] && before[0..done + 1] == before[..done + 1];
    if done > c { AliveMore(before, c + 1, done); }
    assert done == c ==> ts[..i] == Alive(before[..c]) && ts[..i] + [before[c]] + [] == ts[..i + 1];
  }

  lemma ReapEnd(before: seq<Task>, c: nat, done: nat, ts: seq<Task>, i: nat, current: nat)
    requires Reaping(before, c, done, ts, i, current) && i == |ts|
    ensures ts == Alive(before[..c]) + [before[c]] + Alive(before[c + 1..]) && current == |Alive(before[..c])|
  {
    assert |before[done..]| == 0;
    assert ts[..i] == ts && before[c + 1..done] == before[c + 1..];
  }

  lemma RemovedOk(ts: seq<Task>, i: nat, current: nat, nextPid: nat)
    requires QueueOk(ts, current, nextPid) && i < |ts| && i != current
    ensures QueueOk(ts[..i] + ts[i + 1..], if i < current then current - 1 else current, nextPid)
  {
    var ts' := ts[..i] + ts[i + 1..];
    assert forall k :: 0 <= k < |ts'| ==> ts'[k] == ts[if k < i then k else k + 1];
  }

  /** Reaping, seen from the current task. */
  lemma ReapedRing(before: seq<Task>, c: nat, ts: seq<Task>, current: nat)
    requires c < |before| && ts == Alive(before[..c]) + [before[c]] + Alive(before[c + 1..]) &&
        current == |Alive(before[..c])|
    ensures RingOf(ts, current) == Ring(before[c], Alive(RingOf(before, c).rest))
  {
    AliveSplit(before[c + 1..], before[..c]);
    assert ts[current + 1..] == Alive(before[c + 1..]) && ts[..current] == Alive(before[..c]);
  }

  /** The reaped queue and the scan over it, put together. */
  lemma ScheduledRing(before: seq<Task>, c: nat, ts: seq<Task>, current: nat, d: nat, next: nat)
    requires c < |before| && ts == Alive(before[..c]) + [before[c]] + Alive(before[c + 1..]) &&
        current == |Alive(before[..c])|
    requires d < |ts| && next == Around(current, d, |ts|) && d == FirstReady(RingOf(ts, current).rest)
    ensures d == |ts| - 1 ==> RingOf(ts, current) == ScheduleRing(RingOf(before, c))
    ensures d < |ts| - 1 ==>
      RingOf(ts[current := Paused(ts[current])][next := ts[next].(state := Running)], next)
        == ScheduleRing(RingOf(before, c))
  {
    hide Alive; hide FirstReady; hide Around; hide ScheduleRing;
    ReapedRing(before, c, ts, current);
    ScanOf(RingOf(before, c), RingOf(ts, current));
    if d < |ts| - 1 { Switched(ts, current, d, next); }
  }

  /** The call, seen after reaping. */
  lemma ScanOf(r: Ring, reaped: Ring)
    requires reaped == Ring(r.current, Alive(r.rest))
    ensures var d := FirstReady(reaped.rest);
      && d <= |reaped.rest|
      && ScheduleRing(r) == if d == |reaped.rest| then reaped
         else Ring(reaped.rest[d].(state := Running), reaped.rest[d + 1..] + [Paused(r.current)] + reaped.rest[..d])
  {
    hide Alive; hide FirstReady;
  }

  lemma SwitchedOk(ts: seq<Task>, current: nat, next: nat, nextPid: nat)
    requires QueueOk(ts, current, nextPid) && next < |ts| && next != current
    ensures QueueOk(ts[current := Paused(ts[current])][next := ts[next].(state := Running)], next, nextPid)
  {
  }

  /** Switching to the task d places on, seen from the new current task. */
  lemma Switched(ts: seq<Task>, current: nat, d: nat, next: nat)
    requires current < |ts| && d < |ts| - 1 && next == Around(current, d, |ts|)
    ensures var ts' := ts[current := Paused(ts[current])][next := ts[next].(state := Running)];
      var rest := RingOf(ts, current).rest;
      RingOf(ts', next) == Ring(rest[d].(state := Running), rest[d + 1..] + [Paused(ts[current])] + rest[..d])
  {
    var ts' := ts[current := Paused(ts[current])][next := ts[next].(state := Running)];
    var rest, rest' := RingOf(ts, current).rest, RingOf(ts', next).rest;
    var expected := rest[d + 1..] + [Paused(ts[current])] + rest[..d];
    RestAt(ts, current, d);
    forall k: nat | k < |rest'| ensures rest'[k] == expected[k] {
      RestAt(ts', next, k);
      if k < |rest| - d - 1 {
        RestAt(ts, current, d + 1 + k);
      } else if k > |rest| - d - 1 {
        RestAt(ts, current, k - (|rest| - d));
      }
    }
  }
}
