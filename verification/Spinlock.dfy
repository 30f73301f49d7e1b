/**
 The spinlock of several CPUs, with interrupts.

 Each CPU has its interrupt flag and a stack of activities: the code it was running and the interrupt handlers on
 top of it. Every step below is one atomic action of one CPU, and a run is any sequence of steps; a step that is not
 enabled does nothing.  An interrupt is taken through a gate that clears the flag, and returning from it puts the
 flag back.
 */
module Spinlock {

  /**
   Idle: outside the lock's code.  Saved: the flags have been read and interrupts are about to be cleared.  Trying:
   at the test-and-set.  Waiting: in the inner loop that only reads.  Released: the word is clear and the flags are
   about to be put back.
   */
  datatype Place = Idle | Saved | Trying | Waiting | Holding | Released

  /** saved is the interrupt flag read on the way in; masks is false for the variant that leaves interrupts alone. */
  datatype Activity = Activity(place: Place, saved: bool, masks: bool)

  datatype Cpu = Cpu(ints: bool, stack: seq<Activity>)

  datatype World = World(word: bool, cpus: seq<Cpu>)

  datatype Act = SetInts(on: bool) | PushFlags | ClearInts | BeginPlain | TestAndSet | ReadWord | Release | PopFlags
    | StiIfSaved | Interrupt | Return

  datatype Event = Event(cpu: nat, act: Act)

  const AT_REST := Activity(Idle, false, false)

  function Top(c: Cpu): Activity {
    if c.stack == [] then AT_REST else c.stack[|c.stack| - 1]
  }

  function WithTop(c: Cpu, a: Activity): Cpu {
    if c.stack == [] then c else c.(stack := c.stack[|c.stack| - 1 := a])
  }

  /** What one CPU does, given the lock word it sees. */
  function Move(c: Cpu, word: bool, act: Act): Cpu {
    var top := Top(c);
    match act
    case SetInts(on) => if top.place == Idle then c.(ints := on) else c
    case PushFlags => if top.place == Idle then WithTop(c, Activity(Saved, c.ints, true)) else c
    case ClearInts => if top.place == Saved then WithTop(c, top.(place := Trying)).(ints := false) else c
    case BeginPlain => if top.place == Idle then WithTop(c, Activity(Trying, c.ints, false)) else c
    case TestAndSet => if top.place == Trying then WithTop(c, top.(place := if word then Waiting else Holding)) else c
    case ReadWord => if top.place == Waiting && !word then WithTop(c, top.(place := Trying)) else c
    case Release => if top.place == Holding then WithTop(c, top.(place := if top.masks then Released else Idle)) else c
    case PopFlags => if top.place == Released then WithTop(c, AT_REST).(ints := top.saved) else c
    case StiIfSaved => if top.place == Released then WithTop(c, AT_REST).(ints := c.ints || top.saved) else c
    case Interrupt => if c.ints then Cpu(false, c.stack + [AT_REST]) else c
    case Return => if top.place == Idle && |c.stack| > 1 then Cpu(true, c.stack[..|c.stack| - 1]) else c
  }

  function WordAfter(c: Cpu, word: bool, act: Act): bool {
    if act.TestAndSet? && Top(c).place == Trying then true
    else if act.Release? && Top(c).place == Holding then false
    else word
  }

  function Step(w: World, e: Event): World {
    if e.cpu < |w.cpus| then
      var c := w.cpus[e.cpu];
      World(WordAfter(c, w.word, e.act), w.cpus[e.cpu := Move(c, w.word, e.act)])
    else w
  }

  function Run(w: World, es: seq<Event>): World
    decreases |es|
  {
    if es == [] then w else Run(Step(w, es[0]), es[1..])
  }

  /** Every CPU runs code outside the lock; interrupts may be on or off. */
  ghost predicate Initial(w: World) {
    !w.word && forall c :: 0 <= c < |w.cpus| ==> w.cpus[c].stack == [AT_REST]
  }

  // ---------------------------------------------------------------- mutual exclusion

  ghost predicate Holds(w: World, c: int, i: int) {
    0 <= c < |w.cpus| && 0 <= i < |w.cpus[c].stack| && w.cpus[c].stack[i].place == Holding
  }

  /** The word is set exactly when some activity holds the lock, and no two do. */
  ghost predicate Exclusive(w: World) {
    && (w.word <==> exists c, i :: Holds(w, c, i))
    && (forall c, i, d, j :: Holds(w, c, i) && Holds(w, d, j) ==> c == d && i == j)
    && (forall c :: 0 <= c < |w.cpus| ==> w.cpus[c].stack != [])
  }

  /** Which activities of the moving CPU hold the lock afterwards. */
  lemma HoldsAfter(w: World, e: Event)
    requires e.cpu < |w.cpus| && w.cpus[e.cpu].stack != []
    ensures var c := w.cpus[e.cpu]; var w' := Step(w, e);
      && w'.cpus[e.cpu].stack != []
      && forall d, j :: Holds(w', d, j) <==>
          if d == e.cpu && j == |c.stack| - 1 then
            (Holds(w, d, j) && !e.act.Release?) || (e.act.TestAndSet? && Top(c).place == Trying && !w.word)
          else Holds(w, d, j)
  {
  }

  lemma StepExclusive(w: World, e: Event)
    requires Exclusive(w)
    ensures Exclusive(Step(w, e))
  {
    if e.cpu < |w.cpus| {
      HoldsAfter(w, e);
      var c := w.cpus[e.cpu];
      var top := |c.stack| - 1;
      var w' := Step(w, e);
      assert Top(c).place == Holding <==> Holds(w, e.cpu, top);
      assert Holds(w', e.cpu, top) ==> w'.word;
      forall d, j | Holds(w, d, j) && !(d == e.cpu && j == top && e.act.Release?) ensures Holds(w', d, j) {}
    }
  }

  lemma {:induction false} RunExclusive(w: World, es: seq<Event>)
    requires Exclusive(w)
    ensures Exclusive(Run(w, es))
    decreases |es|
  {
    if es != [] {
      StepExclusive(w, es[0]);
      hide Exclusive; hide Step;
      RunExclusive(Step(w, es[0]), es[1..]);
    }
  }

  /** Over every run no two activities hold the lock, on one CPU or on two, and the word says whether one does. */
  lemma MutualExclusion(w: World, es: seq<Event>)
    requires Initial(w)
    ensures var v := Run(w, es);
      && (forall c, i, d, j :: Holds(v, c, i) && Holds(v, d, j) ==> c == d && i == j)
      && (v.word <==> exists c, i :: Holds(v, c, i))
  {
    assert Exclusive(w);
    RunExclusive(w, es);
  }

  // ---------------------------------------------------------------- interrupts

  /** In the lock's code between clearing interrupts and putting them back. */
  predicate Masked(a: Activity) {
    a.place in {Trying, Waiting, Holding, Released}
  }

  /** Only the top of a stack is inside the lock's code, and then the CPU takes no interrupts. */
  ghost predicate Shielded(c: Cpu) {
    && c.stack != []
    && (forall i :: 0 <= i < |c.stack| - 1 ==> !Masked(c.stack[i]))
    && (forall i :: 0 <= i < |c.stack| && c.stack[i].place == Saved ==> c.stack[i].masks)
    && (Masked(Top(c)) ==> !c.ints && Top(c).masks)
  }

  ghost predicate AllShielded(w: World) {
    forall c :: 0 <= c < |w.cpus| ==> Shielded(w.cpus[c])
  }

  ghost predicate NoPlain(es: seq<Event>) {
    forall i :: 0 <= i < |es| ==> !es[i].act.BeginPlain?
  }

  lemma MoveShielded(c: Cpu, word: bool, act: Act)
    requires Shielded(c) && !act.BeginPlain?
    ensures Shielded(Move(c, word, act))
  {
  }

  lemma {:induction false} RunShielded(w: World, es: seq<Event>)
    requires AllShielded(w) && NoPlain(es)
    ensures AllShielded(Run(w, es))
    decreases |es|
  {
    if es != [] {
      if es[0].cpu < |w.cpus| { MoveShielded(w.cpus[es[0].cpu], w.word, es[0].act); }
      hide Shielded; hide Move;
      RunShielded(Step(w, es[0]), es[1..]);
    }
  }

  /**
   When every acquisition masks interrupts, a CPU that holds the lock has interrupts off and the holder runs on top
   of its stack, so no handler of that CPU is trying for the lock.
   */
  lemma HolderMasked(w: World, es: seq<Event>, c: nat, i: nat)
    requires Initial(w) && NoPlain(es) && Holds(Run(w, es), c, i)
    ensures var cpu := Run(w, es).cpus[c];
      && !cpu.ints && i == |cpu.stack| - 1
      && forall j :: 0 <= j < |cpu.stack| && j != i ==> cpu.stack[j].place !in {Trying, Waiting, Holding}
  {
    RunShielded(w, es);
    var cpu := Run(w, es).cpus[c];
    hide Run;
    assert Shielded(cpu);
    assert Masked(cpu.stack[i]);
    forall j | 0 <= j < |cpu.stack| && j != i ensures cpu.stack[j].place !in {Trying, Waiting, Holding} {
      assert !Masked(cpu.stack[j]);
    }
  }

  /**
   The variant that leaves interrupts alone gives no such promise: a handler can spin on its own CPU's lock for
   ever.
   */
  lemma PlainHolderInterrupted(es: seq<Event>)
    requires forall i :: 0 <= i < |es| ==> es[i].cpu == 0 && !es[i].act.SetInts?
    ensures var w := World(false, [Cpu(true, [AT_REST])]);
      var stuck := Run(w, [Event(0, BeginPlain), Event(0, TestAndSet), Event(0, Interrupt), Event(0, PushFlags),
          Event(0, ClearInts)]);
      && Holds(stuck, 0, 0) && !stuck.cpus[0].ints && stuck.cpus[0].stack[1].place == Trying
      && Holds(Run(stuck, es), 0, 0) && |Run(stuck, es).cpus[0].stack| == 2
  {
    var w := World(false, [Cpu(true, [AT_REST])]);
    var w1 := OneStep(w, BeginPlain, Cpu(true, [Activity(Trying, true, false)]));
    var w2 := OneStep(w1, TestAndSet, Cpu(true, [Activity(Holding, true, false)]));
    var w3 := OneStep(w2, Interrupt, Cpu(false, [Activity(Holding, true, false), AT_REST]));
    var w4 := OneStep(w3, PushFlags, Cpu(false, [Activity(Holding, true, false), Activity(Saved, false, true)]));
    var w5 := OneStep(w4, ClearInts, Cpu(false, [Activity(Holding, true, false), Activity(Trying, false, true)]));
    var e := [Event(0, BeginPlain), Event(0, TestAndSet), Event(0, Interrupt), Event(0, PushFlags),
        Event(0, ClearInts)];
    RunFive(w, e);
    StaysStuck(w5, es);
  }

  lemma OneStep(w: World, act: Act, c: Cpu) returns (w': World)
    requires |w.cpus| == 1
    requires Move(w.cpus[0], w.word, act).ints == c.ints && Move(w.cpus[0], w.word, act).stack == c.stack
    ensures w' == Step(w, Event(0, act)) && w' == World(WordAfter(w.cpus[0], w.word, act), [c])
  {
    w' := Step(w, Event(0, act));
    assert w'.cpus == [c];
  }

  lemma RunFive(w: World, e: seq<Event>)
    requires |e| == 5
    ensures Run(w, e) == Step(Step(Step(Step(Step(w, e[0]), e[1]), e[2]), e[3]), e[4])
  {
    hide Step;
    var w1 := Step(w, e[0]);
    var w2 := Step(w1, e[1]);
    var w3 := Step(w2, e[2]);
    var w4 := Step(w3, e[3]);
    assert Run(w, e) == Run(w1, e[1..]);
    assert Run(w1, e[1..]) == Run(w2, e[1..][1..]) && e[1..][1..] == e[2..];
    assert Run(w2, e[2..]) == Run(w3, e[2..][1..]) && e[2..][1..] == e[3..];
    assert Run(w3, e[3..]) == Run(w4, e[3..][1..]) && e[3..][1..] == e[4..];
    assert Run(w4, e[4..]) == Run(Step(w4, e[4]), e[4..][1..]) && e[4..][1..] == [];
  }

  lemma {:induction false} StaysStuck(w: World, es: seq<Event>)
    requires forall i :: 0 <= i < |es| ==> es[i].cpu == 0 && !es[i].act.SetInts?
    requires w.word && |w.cpus| == 1 && !w.cpus[0].ints && |w.cpus[0].stack| == 2
    requires w.cpus[0].stack[0].place == Holding && w.cpus[0].stack[1].place in {Trying, Waiting}
    ensures Holds(Run(w, es), 0, 0) && |Run(w, es).cpus[0].stack| == 2
    decreases |es|
  {
    if es != [] {
      var v := Step(w, es[0]);
      assert v.word && |v.cpus| == 1 && !v.cpus[0].ints && |v.cpus[0].stack| == 2;
      StaysStuck(v, es[1..]);
    }
  }

  // ---------------------------------------------------------------- a waiter gets the lock

  /** Once round the loops of the acquisition: a read of the word, then a test-and-set. */
  function Attempt(c: nat): seq<Event> {
    [Event(c, ReadWord), Event(c, TestAndSet)]
  }

  /** Code at the test-and-set or in the inner loop. */
  predicate Acquiring(w: World, c: nat) {
    c < |w.cpus| && Top(w.cpus[c]).place in {Trying, Waiting}
  }

  predicate HoldsOnTop(w: World, c: nat) {
    c < |w.cpus| && Top(w.cpus[c]).place == Holding
  }

  /**
   Code that is trying for the lock has it after one round exactly when the word was clear, and otherwise is in the
   inner loop; the word is set either way, and nothing else has changed.
   */
  lemma AttemptTakes(w: World, c: nat)
    requires Acquiring(w, c)
    ensures var v := Run(w, Attempt(c)); var top := Top(w.cpus[c]);
      && v.word
      && (HoldsOnTop(v, c) <==> !w.word)
      && v.cpus == w.cpus[c := WithTop(w.cpus[c], top.(place := if w.word then Waiting else Holding))]
  {
    var cpu := w.cpus[c];
    var w1 := Step(w, Attempt(c)[0]);
    var w2 := Step(w1, Attempt(c)[1]);
    assert Run(w, Attempt(c)) == w2 by {
      hide Step;
      assert Run(w1, Attempt(c)[1..]) == Run(w2, []);
    }
    assert w1.cpus[c].stack == WithTop(cpu, Top(cpu).(place := if w.word then Top(cpu).place else Trying)).stack;
    assert w2.cpus[c].stack == WithTop(cpu, Top(cpu).(place := if w.word then Waiting else Holding)).stack;
  }

  /**
   When every acquisition masks interrupts nothing waits in vain: whatever has happened, code that is trying for the
   lock takes it in one round if the word is clear, and otherwise some other CPU is running the holder, and it takes
   the lock in one round after that CPU's release.
   */
  lemma WaiterServed(w: World, es: seq<Event>, c: nat)
    requires Initial(w) && NoPlain(es) && Acquiring(Run(w, es), c)
    ensures var v := Run(w, es);
      if v.word then
        exists h: nat :: h != c && HoldsOnTop(v, h) && HoldsOnTop(Run(Step(v, Event(h, Release)), Attempt(c)), c)
      else HoldsOnTop(Run(v, Attempt(c)), c)
  {
    var v := Run(w, es);
    MutualExclusion(w, es);
    if v.word {
      var h: int, i: int :| Holds(v, h, i);
      HolderMasked(w, es, h, i);
      hide Run;
      assert HoldsOnTop(v, h) && h != c;
      AttemptTakes(Step(v, Event(h, Release)), c);
    } else {
      AttemptTakes(v, c);
    }
  }

  // ---------------------------------------------------------------- the flags come back

  /** Activity d of CPU c is still in the lock's code. */
  predicate Inside(w: World, c: nat, d: nat) {
    c < |w.cpus| && d < |w.cpus[c].stack| && w.cpus[c].stack[d].place != Idle
  }

  /** Activity d of CPU c is in the lock's code all through the run. */
  ghost predicate InsideThroughout(w: World, es: seq<Event>, c: nat, d: nat)
    decreases |es|
  {
    Inside(w, c, d) && (es != [] ==> InsideThroughout(Step(w, es[0]), es[1..], c, d))
  }

  lemma {:induction false} SavedKept(w: World, es: seq<Event>, c: nat, d: nat)
    requires InsideThroughout(w, es, c, d)
    ensures Inside(Run(w, es), c, d) && Run(w, es).cpus[c].stack[d].saved == w.cpus[c].stack[d].saved
    decreases |es|
  {
    if es != [] {
      assert Inside(Step(w, es[0]), c, d) by { assert InsideThroughout(Step(w, es[0]), es[1..], c, d); }
      StepKeepsSaved(w, es[0], c, d);
      SavedKept(Step(w, es[0]), es[1..], c, d);
    }
  }

  lemma StepKeepsSaved(w: World, e: Event, c: nat, d: nat)
    requires Inside(w, c, d) && Inside(Step(w, e), c, d)
    ensures Step(w, e).cpus[c].stack[d].saved == w.cpus[c].stack[d].saved
  {
  }

  /** Activity d of CPU c, on top of its stack, has released the lock and is about to put the flags back. */
  predicate AtRelease(w: World, c: nat, d: nat) {
    c < |w.cpus| && |w.cpus[c].stack| == d + 1 && w.cpus[c].stack[d].place == Released
  }

  /**
   An acquisition begun with the interrupt flag at some value, however its steps are interleaved with other CPUs and
   with interrupts of its own, ends with the flag at that value again, by either form of release.
   */
  lemma FlagsRestored(w: World, before: seq<Event>, during: seq<Event>, c: nat, d: nat, last: Act)
    requires Initial(w) && NoPlain(before) && NoPlain(during) && (last.PopFlags? || last.StiIfSaved?)
    requires var start := Run(w, before); var begun := Step(start, Event(c, PushFlags));
      && c < |start.cpus| && |start.cpus[c].stack| == d + 1 && start.cpus[c].stack[d].place == Idle
      && InsideThroughout(begun, during, c, d) && AtRelease(Run(begun, during), c, d)
    ensures var start := Run(w, before); var end := Step(Run(Step(start, Event(c, PushFlags)), during), Event(c, last));
      c < |end.cpus| && end.cpus[c].ints == start.cpus[c].ints
  {
    var start := Run(w, before);
    var begun := Step(start, Event(c, PushFlags));
    RunShielded(w, before);
    BegunShielded(start, c);
    RunShielded(begun, during);
    SavedKept(begun, during, c, d);
    var v := Run(begun, during);
    assert begun.cpus[c].stack[d].saved == start.cpus[c].ints;
    hide Run; hide InsideThroughout; hide NoPlain;
    assert Shielded(v.cpus[c]) && Masked(Top(v.cpus[c]));
    hide Shielded; hide AllShielded;
  }

  lemma BegunShielded(w: World, c: nat)
    requires AllShielded(w) && c < |w.cpus|
    ensures AllShielded(Step(w, Event(c, PushFlags)))
  {
    MoveShielded(w.cpus[c], w.word, PushFlags);
    hide Shielded; hide Move;
  }
}
