/**
 The editor's undo and redo stacks, as sequences of snapshots with the newest last.
 */
module History {
  import opened TextDoc

  const MAX_UNDO_LEVELS: nat := 100

  datatype Session = Session(now: Snap, undo: seq<Snap>, redo: seq<Snap>)

  /** A full stack drops its oldest snapshot. */
  function Push(stack: seq<Snap>, s: Snap): seq<Snap> {
    (if |stack| >= MAX_UNDO_LEVELS then stack[1..] else stack) + [s]
  }

  function Init(stack: seq<Snap>): seq<Snap>
    requires stack != []
  {
    stack[..|stack| - 1]
  }

  /** An edit that changed the document to now: cloned tells whether memory for the snapshot was found. */
  function Edited(h: Session, now: Snap, cloned: bool): Session {
    Session(now, if cloned then Push(h.undo, h.now) else h.undo, [])
  }

  /** An edit that changed nothing: the snapshot pushed for it is discarded. */
  function Refused(h: Session, cloned: bool): Session {
    if cloned then h.(undo := Init(Push(h.undo, h.now))) else h
  }

  function Undo(h: Session, cloned: bool): Session {
    if h.undo == [] then h
    else Session(h.undo[|h.undo| - 1], Init(h.undo), if cloned then Push(h.redo, h.now) else h.redo)
  }

  function Redo(h: Session, cloned: bool): Session {
    if h.redo == [] then h
    else Session(h.redo[|h.redo| - 1], if cloned then Push(h.undo, h.now) else h.undo, Init(h.redo))
  }

  // ---------------------------------------------------------------- sessions

  datatype Op = Type(c: char) | Enter | Backspace | Delete | Arrow(key: Key) | DoUndo | DoRedo

  predicate IsEdit(op: Op) {
    op.Type? || op.Enter? || op.Backspace? || op.Delete?
  }

  /** A command and its memory: whether its edit found what it needed, and whether a snapshot could be cloned. */
  datatype Act = Act(op: Op, room: bool, cloned: bool)

  /** An edit of this document changes it. */
  predicate Changes(s: Snap, op: Op)
    requires InDoc(s)
  {
    match op
    case Type(_) => true
    case Enter => true
    case Backspace => CanDeleteBackward(s)
    case Delete => CanDeleteForward(s)
    case _ => false
  }

  function Apply(s: Snap, op: Op): Snap
    requires InDoc(s) && Changes(s, op)
  {
    match op
    case Type(c) => InsertChar(s, c)
    case Enter => InsertNewline(s)
    case Backspace => DeleteBackward(s)
    case Delete => DeleteForward(s)
  }

  /** Every document on the stacks and on the screen is well formed, with its cursor in the window. */
  ghost predicate Sound(h: Session) {
    && InDoc(h.now) && InWindow(h.now)
    && (forall i :: 0 <= i < |h.undo| ==> InDoc(h.undo[i]) && InWindow(h.undo[i]))
    && (forall i :: 0 <= i < |h.redo| ==> InDoc(h.redo[i]) && InWindow(h.redo[i]))
  }

  /** Between them the stacks never hold more than one stack's worth of snapshots. */
  ghost predicate Bounded(h: Session) {
    |h.undo| + |h.redo| <= MAX_UNDO_LEVELS
  }

  /** The edit is one that changes the document, and it found the memory it needed. */
  predicate Effective(s: Snap, a: Act)
    requires InDoc(s)
  {
    Changes(s, a.op) && a.room
  }

  /** One command. */
  function Step(h: Session, a: Act): Session
    requires InDoc(h.now)
  {
    match a.op
    case Arrow(k) => h.(now := Move(h.now, k))
    case DoUndo => Undo(h, a.cloned)
    case DoRedo => Redo(h, a.cloned)
    case _ => if Effective(h.now, a) then Edited(h, Apply(h.now, a.op), a.cloned) else Refused(h, a.cloned)
  }

  lemma ApplyFacts(s: Snap, op: Op)
    requires InDoc(s) && Changes(s, op)
    ensures InDoc(Apply(s, op)) && InWindow(Apply(s, op))
    ensures |View(Apply(s, op)).text| != |View(s).text|
  {
    match op
    case Type(c) => InsertCharRefines(s, c);
    case Enter => InsertNewlineRefines(s);
    case Backspace => DeleteBackwardRefines(s);
    case Delete => DeleteForwardRefines(s);
  }

  lemma EditedSound(h: Session, now: Snap, cloned: bool)
    requires Sound(h) && Bounded(h) && InDoc(now) && InWindow(now)
    ensures Sound(Edited(h, now, cloned)) && Bounded(Edited(h, now, cloned))
  {
    hide InDoc; hide InWindow;
  }

  lemma MovedSound(h: Session, key: Key)
    requires Sound(h) && Bounded(h)
    ensures Sound(h.(now := Move(h.now, key))) && Bounded(h.(now := Move(h.now, key)))
  {
    MoveRefines(h.now, key);
  }

  /** Undo and redo never find the other stack full: no snapshot is evicted. */
  lemma UndoneSound(h: Session, cloned: bool)
    requires Sound(h) && Bounded(h)
    ensures Sound(Undo(h, cloned)) && Sound(Redo(h, cloned)) && Bounded(Undo(h, cloned)) && Bounded(Redo(h, cloned))
    ensures h.undo != [] ==> Push(h.redo, h.now) == h.redo + [h.now]
    ensures h.redo != [] ==> Push(h.undo, h.now) == h.undo + [h.now]
  {
    hide InDoc; hide InWindow;
  }

  lemma RefusedSound(h: Session, cloned: bool)
    requires Sound(h) && Bounded(h)
    ensures Sound(Refused(h, cloned)) && Bounded(Refused(h, cloned))
  {
    hide InDoc; hide InWindow;
  }

  /** Every command keeps every document sound and the stacks bounded, whatever memory there is. */
  lemma StepSound(h: Session, a: Act)
    requires Sound(h) && Bounded(h)
    ensures Sound(Step(h, a)) && Bounded(Step(h, a))
  {
    if a.op.Arrow? {
      MovedSound(h, a.op.key);
    } else if a.op.DoUndo? || a.op.DoRedo? {
      UndoneSound(h, a.cloned);
    } else if Effective(h.now, a) {
      ApplyFacts(h.now, a.op);
      EditedSound(h, Apply(h.now, a.op), a.cloned);
    } else {
      RefusedSound(h, a.cloned);
    }
    hide Sound; hide Bounded; hide Apply; hide Move; hide Push;
  }

  function Run(h: Session, acts: seq<Act>): Session
    requires Sound(h) && Bounded(h)
    decreases |acts|
  {
    if acts == [] then h else StepSound(h, acts[0]); Run(Step(h, acts[0]), acts[1..])
  }

  /** Over any run the stacks stay bounded, so undo never drops a redo snapshot nor redo an undo snapshot. */
  lemma {:induction false} RunSound(h: Session, acts: seq<Act>)
    requires Sound(h) && Bounded(h)
    ensures Sound(Run(h, acts)) && Bounded(Run(h, acts))
    ensures Run(h, acts).undo != [] ==> Undo(Run(h, acts), true).redo == Run(h, acts).redo + [Run(h, acts).now]
    ensures Run(h, acts).redo != [] ==> Redo(Run(h, acts), true).undo == Run(h, acts).undo + [Run(h, acts).now]
    decreases |acts|
  {
    if acts != [] { StepSound(h, acts[0]); RunSound(Step(h, acts[0]), acts[1..]); }
  }

  // ---------------------------------------------------------------- undo and redo are inverse

  lemma RedoUndo(h: Session)
    requires Bounded(h) && h.undo != []
    ensures Redo(Undo(h, true), true) == h
  {
    assert Init(h.redo + [h.now]) == h.redo;
    assert Init(h.undo) + [h.undo[|h.undo| - 1]] == h.undo;
  }

  lemma UndoRedo(h: Session)
    requires Bounded(h) && h.redo != []
    ensures Undo(Redo(h, true), true) == h
  {
    assert Init(h.undo + [h.now]) == h.undo;
    assert Init(h.redo) + [h.redo[|h.redo| - 1]] == h.redo;
  }

  function Undos(h: Session, k: nat): Session
    decreases k
  {
    if k == 0 then h else Undos(Undo(h, true), k - 1)
  }

  function Redos(h: Session, k: nat): Session
    decreases k
  {
    if k == 0 then h else Redos(Redo(h, true), k - 1)
  }

  lemma {:induction false} RedosLast(h: Session, k: nat)
    ensures Redos(h, k + 1) == Redo(Redos(h, k), true)
    decreases k
  {
    if k > 0 { RedosLast(Redo(h, true), k - 1); }
  }

  /** Redoing as often as was undone gives the whole session back: document, cursor, scroll and both stacks. */
  lemma {:induction false} RedosUndos(h: Session, k: nat)
    requires Bounded(h) && k <= |h.undo|
    ensures Redos(Undos(h, k), k) == h
    decreases k
  {
    if k > 0 {
      RedosUndos(Undo(h, true), k - 1);
      RedosLast(Undos(h, k), k - 1);
      RedoUndo(h);
    }
  }

  /** What k undos show: the k-th newest snapshot, or the oldest when there are fewer. */
  lemma {:induction false} UndosShow(h: Session, k: nat)
    ensures Undos(h, k).now == if k == 0 || h.undo == [] then h.now else if k <= |h.undo| then h.undo[|h.undo| - k]
        else h.undo[0]
    decreases k
  {
    if k > 0 && h.undo != [] { UndosShow(Undo(h, true), k - 1); }
    else if k > 0 { UndosShow(h, k - 1); }
  }

  // ---------------------------------------------------------------- what there is to redo

  /** After an edit that changed the document there is nothing to redo. */
  lemma EditEndsRedo(h: Session, a: Act, cloned: bool)
    requires InDoc(h.now) && Effective(h.now, a)
    ensures Redo(Step(h, a), cloned) == Step(h, a)
  {
    hide Apply; hide Push;
  }

  lemma RefusedKeeps(h: Session, pushed: bool, cloned: bool)
    requires Bounded(h)
    ensures Refused(h, pushed).now == h.now && Refused(h, pushed).redo == h.redo
    ensures h.undo != [] ==> Undo(Refused(h, pushed), cloned).now == Undo(h, cloned).now
    ensures h.redo != [] ==> Redo(Refused(h, pushed), cloned).now == Redo(h, cloned).now
  {
  }

  lemma MovedKeeps(h: Session, now: Snap, cloned: bool)
    ensures h.undo != [] ==> Undo(h.(now := now), cloned).now == Undo(h, cloned).now
    ensures h.redo != [] ==> Redo(h.(now := now), cloned).now == Redo(h, cloned).now
  {
  }

  /** Moving the cursor, or an edit that changed nothing, leaves what the next undo and the next redo show. */
  lemma QuietKeepsHistory(h: Session, a: Act, cloned: bool)
    requires Sound(h) && Bounded(h) && !a.op.DoUndo? && !a.op.DoRedo? && !Effective(h.now, a)
    ensures InDoc(Step(h, a).now) && View(Step(h, a).now).text == View(h.now).text
    ensures h.undo != [] ==> Undo(Step(h, a), cloned).now == Undo(h, cloned).now
    ensures h.redo != [] ==> Redo(Step(h, a), cloned).now == Redo(h, cloned).now
    ensures |Step(h, a).redo| == |h.redo|
  {
    hide Move; hide InWindow; hide Join; hide Before; hide Changes; hide Refused; hide Undo; hide Redo;
    if a.op.Arrow? {
      MoveRefines(h.now, a.op.key);
      MovedKeeps(h, Move(h.now, a.op.key), cloned);
    } else {
      RefusedKeeps(h, a.cloned, cloned);
    }
  }

  /** How often undo, and then redo, can change the document. */
  datatype Counts = Counts(back: nat, forward: nat)

  function Min(a: nat, b: nat): nat {
    if a < b then a else b
  }

  /** The counts after one command, by what it did and the memory it found. */
  function Counted(n: Counts, s: Snap, a: Act): Counts
    requires InDoc(s)
  {
    match a.op
    case Arrow(_) => n
    case DoUndo => if n.back == 0 then n else Counts(n.back - 1, n.forward + if a.cloned then 1 else 0)
    case DoRedo => if n.forward == 0 then n else Counts(n.back + if a.cloned then 1 else 0, n.forward - 1)
    case _ =>
      if Effective(s, a) then Counts(if a.cloned then Min(n.back + 1, MAX_UNDO_LEVELS) else n.back, 0)
      else if a.cloned then n.(back := Min(n.back, MAX_UNDO_LEVELS - 1))
      else n
  }

  function Tally(n: Counts, h: Session, acts: seq<Act>): Counts
    requires Sound(h) && Bounded(h)
    decreases |acts|
  {
    if acts == [] then n
    else StepSound(h, acts[0]); Tally(Counted(n, h.now, acts[0]), Step(h, acts[0]), acts[1..])
  }

  lemma StepCounted(h: Session, a: Act)
    requires Sound(h) && Bounded(h)
    ensures Counts(|Step(h, a).undo|, |Step(h, a).redo|) == Counted(Counts(|h.undo|, |h.redo|), h.now, a)
  {
    hide Apply; hide Move; hide InDoc; hide InWindow;
  }

  lemma {:induction false} RunCounted(h: Session, acts: seq<Act>)
    requires Sound(h) && Bounded(h)
    ensures Counts(|Run(h, acts).undo|, |Run(h, acts).redo|) == Tally(Counts(|h.undo|, |h.redo|), h, acts)
    decreases |acts|
  {
    if acts == [] {
    } else {
      StepSound(h, acts[0]);
      StepCounted(h, acts[0]);
      hide Step; hide Sound; hide Bounded; hide Counted;
      RunCounted(Step(h, acts[0]), acts[1..]);
    }
  }

  /**
   Over any run: redo changes nothing exactly when no undo waits to be redone, where an undo waits until a redo
   answers it or an edit changes the document; and undo changes nothing exactly when the count of what can be taken
   back is 0.
   */
  lemma RedoIdle(h: Session, acts: seq<Act>, cloned: bool)
    requires Sound(h) && Bounded(h)
    ensures var v := Run(h, acts); var n := Tally(Counts(|h.undo|, |h.redo|), h, acts);
      && (Redo(v, cloned) == v <==> n.forward == 0)
      && (Undo(v, cloned) == v <==> n.back == 0)
  {
    RunCounted(h, acts);
    hide Run; hide Tally; hide Sound; hide Bounded;
    var v := Run(h, acts);
    assert v.redo != [] ==> |Redo(v, cloned).redo| < |v.redo|;
    assert v.undo != [] ==> |Undo(v, cloned).undo| < |v.undo|;
  }

  lemma OneTyped(c: char)
    ensures InsertChar(Snap([""], 0, 0, 0, 0), c).lines == [[c]]
  {
    assert [][..0] + [c] + [][0..] == [c];
  }

  /** From the empty document: a character, undone, another typed over it, and redo leaves that one. */
  lemma TypedOver(c: char, d: char)
    ensures var h := Session(Snap([""], 0, 0, 0, 0), [], []);
      var acts := [Act(Type(c), true, true), Act(DoUndo, true, true), Act(Type(d), true, true),
          Act(DoRedo, true, true)];
      Sound(h) && Run(h, acts).now.lines == [[d]]
  {
    var h := Session(Snap([""], 0, 0, 0, 0), [], []);
    var a, b, e, r := Act(Type(c), true, true), Act(DoUndo, true, true), Act(Type(d), true, true),
        Act(DoRedo, true, true);
    var acts := [a, b, e, r];
    var h1 := Step(h, a);
    assert h1.undo == [h.now];
    var h2 := Step(h1, b);
    assert h2.now == h.now;
    var h3 := Step(h2, e);
    OneTyped(d);
    assert h2.now == Snap([""], 0, 0, 0, 0) && h3.now == InsertChar(h2.now, d);
    EditEndsRedo(h2, e, true);
    StepSound(h, a); StepSound(h1, b); StepSound(h2, e); StepSound(h3, r);
    hide Step; hide Sound; hide Bounded;
    assert acts[1..] == [b, e, r] && [b, e, r][1..] == [e, r] && [e, r][1..] == [r] && [r][1..] == [];
    assert Run(h, acts) == Run(h1, [b, e, r]);
    assert Run(h1, [b, e, r]) == Run(h2, [e, r]);
    assert Run(h2, [e, r]) == Run(h3, [r]);
    assert Run(h3, [r]) == Run(Step(h3, r), []);
  }

  // ---------------------------------------------------------------- undoing a run of edits

  predicate NoHistory(acts: seq<Act>) {
    forall i :: 0 <= i < |acts| ==> !acts[i].op.DoUndo? && !acts[i].op.DoRedo?
  }

  /** The document after a command that is neither undo nor redo. */
  function Next(s: Snap, a: Act): Snap
    requires InDoc(s)
  {
    if a.op.Arrow? then Move(s, a.op.key) else if Effective(s, a) then Apply(s, a.op) else s
  }

  lemma NextFacts(s: Snap, a: Act)
    requires InDoc(s)
    ensures InDoc(Next(s, a)) && (!Effective(s, a) ==> View(Next(s, a)).text == View(s).text)
  {
    if a.op.Arrow? { MoveRefines(s, a.op.key); } else if Effective(s, a) { ApplyFacts(s, a.op); }
  }

  /**
   The documents just before each edit of the run that changed something and had its snapshot cloned, oldest first.
   */
  function Snaps(s: Snap, acts: seq<Act>): seq<Snap>
    requires InDoc(s)
    decreases |acts|
  {
    if acts == [] then []
    else
      NextFacts(s, acts[0]);
      (if Effective(s, acts[0]) && acts[0].cloned then [s] else []) + Snaps(Next(s, acts[0]), acts[1..])
  }

  /** The command pushes a snapshot for an edit that then changes nothing. */
  predicate Wastes(s: Snap, a: Act)
    requires InDoc(s)
  {
    IsEdit(a.op) && !Effective(s, a) && a.cloned
  }

  /** Such a command comes after the last snapshot that was kept. */
  predicate RefusedLast(s: Snap, acts: seq<Act>)
    requires InDoc(s)
    decreases |acts|
  {
    acts != [] &&
    (NextFacts(s, acts[0]);
     RefusedLast(Next(s, acts[0]), acts[1..]) || (Wastes(s, acts[0]) && Snaps(Next(s, acts[0]), acts[1..]) == []))
  }

  function Last(stack: seq<Snap>, n: nat): seq<Snap>
    requires n <= |stack|
  {
    stack[|stack| - n..]
  }

  lemma LastOfLast(a: seq<Snap>, m: nat, b: seq<Snap>, n: nat)
    requires m <= |a| && n <= m + |b|
    ensures Last(Last(a, m) + b, n) == Last(a + b, n)
  {
  }

  lemma PushedLast(u: seq<Snap>, s: Snap)
    requires |u| <= MAX_UNDO_LEVELS
    ensures Push(u, s) == Last(u + [s], Min(|u| + 1, MAX_UNDO_LEVELS))
    ensures Init(Push(u, s)) == Last(u, Min(|u|, MAX_UNDO_LEVELS - 1))
  {
  }

  /** One command that is neither undo nor redo, seen from the undo stack. */
  lemma StepUndo(h: Session, a: Act)
    requires Sound(h) && Bounded(h) && !a.op.DoUndo? && !a.op.DoRedo?
    ensures Step(h, a).now == Next(h.now, a)
    ensures var n := |h.undo|;
      Step(h, a).undo == if Effective(h.now, a) && a.cloned then Last(h.undo + [h.now], Min(n + 1, MAX_UNDO_LEVELS))
        else if Wastes(h.now, a) then Last(h.undo, Min(n, MAX_UNDO_LEVELS - 1)) else h.undo
  {
    hide InDoc; hide InWindow; hide Apply; hide Move; hide Push; hide Last;
    PushedLast(h.undo, h.now);
  }

  /** How many snapshots a full stack is left with after the run. */
  function Cap(s: Snap, acts: seq<Act>): nat
    requires InDoc(s)
  {
    if RefusedLast(s, acts) then MAX_UNDO_LEVELS - 1 else MAX_UNDO_LEVELS
  }

  /** final is what a stack bounded by cap keeps of the snapshots in u and then taken. */
  ghost predicate Keeps(u: seq<Snap>, taken: seq<Snap>, cap: nat, final: seq<Snap>) {
    var all := u + taken;
    var m := Min(|all|, cap);
    m <= |all| && final == Last(all, m)
  }

  lemma KeepsPushed(u: seq<Snap>, s: Snap, u1: seq<Snap>, taken: seq<Snap>, cap: nat, final: seq<Snap>)
    requires |u| <= MAX_UNDO_LEVELS && u1 == Last(u + [s], Min(|u| + 1, MAX_UNDO_LEVELS))
    requires cap <= MAX_UNDO_LEVELS && Keeps(u1, taken, cap, final)
    ensures Keeps(u, [s] + taken, cap, final)
  {
    assert u + ([s] + taken) == (u + [s]) + taken;
    LastOfLast(u + [s], |u1|, taken, |final|);
  }

  lemma KeepsRefused(u: seq<Snap>, u1: seq<Snap>, taken: seq<Snap>, cap: nat, final: seq<Snap>)
    requires |u| <= MAX_UNDO_LEVELS && u1 == Last(u, Min(|u|, MAX_UNDO_LEVELS - 1))
    requires MAX_UNDO_LEVELS - 1 <= cap <= MAX_UNDO_LEVELS && Keeps(u1, taken, cap, final)
    ensures Keeps(u, [] + taken, if taken == [] then MAX_UNDO_LEVELS - 1 else cap, final)
  {
    assert [] + taken == taken;
    LastOfLast(u, |u1|, taken, |final|);
  }

  /** One command: it takes a snapshot, or wastes one, or does neither. */
  lemma KeepsOne(u: seq<Snap>, s: Snap, u1: seq<Snap>, taken: seq<Snap>, cap: nat, final: seq<Snap>, takes: bool,
          wastes: bool)
    requires |u| <= MAX_UNDO_LEVELS && MAX_UNDO_LEVELS - 1 <= cap <= MAX_UNDO_LEVELS && Keeps(u1, taken, cap, final)
    requires u1 == if takes then Last(u + [s], Min(|u| + 1, MAX_UNDO_LEVELS))
                   else if wastes then Last(u, Min(|u|, MAX_UNDO_LEVELS - 1)) else u
    ensures Keeps(u, (if takes then [s] else []) + taken,
                  if wastes && !takes && taken == [] then MAX_UNDO_LEVELS - 1 else cap, final)
  {
    hide Keeps; hide Last;
    if takes {
      KeepsPushed(u, s, u1, taken, cap, final);
    } else if wastes {
      KeepsRefused(u, u1, taken, cap, final);
    } else {
      assert [] + taken == taken;
    }
  }

  lemma CapStep(s: Snap, acts: seq<Act>)
    requires InDoc(s) && acts != []
    ensures InDoc(Next(s, acts[0]))
    ensures var a := acts[0]; var rest := acts[1..]; var s1 := Next(s, a);
      && Snaps(s, acts) == (if Effective(s, a) && a.cloned then [s] else []) + Snaps(s1, rest)
      && Cap(s, acts) == (if Wastes(s, a) && Snaps(s1, rest) == [] then MAX_UNDO_LEVELS - 1 else Cap(s1, rest))
  {
    NextFacts(s, acts[0]);
  }

  /** What the rest of a run makes of the stack, seen from before its first command. */
  lemma OneMore(h: Session, acts: seq<Act>, final: seq<Snap>)
    requires Sound(h) && Bounded(h) && NoHistory(acts) && acts != []
    requires var h1 := Step(h, acts[0]);
      InDoc(h1.now) && Keeps(h1.undo, Snaps(h1.now, acts[1..]), Cap(h1.now, acts[1..]), final)
    ensures Keeps(h.undo, Snaps(h.now, acts), Cap(h.now, acts), final)
  {
    hide Keeps; hide Last; hide Apply; hide Move; hide Changes; hide Effective; hide InDoc; hide Next; hide RefusedLast;
    hide Snaps; hide Step; hide InWindow;
    var a, h1 := acts[0], Step(h, acts[0]);
    StepUndo(h, a);
    CapStep(h.now, acts);
    KeepsOne(h.undo, h.now, h1.undo, Snaps(h1.now, acts[1..]), Cap(h1.now, acts[1..]), final,
        Effective(h.now, a) && a.cloned, Wastes(h.now, a));
  }

  /** The undo stack after a run without undo or redo: the newest of the snapshots there were and those the run took. */
  lemma {:induction false} RunUndo(h: Session, acts: seq<Act>)
    requires Sound(h) && Bounded(h) && NoHistory(acts)
    ensures Keeps(h.undo, Snaps(h.now, acts), Cap(h.now, acts), Run(h, acts).undo)
    decreases |acts|
  {
    if acts == [] {
      assert h.undo + [] == h.undo;
    } else {
      hide Keeps; hide Step; hide Snaps; hide Cap;
      StepSound(h, acts[0]);
      hide Sound; hide Bounded;
      RunUndo(Step(h, acts[0]), acts[1..]);
      OneMore(h, acts, Run(h, acts).undo);
    }
  }

  ghost predicate AllCloned(acts: seq<Act>) {
    forall i :: 0 <= i < |acts| ==> acts[i].cloned
  }

  /** The first snapshot of a run shows the text the run started from, when every snapshot could be cloned. */
  lemma {:induction false} FirstSnap(s: Snap, acts: seq<Act>)
    requires InDoc(s) && AllCloned(acts) && Snaps(s, acts) != []
    ensures InDoc(Snaps(s, acts)[0]) && View(Snaps(s, acts)[0]).text == View(s).text
    decreases |acts|
  {
    NextFacts(s, acts[0]);
    if !Effective(s, acts[0]) { FirstSnap(Next(s, acts[0]), acts[1..]); }
  }

  /** Then the first two snapshots differ. */
  lemma {:induction false} SnapsDiffer(s: Snap, acts: seq<Act>)
    requires InDoc(s) && AllCloned(acts) && |Snaps(s, acts)| > 1
    ensures Snaps(s, acts)[0] != Snaps(s, acts)[1]
    decreases |acts|
  {
    NextFacts(s, acts[0]);
    if Effective(s, acts[0]) {
      ApplyFacts(s, acts[0].op);
      FirstSnap(Next(s, acts[0]), acts[1..]);
    } else {
      SnapsDiffer(Next(s, acts[0]), acts[1..]);
    }
  }

  /**
   After a run that kept k <= 100 snapshots, k undos show again the document, cursor and scroll position of the
   first of them, if and only if there are fewer than 100, or no edit that changed nothing pushed a snapshot after
   the last one: pushing it onto a full stack costs the oldest snapshot.  The one exception is a second snapshot
   that equals the first.
   */
  lemma UndosRestore(h: Session, acts: seq<Act>)
    requires Sound(h) && Bounded(h) && NoHistory(acts)
    requires 1 <= |Snaps(h.now, acts)| <= MAX_UNDO_LEVELS
    ensures var snaps := Snaps(h.now, acts);
      Undos(Run(h, acts), |snaps|).now == snaps[0] <==>
        |snaps| < MAX_UNDO_LEVELS || !RefusedLast(h.now, acts) || snaps[1] == snaps[0]
  {
    hide Snaps; hide Run; hide Undos; hide RefusedLast;
    var snaps, r := Snaps(h.now, acts), Run(h, acts);
    var k, all := |snaps|, h.undo + snaps;
    RunUndo(h, acts);
    UndosShow(r, k);
    assert all[|h.undo|] == snaps[0];
    if k == MAX_UNDO_LEVELS && RefusedLast(h.now, acts) {
      assert r.undo[0] == all[|all| - 99] == snaps[1];
    } else {
      assert r.undo[|r.undo| - k] == all[|all| - k];
    }
  }

  /** When every snapshot could be cloned there is no exception. */
  lemma UndosRestoreCloned(h: Session, acts: seq<Act>)
    requires Sound(h) && Bounded(h) && NoHistory(acts) && AllCloned(acts)
    requires 1 <= |Snaps(h.now, acts)| <= MAX_UNDO_LEVELS
    ensures var snaps := Snaps(h.now, acts);
      Undos(Run(h, acts), |snaps|).now == snaps[0] <==> |snaps| < MAX_UNDO_LEVELS || !RefusedLast(h.now, acts)
  {
    UndosRestore(h, acts);
    if |Snaps(h.now, acts)| > 1 { SnapsDiffer(h.now, acts); }
    hide Undos; hide Run; hide Snaps; hide RefusedLast;
  }

  // ---------------------------------------------------------------- a run that cannot be undone

  const EMPTY: Snap := Snap([""], 0, 0, 0, 0)

  /** Typing c n times and then pressing Delete. */
  function Typing(c: char, n: nat): seq<Act> {
    if n == 0 then [Act(Delete, true, true)] else [Act(Type(c), true, true)] + Typing(c, n - 1)
  }

  ghost predicate AtEnd(s: Snap) {
    InDoc(s) && s.cy == |s.lines| - 1 && s.cx == |s.lines[s.cy]|
  }

  /** At the end of the document each character typed takes a snapshot, and the Delete changes nothing. */
  lemma {:induction false} TypingSnaps(s: Snap, c: char, n: nat)
    requires AtEnd(s)
    ensures |Snaps(s, Typing(c, n))| == n && RefusedLast(s, Typing(c, n)) && NoHistory(Typing(c, n)) &&
        AllCloned(Typing(c, n))
    decreases n
  {
    var acts := Typing(c, n);
    CapStep(s, acts);
    if n == 0 {
      assert acts[1..] == [];
    } else {
      assert acts[1..] == Typing(c, n - 1);
      assert AtEnd(Next(s, acts[0]));
      TypingSnaps(Next(s, acts[0]), c, n - 1);
    }
  }

  /** From the empty document, 100 characters and a Delete at the end: 100 undos do not give the empty document back. */
  lemma TypingNotUndone(c: char)
    ensures var h := Session(EMPTY, [], []);
      Sound(h) && |Snaps(EMPTY, Typing(c, MAX_UNDO_LEVELS))| == MAX_UNDO_LEVELS &&
      Undos(Run(h, Typing(c, MAX_UNDO_LEVELS)), MAX_UNDO_LEVELS).now != EMPTY
  {
    var h, n := Session(EMPTY, [], []), MAX_UNDO_LEVELS;
    TypingSnaps(EMPTY, c, n);
    FirstTyped(c, n);
    hide Typing; hide Undos; hide Run; hide Snaps; hide RefusedLast;
    UndosRestoreCloned(h, Typing(c, n));
  }

  lemma FirstTyped(c: char, n: nat)
    requires n > 0
    ensures Snaps(EMPTY, Typing(c, n)) != [] && Snaps(EMPTY, Typing(c, n))[0] == EMPTY
  {
    CapStep(EMPTY, Typing(c, n));
  }
}
