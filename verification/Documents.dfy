/**
 The editor's document and its file: what a session types is what a save writes, and what a load then shows.
 */
module Documents {
  import opened Basics
  import opened FileData
  import opened FsTree
  import opened Paths
  import opened Saves
  import opened TextDoc
  import opened History
  import opened Serial

  // ---------------------------------------------------------------- characters and bytes

  predicate IsByte(c: char) {
    c as int < 256
  }

  ghost predicate AllBytes(text: string) {
    forall i :: 0 <= i < |text| ==> IsByte(text[i])
  }

  function Encoded(text: string): (bytes: seq<Byte>)
    requires AllBytes(text)
    ensures |bytes| == |text| && forall i :: 0 <= i < |text| ==> bytes[i] as int == text[i] as int
  {
    seq(|text|, i requires 0 <= i < |text| && IsByte(text[i]) => text[i] as int as Byte)
  }

  function Decoded(bytes: seq<Byte>): (text: string)
    ensures |text| == |bytes| && forall i :: 0 <= i < |text| ==> IsByte(text[i]) && text[i] as int == bytes[i] as int
  {
    seq(|bytes|, i requires 0 <= i < |bytes| => bytes[i] as int as char)
  }

  lemma DecodedEncoded(text: string)
    requires AllBytes(text)
    ensures Decoded(Encoded(text)) == text
  {
    var back := Decoded(Encoded(text));
    forall i | 0 <= i < |text| ensures back[i] == text[i] { assert back[i] as int == text[i] as int; }
  }

  // ---------------------------------------------------------------- what a session can contain

  ghost predicate Within(lines: seq<string>, good: char -> bool) {
    forall i, j :: 0 <= i < |lines| && 0 <= j < |lines[i]| ==> good(lines[i][j])
  }

  /** Every document of the session holds good characters only. */
  ghost predicate Holds(h: Session, good: char -> bool) {
    && Within(h.now.lines, good)
    && (forall i :: 0 <= i < |h.undo| ==> Within(h.undo[i].lines, good))
    && (forall i :: 0 <= i < |h.redo| ==> Within(h.redo[i].lines, good))
  }

  lemma JoinNextWithin(lines: seq<string>, y: nat, good: char -> bool)
    requires y + 1 < |lines| && Within(lines, good)
    ensures Within(JoinNext(lines, y), good)
  {
  }

  lemma DropsWithin(s: Snap, good: char -> bool)
    requires InDoc(s) && Within(s.lines, good)
    ensures CanDeleteBackward(s) ==> Within(DropBefore(s).lines, good)
    ensures CanDeleteForward(s) ==> Within(DropAfter(s).lines, good)
  {
    if s.cy > 0 { JoinNextWithin(s.lines, s.cy - 1, good); }
    if s.cy + 1 < |s.lines| { JoinNextWithin(s.lines, s.cy, good); }
    hide JoinNext;
  }

  lemma ApplyWithin(s: Snap, op: Op, good: char -> bool)
    requires InDoc(s) && Changes(s, op) && Within(s.lines, good) && (op.Type? ==> good(op.c))
    ensures Within(Apply(s, op).lines, good)
  {
    DropsWithin(s, good);
    hide DropBefore; hide DropAfter;
  }

  /** No command invents a character. */
  lemma StepHolds(h: Session, a: Act, good: char -> bool)
    requires Sound(h) && Bounded(h) && Holds(h, good) && (a.op.Type? ==> good(a.op.c))
    ensures Holds(Step(h, a), good)
  {
    if !a.op.Arrow? && !a.op.DoUndo? && !a.op.DoRedo? && Changes(h.now, a.op) { ApplyWithin(h.now, a.op, good); }
    hide Within; hide Apply;
  }

  ghost predicate Typed(acts: seq<Act>, good: char -> bool) {
    forall i :: 0 <= i < |acts| && acts[i].op.Type? ==> good(acts[i].op.c)
  }

  /** Over any session, whatever memory there is, the documents hold what was there and what was typed. */
  lemma {:induction false} SessionHolds(h: Session, acts: seq<Act>, good: char -> bool)
    requires Sound(h) && Bounded(h) && Holds(h, good) && Typed(acts, good)
    ensures var v := Run(h, acts); Sound(v) && Bounded(v) && Holds(v, good)
    decreases |acts|
  {
    if acts == [] {
    } else {
      StepSound(h, acts[0]);
      StepHolds(h, acts[0], good);
      hide Step; hide Sound; hide Holds; hide Bounded;
      SessionHolds(Step(h, acts[0]), acts[1..], good);
    }
  }

  // ---------------------------------------------------------------- from a file to a file

  lemma {:induction false} SplitWithin(t: string, good: char -> bool)
    requires forall i :: 0 <= i < |t| ==> good(t[i])
    ensures Within(SplitLines(t), good)
    decreases |t|
  {
    var k := LineLength(t);
    if k < |t| {
      var rest := SplitLines(t[k + 1..]);
      SplitWithin(t[k + 1..], good);
      assert forall i :: 0 < i < |SplitLines(t)| ==> SplitLines(t)[i] == rest[i - 1];
    }
  }

  /** What a loaded document holds: the file's characters, and no newline. */
  lemma ParseWithin(buf: string, good: char -> bool)
    requires forall i :: 0 <= i < |buf| ==> good(buf[i])
    ensures Within(Parse(buf), c => good(c) && c != '\n')
  {
    var raw := SplitLines(Body(buf));
    SplitWithin(Body(buf), good);
    JoinSplit(Body(buf));
    hide SplitLines; hide Join;
    forall i, j | 0 <= i < |raw| && 0 <= j < |Parse(buf)[i]|
        ensures good(Parse(buf)[i][j]) && Parse(buf)[i][j] != '\n' {
      assert Parse(buf)[i] == Strip(buf, raw[i]);
      assert Parse(buf)[i][j] == raw[i][j] && raw[i][j] in raw[i];
    }
  }

  /** No line of a document ever holds a newline, whatever file it was loaded from. */
  lemma NoNewlineTyped(buf: string, acts: seq<Act>)
    requires Typed(acts, c => c != '\n')
    ensures var h := Session(Snap(Parse(buf), 0, 0, 0, 0), [], []);
      Sound(h) && Bounded(h) && InDoc(Run(h, acts).now) && NoNewlines(Run(h, acts).now.lines)
  {
    var h := Session(Snap(Parse(buf), 0, 0, 0, 0), [], []);
    ParseWithin(buf, c => true);
    hide Parse;
    SessionHolds(h, acts, c => c != '\n');
  }

  lemma {:induction false} JoinBytes(lines: seq<string>)
    requires lines != [] && Within(lines, IsByte)
    ensures AllBytes(Join(lines))
  {
    if |lines| > 1 {
      assert Within(lines[1..], IsByte) by {
        assert forall i :: 0 <= i < |lines[1..]| ==> lines[1..][i] == lines[i + 1];
      }
      JoinBytes(lines[1..]);
    }
  }

  /** A character the save of a document can give back: a byte that is neither a newline nor a carriage return. */
  predicate Keepable(c: char) {
    IsByte(c) && c != '\n' && c != '\r'
  }

  lemma KeepableLines(lines: seq<string>, flag: bool)
    requires lines != [] && Within(lines, Keepable)
    ensures NoNewlines(lines) && NoReturns(lines) && AllBytes(Save(lines, flag))
  {
    JoinBytes(lines);
    hide Join;
  }

  /**
   A document saved and then loaded by the same path: the load finds the file exactly when the path reaches it, and
   then shows the same lines with the same flag exactly when the flag is set, or there is one line, or the last line
   is not empty.
   */
  lemma SavedLoads(s: Store, root: nat, depth: map<nat, nat>, cwd: nat, path: string, lines: seq<string>, flag: bool,
          id: nat, room: bool, memory: bool)
    requires Tree(s, root, depth) && cwd in s && id !in s
    requires lines != [] && Within(lines, Keepable) && AllBytes(Save(lines, flag))
    ensures var (t, ok) := Saved(s, root, cwd, path, Encoded(Save(lines, flag)), id, room, memory);
      ok ==>
        var r := Resolve(t, root, cwd, path);
        && (r.Some? <==> Reaches(s, root, cwd, path))
        && (r.Some? ==> r.value in t && !t[r.value].dir && Decoded(t[r.value].data) == Save(lines, flag))
    ensures (Parse(Save(lines, flag)) == lines && EndsWithNewline(Save(lines, flag)) == flag)
      <==> flag || |lines| == 1 || lines[|lines| - 1] != []
  {
    KeepableLines(lines, flag);
    ParseSave(lines, flag);
    var bytes := Encoded(Save(lines, flag));
    DecodedEncoded(Save(lines, flag));
    hide Save; hide Parse; hide EndsWithNewline; hide Saved; hide Resolve; hide Reaches; hide Tree; hide Encoded;
    hide Decoded;
    if Saved(s, root, cwd, path, bytes, id, room, memory).1 {
      SavedResolves(s, root, depth, cwd, path, bytes, id, room, memory);
    }
  }

  /**
   A file without carriage returns, edited in any session and with any memory, saved and loaded again: what the load
   shows is what the editor showed, exactly under that condition.
   */
  lemma EditedSavedLoaded(buf: string, acts: seq<Act>, s: Store, root: nat, depth: map<nat, nat>, cwd: nat,
          path: string, id: nat, room: bool, memory: bool)
    requires Tree(s, root, depth) && cwd in s && id !in s && Resolve(s, root, cwd, path).Some?
    requires AllBytes(buf) && '\r' !in buf && Typed(acts, Keepable)
    ensures var h := Session(Snap(Parse(buf), 0, 0, 0, 0), [], []); var flag := EndsWithNewline(buf);
      Sound(h) && Bounded(h) &&
      var lines := Run(h, acts).now.lines;
      lines != [] && AllBytes(Save(lines, flag)) &&
      var (t, ok) := Saved(s, root, cwd, path, Encoded(Save(lines, flag)), id, room, memory);
      ok ==>
        var r := Resolve(t, root, cwd, path);
        && r.Some? && r.value in t && !t[r.value].dir
        && var again := Decoded(t[r.value].data);
          (Parse(again) == lines && EndsWithNewline(again) == flag)
              <==> flag || |lines| == 1 || lines[|lines| - 1] != []
  {
    var h, flag := Session(Snap(Parse(buf), 0, 0, 0, 0), [], []), EndsWithNewline(buf);
    LoadedHolds(buf);
    hide Sound; hide Holds; hide Bounded; hide Parse;
    SessionHolds(h, acts, Keepable);
    var lines := Run(h, acts).now.lines;
    HeldLines(Run(h, acts));
    KeepableLines(lines, flag);
    hide Run; hide Save; hide Saved; hide Resolve; hide Tree; hide EndsWithNewline;
    SavedLoads(s, root, depth, cwd, path, lines, flag, id, room, memory);
  }

  lemma LoadedHolds(buf: string)
    requires AllBytes(buf) && '\r' !in buf
    ensures var h := Session(Snap(Parse(buf), 0, 0, 0, 0), [], []); Sound(h) && Bounded(h) && Holds(h, Keepable)
  {
    ParseWithin(buf, c => IsByte(c) && c != '\r');
    hide Parse;
  }

  lemma HeldLines(h: Session)
    requires Sound(h) && Holds(h, Keepable)
    ensures h.now.lines != [] && Within(h.now.lines, Keepable)
  {
  }
}
