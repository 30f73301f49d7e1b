/**
 The text editor: lines in buffers with spare capacity, edited in place, and the undo and redo stacks.

 Where the kernel asks the heap for memory, the operation takes a boolean that says whether the heap had any.
 */
module Editor {
  import opened Basics
  import opened TextDoc
  import opened History
  import opened Documents
  import opened FsTree
  import opened Paths
  import opened Saves
  import opened RamFs
  import Serial

  /** One line: the first len characters of a buffer, followed by '\0'. */
  datatype Line = Line(data: seq<char>, len: nat) {
    predicate Valid() {
      len < |data| && data[len] == '\0'
    }

    function Text(): string
      requires Valid()
    {
      data[..len]
    }
  }

  /** A line with no buffer yet. */
  const NO_BUFFER := Line([], 0)

  /** A buffer of just the size the text needs. */
  function Exact(text: string): (line: Line)
    ensures line.Valid() && line.Text() == text && |line.data| == |text| + 1
  {
    Line(text + ['\0'], |text|)
  }

  /** Fresh memory: its contents are not known. */
  method Allocate(n: nat) returns (buffer: seq<char>)
    ensures |buffer| == n
  {
    buffer := seq(n, _ => '?');
  }

  /** Makes the buffer hold at least needed characters, doubling its size if need be. */
  method LineReserve(line: Line, needed: nat, available: bool) returns (ok: bool, line': Line)
    requires line.Valid() || line == NO_BUFFER
    ensures ok == (|line.data| >= needed || available)
    ensures if ok then |line'.data| >= needed && line'.len == line.len else line' == line
    ensures line.Valid() ==> line'.Valid() && line'.Text() == line.Text()
  {
    if |line.data| >= needed {
      return true, line;
    }
    var newCap := if |line.data| > 0 then |line.data| * 2 else 16;
    while newCap < needed
      invariant newCap > 0 && newCap >= |line.data|
      decreases needed - newCap
    {
      newCap := newCap * 2;
    }
    if !available {
      return false, line;
    }
    var newData := Allocate(newCap);
    if |line.data| > 0 {
      newData := line.data[..line.len + 1] + newData[line.len + 1..];
    }
    return true, Line(newData, line.len);
  }

  /** The tail of a line, '\0' included, moved up by one place to make room for a character. */
  function Shifted(d: seq<char>, len: nat, pos: nat, c: char): seq<char>
    requires pos <= len && len + 2 <= |d|
  {
    (d[..pos + 1] + d[pos..len + 1] + d[len + 2..])[pos := c]
  }

  lemma ShiftedFacts(d: seq<char>, len: nat, pos: nat, c: char)
    requires pos <= len && len + 2 <= |d| && d[len] == '\0'
    ensures var d' := Shifted(d, len, pos, c);
      |d'| == |d| && d'[len + 1] == '\0' && d'[..len + 1] == d[..len][..pos] + [c] + d[..len][pos..]
  {
    var m := d[..pos + 1] + d[pos..len + 1] + d[len + 2..];
    assert forall k :: 0 <= k <= pos ==> m[k] == d[k];
    assert forall k :: pos < k <= len + 1 ==> m[k] == d[k - 1];
  }

  method LineInsertChar(line: Line, pos: nat, c: char, available: bool) returns (ok: bool, line': Line)
    requires line.Valid()
    ensures line'.Valid() && (ok ==> pos <= line.len) && (pos <= line.len && available ==> ok)
    ensures line'.Text() == if ok then line.Text()[..pos] + [c] + line.Text()[pos..] else line.Text()
  {
    if pos > line.len {
      return false, line;
    }
    ok, line' := LineReserve(line, line.len + 2, available);
    if !ok {
      return;
    }
    hide Shifted;
    ShiftedFacts(line'.data, line'.len, pos, c);
    line' := Line(Shifted(line'.data, line'.len, pos, c), line'.len + 1);
  }

  method LineDeleteChar(line: Line, pos: nat) returns (ok: bool, line': Line)
    requires line.Valid()
    ensures line'.Valid() && ok == (pos < line.len)
    ensures line'.Text() == if ok then line.Text()[..pos] + line.Text()[pos + 1..] else line.Text()
  {
    if pos >= line.len {
      return false, line;
    }
    var d, len := line.data, line.len;
    return true, Line(d[..pos] + d[pos + 1..len + 1] + d[len..], len - 1);
  }

  /** Moves the text from pos on into a new line. */
  method LineSplit(line: Line, pos: nat, available: bool) returns (ok: bool, line': Line, newLine: Line)
    requires line.Valid()
    ensures line'.Valid() && (ok ==> pos <= line.len) && (pos <= line.len && available ==> ok)
    ensures if ok then line'.Text() == line.Text()[..pos] && newLine.Valid() && newLine.Text() == line.Text()[pos..]
        else line' == line
  {
    newLine := NO_BUFFER;
    if pos > line.len {
      return false, line, newLine;
    }
    var tailLen := line.len - pos;
    ok, newLine := LineReserve(newLine, tailLen + 1, available);
    if !ok {
      return false, line, newLine;
    }
    newLine := Line(line.data[pos..line.len] + ['\0'] + newLine.data[tailLen + 1..], tailLen);
    line' := Line(line.data[pos := '\0'], pos);
  }

  /** Appends another line's text. */
  method LineJoin(dest: Line, src: Line, available: bool) returns (ok: bool, dest': Line)
    requires dest.Valid() && src.Valid()
    ensures dest'.Valid() && (available ==> ok)
    ensures dest'.Text() == if ok then dest.Text() + src.Text() else dest.Text()
  {
    var newLen := dest.len + src.len;
    ok, dest' := LineReserve(dest, newLen + 1, available);
    if !ok {
      return;
    }
    dest' := Line(dest'.data[..dest.len] + src.data[..src.len] + ['\0'] + dest'.data[newLen + 1..], newLen);
  }

  predicate AllValid(lines: seq<Line>) {
    forall i :: 0 <= i < |lines| ==> lines[i].Valid()
  }

  function Texts(lines: seq<Line>): (texts: seq<string>)
    requires AllValid(lines)
    ensures |texts| == |lines| && forall i :: 0 <= i < |lines| ==> texts[i] == lines[i].Text()
  {
    seq(|lines|, i requires 0 <= i < |lines| => lines[i].Text())
  }

  /** Lines with the given texts, each in a buffer of just its size. */
  method BuildLines(texts: seq<string>) returns (lines: seq<Line>)
    ensures AllValid(lines) && Texts(lines) == texts
  {
    lines := [];
    var i := 0;
    while i < |texts|
      invariant i <= |texts| && |lines| == i && AllValid(lines)
      invariant forall j :: 0 <= j < i ==> lines[j].Text() == texts[j]
    {
      lines := lines + [Exact(texts[i])];
      i := i + 1;
    }
  }

  /** Pushes a snapshot; a full stack first drops its oldest. */
  method StackPush(stack: array<Snap>, top: int, state: Snap) returns (newTop: int)
    requires stack.Length == MAX_UNDO_LEVELS && -1 <= top < MAX_UNDO_LEVELS
    modifies stack
    ensures 0 <= newTop < MAX_UNDO_LEVELS
    ensures stack[..newTop + 1] == Push(old(stack[..top + 1]), state)
  {
    newTop := top;
    if newTop >= MAX_UNDO_LEVELS - 1 {
      var i := 1;
      while i <= newTop
        invariant 1 <= i <= newTop + 1
        invariant forall j :: 0 <= j < i - 1 ==> stack[j] == old(stack[j + 1])
        invariant forall j :: i - 1 <= j < stack.Length ==> stack[j] == old(stack[j])
      {
        stack[i - 1] := stack[i];
        i := i + 1;
      }
      newTop := newTop - 1;
      assert stack[..newTop + 1] == old(stack[..top + 1])[1..];
    }
    newTop := newTop + 1;
    stack[newTop] := state;
  }

  class TextEditor {
    var lines: seq<Line>
    var cursorX: nat
    var cursorY: nat
    var scrollX: nat
    var scrollY: nat
    var modified: bool
    var endsWithNewline: bool
    const undoStack: array<Snap>
    const redoStack: array<Snap>
    var undoTop: int
    var redoTop: int

    ghost predicate Owned()
      reads this
    {
      && undoStack.Length == redoStack.Length == MAX_UNDO_LEVELS && undoStack != redoStack
      && -1 <= undoTop < MAX_UNDO_LEVELS && -1 <= redoTop < MAX_UNDO_LEVELS
      && AllValid(lines)
    }

    function Now(): Snap
      requires Owned()
      reads this
    {
      Snap(Texts(lines), cursorY, cursorX, scrollY, scrollX)
    }

    function Sess(): Session
      requires Owned()
      reads this, undoStack, redoStack
    {
      Session(Now(), undoStack[..undoTop + 1], redoStack[..redoTop + 1])
    }

    ghost predicate Valid()
      reads this, undoStack, redoStack
    {
      Owned() && Sound(Sess()) && Bounded(Sess())
    }

    /** An empty document. */
    constructor ()
      ensures Valid() && Sess() == Session(Snap([[]], 0, 0, 0, 0), [], [])
      ensures fresh(undoStack) && fresh(redoStack)
    {
      lines := [Exact([])];
      cursorX, cursorY, scrollX, scrollY := 0, 0, 0, 0;
      modified, endsWithNewline := false, false;
      undoStack := new Snap[MAX_UNDO_LEVELS];
      redoStack := new Snap[MAX_UNDO_LEVELS];
      undoTop, redoTop := -1, -1;
    }

    method PushUndo(cloned: bool) returns (pushed: bool)
      requires Owned()
      modifies this`undoTop, undoStack
      ensures Owned() && pushed == cloned && Now() == old(Now())
      ensures Sess() == if cloned then old(Sess()).(undo := Push(old(Sess()).undo, old(Now()))) else old(Sess())
    {
      if !cloned {
        return false;
      }
      undoTop := StackPush(undoStack, undoTop, Now());
      return true;
    }

    method DiscardLastUndo()
      requires Owned() && Sess().undo != []
      modifies this`undoTop
      ensures Owned() && Sess() == old(Sess()).(undo := Init(old(Sess()).undo))
    {
      if undoTop < 0 {
        return;
      }
      undoTop := undoTop - 1;
    }

    method ClearRedo()
      requires Owned()
      modifies this`redoTop
      ensures Owned() && Sess() == old(Sess()).(redo := [])
    {
      redoTop := -1;
    }

    method ScrollToCursor()
      requires Owned()
      modifies this`scrollX, this`scrollY
      ensures Owned() && Sess() == old(Sess()).(now := Scroll(old(Now())))
    {
      hide Texts; hide Sound;
      if cursorX < scrollX {
        scrollX := cursorX;
      }
      if cursorX >= scrollX + SCREEN_WIDTH {
        scrollX := cursorX - SCREEN_WIDTH + 1;
      }
      if cursorY < scrollY {
        scrollY := cursorY;
      }
      if cursorY >= scrollY + TEXT_HEIGHT {
        scrollY := cursorY - TEXT_HEIGHT + 1;
      }
    }

    /** The document changed: no redo, and the cursor back in the window. */
    method Commit()
      requires Owned()
      modifies this`modified, this`redoTop, this`scrollX, this`scrollY
      ensures modified
      ensures Owned() && Sess() == old(Sess()).(now := Scroll(old(Now())), redo := [])
    {
      modified := true;
      ClearRedo();
      ScrollToCursor();
    }

    /** The document did not change: the snapshot just pushed goes. */
    method Abandon(pushed: bool)
      requires Owned() && (pushed ==> Sess().undo != [])
      modifies this`undoTop
      ensures Owned() && Sess() == if pushed then old(Sess()).(undo := Init(old(Sess()).undo)) else old(Sess())
    {
      if pushed {
        DiscardLastUndo();
      }
    }

    /** The line at the cursor takes the character. */
    method TypeChar(c: char, available: bool) returns (ok: bool)
      requires Owned() && InDoc(Now())
      modifies this`lines
      ensures Owned() && (available ==> ok)
      ensures var s := old(Now()); var l := s.lines[s.cy];
        Sess() == if ok then old(Sess()).(now := s.(lines := s.lines[s.cy := l[..s.cx] + [c] + l[s.cx..]]))
            else old(Sess())
    {
      var line;
      ok, line := LineInsertChar(lines[cursorY], cursorX, c, available);
      ghost var t := Texts(lines);
      lines := lines[cursorY := line];
      assert Texts(lines) == t[cursorY := line.Text()];
    }

    /** The line at the cursor breaks in two. */
    method BreakLine(available: bool) returns (ok: bool)
      requires Owned() && InDoc(Now())
      modifies this`lines
      ensures Owned() && (available ==> ok)
      ensures var s := old(Now()); var l := s.lines[s.cy];
        Sess() == if ok then old(Sess()).(now := s.(lines := s.lines[..s.cy] + [l[..s.cx], l[s.cx..]] +
            s.lines[s.cy + 1..])) else old(Sess())
    {
      var line, newLine;
      ok, line, newLine := LineSplit(lines[cursorY], cursorX, available);
      if ok {
        ghost var t := Texts(lines);
        lines := lines[..cursorY] + [line, newLine] + lines[cursorY + 1..];
        assert Texts(lines) == t[..cursorY] + [line.Text(), newLine.Text()] + t[cursorY + 1..];
      }
    }

    /** Line y takes over the text of the line after it. */
    method JoinLines(y: nat, available: bool) returns (ok: bool)
      requires Owned() && y + 1 < |lines|
      modifies this`lines
      ensures Owned() && (available ==> ok)
      ensures Sess() == if ok then old(Sess()).(now := old(Now()).(lines := JoinNext(old(Now()).lines, y)))
          else old(Sess())
    {
      var line;
      ok, line := LineJoin(lines[y], lines[y + 1], available);
      if ok {
        ghost var t := Texts(lines);
        lines := lines[..y] + [line] + lines[y + 2..];
        assert Texts(lines) == JoinNext(t, y);
      }
    }

    /** Line y loses its character at x. */
    method DropChar(y: nat, x: nat) returns (ok: bool)
      requires Owned() && y < |lines|
      modifies this`lines
      ensures Owned() && ok == (x < |old(Now()).lines[y]|)
      ensures var s := old(Now());
        Sess() == if ok then old(Sess()).(now := s.(lines := s.lines[y := s.lines[y][..x] + s.lines[y][x + 1..]]))
            else old(Sess())
    {
      var line;
      ok, line := LineDeleteChar(lines[y], x);
      ghost var t := Texts(lines);
      lines := lines[y := line];
      assert Texts(lines) == t[y := line.Text()];
    }

    /** The edit itself, when the line could grow. */
    method TypeAndScroll(c: char, available: bool) returns (ok: bool)
      requires Owned() && InDoc(Now())
      modifies this`lines, this`cursorX, this`modified, this`redoTop, this`scrollX, this`scrollY
      ensures modified == (ok || old(modified))
      ensures Owned() && (available ==> ok)
      ensures Sess() == if ok then old(Sess()).(now := InsertChar(old(Now()), c), redo := []) else old(Sess())
    {
      hide Texts; hide AllValid; hide Scroll;
      ok := TypeChar(c, available);
      if !ok { return; }
      cursorX := cursorX + 1;
      Commit();
    }

    /** Inserts a character at the cursor, or does nothing when the line cannot grow. */
    method InsertCharacter(c: char, cloned: bool, available: bool) returns (ghost done: bool)
      requires Valid()
      modifies this, undoStack
      ensures modified == (done || old(modified)) && endsWithNewline == old(endsWithNewline)
      ensures Valid() && (available ==> done)
      ensures Sess() == if done then Edited(old(Sess()), InsertChar(old(Now()), c), cloned)
          else Refused(old(Sess()), cloned)
    {
      ghost var h := Sess();
      assert InDoc(InsertChar(h.now, c)) && InWindow(InsertChar(h.now, c)) by { InsertCharRefines(h.now, c); }
      EditedSound(h, InsertChar(h.now, c), cloned);
      RefusedSound(h, cloned);
      hide Texts; hide AllValid; hide InWindow; hide Sound; hide Push; hide InsertChar; hide Bounded;
      var pushed := PushUndo(cloned);
      var ok := TypeAndScroll(c, available);
      if !ok {
        Abandon(pushed);
        return false;
      }
      return true;
    }

    method BreakAndScroll(available: bool) returns (ok: bool)
      requires Owned() && InDoc(Now())
      modifies this`lines, this`cursorX, this`cursorY, this`modified, this`redoTop, this`scrollX, this`scrollY
      ensures modified == (ok || old(modified))
      ensures Owned() && (available ==> ok)
      ensures Sess() == if ok then old(Sess()).(now := InsertNewline(old(Now())), redo := []) else old(Sess())
    {
      hide Texts; hide AllValid; hide Scroll;
      ok := BreakLine(available);
      if !ok { return; }
      cursorY := cursorY + 1;
      cursorX := 0;
      Commit();
    }

    /** Breaks the line at the cursor; room tells whether the new array of lines could be had. */
    method InsertLineBreak(cloned: bool, room: bool, available: bool) returns (ghost done: bool)
      requires Valid()
      modifies this, undoStack
      ensures modified == (done || old(modified)) && endsWithNewline == old(endsWithNewline)
      ensures Valid() && (room && available ==> done)
      ensures Sess() == if done then Edited(old(Sess()), InsertNewline(old(Now())), cloned)
          else Refused(old(Sess()), cloned)
    {
      ghost var h := Sess();
      assert InDoc(InsertNewline(h.now)) && InWindow(InsertNewline(h.now)) by { InsertNewlineRefines(h.now); }
      EditedSound(h, InsertNewline(h.now), cloned);
      RefusedSound(h, cloned);
      hide Texts; hide AllValid; hide InWindow; hide Sound; hide Push; hide InsertNewline; hide Bounded;
      var pushed := PushUndo(cloned);
      if !room {
        Abandon(pushed);
        return false;
      }
      var ok := BreakAndScroll(available);
      if !ok {
        Abandon(pushed);
        return false;
      }
      return true;
    }

    method RemoveBefore(available: bool) returns (ok: bool)
      requires Owned() && InDoc(Now())
      modifies this`lines, this`cursorX, this`cursorY
      ensures Owned() && (ok ==> CanDeleteBackward(old(Now()))) && (CanDeleteBackward(old(Now())) && available ==> ok)
      ensures Sess() == if ok then old(Sess()).(now := DropBefore(old(Now()))) else old(Sess())
    {
      hide Texts; hide AllValid;
      ok := false;
      if cursorX > 0 {
        ok := DropChar(cursorY, cursorX - 1);
        if ok {
          cursorX := cursorX - 1;
        }
      } else if cursorY > 0 {
        var prevLen := LineLen(cursorY - 1);
        ok := JoinLines(cursorY - 1, available);
        if ok {
          cursorY := cursorY - 1;
          cursorX := prevLen;
        }
      }
    }

    method RemoveAfter(available: bool) returns (ok: bool)
      requires Owned() && InDoc(Now())
      modifies this`lines
      ensures Owned() && (ok ==> CanDeleteForward(old(Now()))) && (CanDeleteForward(old(Now())) && available ==> ok)
      ensures Sess() == if ok then old(Sess()).(now := DropAfter(old(Now()))) else old(Sess())
    {
      hide Texts; hide AllValid;
      ok := false;
      var len := LineLen(cursorY);
      if cursorX < len {
        ok := DropChar(cursorY, cursorX);
      } else if cursorY + 1 < |lines| {
        ok := JoinLines(cursorY, available);
      }
    }

    /** Backspace. */
    method DeleteBack(cloned: bool, available: bool) returns (ghost changed: bool)
      requires Valid()
      modifies this, undoStack
      ensures modified == (changed || old(modified)) && endsWithNewline == old(endsWithNewline)
      ensures Valid() && (changed ==> CanDeleteBackward(old(Now())))
      ensures CanDeleteBackward(old(Now())) && available ==> changed
      ensures Sess() == if changed then Edited(old(Sess()), DeleteBackward(old(Now())), cloned)
          else Refused(old(Sess()), cloned)
    {
      assert InDoc(Now());
      DeleteBackwardRefines(Now());
      RefusedSound(Sess(), cloned);
      if CanDeleteBackward(Now()) { EditedSound(Sess(), DeleteBackward(Now()), cloned); }
      hide Texts; hide AllValid; hide InWindow; hide InDoc; hide Scroll; hide Sound; hide Push; hide DropBefore;
      hide CanDeleteBackward;
      var pushed := PushUndo(cloned);
      var ok := RemoveBefore(available);
      if ok {
        Commit();
      } else {
        Abandon(pushed);
      }
      return ok;
    }

    /** Delete. */
    method DeleteAhead(cloned: bool, available: bool) returns (ghost changed: bool)
      requires Valid()
      modifies this, undoStack
      ensures modified == (changed || old(modified)) && endsWithNewline == old(endsWithNewline)
      ensures Valid() && (changed ==> CanDeleteForward(old(Now())))
      ensures CanDeleteForward(old(Now())) && available ==> changed
      ensures Sess() == if changed then Edited(old(Sess()), DeleteForward(old(Now())), cloned)
          else Refused(old(Sess()), cloned)
    {
      assert InDoc(Now());
      DeleteForwardRefines(Now());
      RefusedSound(Sess(), cloned);
      if CanDeleteForward(Now()) { EditedSound(Sess(), DeleteForward(Now()), cloned); }
      hide Texts; hide AllValid; hide InWindow; hide InDoc; hide Scroll; hide Sound; hide Push; hide DropAfter;
      hide CanDeleteForward;
      var pushed := PushUndo(cloned);
      var ok := RemoveAfter(available);
      if ok {
        Commit();
      } else {
        Abandon(pushed);
      }
      return ok;
    }

    method MoveCursor(key: Key)
      requires Valid()
      modifies this`cursorX, this`cursorY, this`scrollX, this`scrollY
      ensures Valid() && Sess() == old(Sess()).(now := Move(old(Now()), key))
    {
      assert InDoc(Now());
      hide Texts; hide Sound; hide Scroll; hide InWindow;
      MovedSound(Sess(), key);
      MoveRefines(Now(), key);
      ghost var s := Now();
      MoveTo(key);
      ScrollToCursor();
    }

    method GoLeft()
      requires Owned() && InDoc(Now())
      modifies this`cursorX, this`cursorY
      ensures Owned() && Sess() == old(Sess()).(now := Target(old(Now()), KeyLeft))
    {
      hide Texts; hide AllValid;
      if cursorX > 0 {
        cursorX := cursorX - 1;
      } else if cursorY > 0 {
        cursorY := cursorY - 1;
        cursorX := LineLen(cursorY);
      }
    }

    method GoRight()
      requires Owned() && InDoc(Now())
      modifies this`cursorX, this`cursorY
      ensures Owned() && Sess() == old(Sess()).(now := Target(old(Now()), KeyRight))
    {
      hide Texts; hide AllValid;
      var len := LineLen(cursorY);
      if cursorX < len {
        cursorX := cursorX + 1;
      } else if cursorY + 1 < |lines| {
        cursorY := cursorY + 1;
        cursorX := 0;
      }
    }

    method MoveTo(key: Key)
      requires Owned() && InDoc(Now())
      modifies this`cursorX, this`cursorY
      ensures Owned() && Sess() == old(Sess()).(now := Target(old(Now()), key))
    {
      hide Texts; hide AllValid;
      match key {
        case KeyLeft => GoLeft();
        case KeyRight => GoRight();
        case KeyUp =>
          if cursorY > 0 {
            cursorY := cursorY - 1;
            ClampX();
          } else {
            cursorX := 0;
          }
        case KeyDown =>
          if cursorY + 1 < |lines| {
            cursorY := cursorY + 1;
            ClampX();
          } else {
            cursorX := LineLen(cursorY);
          }
        case KeyHome =>
          cursorX := 0;
        case KeyEnd =>
          cursorX := LineLen(cursorY);
        case KeyPageUp =>
          cursorY := if cursorY > TEXT_HEIGHT then cursorY - TEXT_HEIGHT else 0;
          ClampX();
        case KeyPageDown =>
          cursorY := if cursorY + TEXT_HEIGHT < |lines| then cursorY + TEXT_HEIGHT else |lines| - 1;
          ClampX();
      }
    }

    method LineLen(y: nat) returns (len: nat)
      requires Owned() && y < |lines|
      ensures len == |Now().lines[y]|
    {
      len := lines[y].len;
    }

    method ClampX()
      requires Owned() && cursorY < |lines|
      modifies this`cursorX
      ensures Owned() && Sess() == old(Sess()).(now := Clamp(old(Now())))
    {
      hide Texts;
      if cursorX > lines[cursorY].len {
        cursorX := lines[cursorY].len;
      }
    }

    /** Puts a snapshot's document and cursor in place of the current ones. */
    method Restore(st: Snap)
      requires Owned()
      modifies this`lines, this`cursorX, this`cursorY, this`scrollX, this`scrollY, this`modified
      ensures modified
      ensures Owned() && Sess() == old(Sess()).(now := st)
    {
      hide Texts; hide AllValid;
      lines := BuildLines(st.lines);
      cursorX, cursorY, scrollX, scrollY := st.cx, st.cy, st.sx, st.sy;
      modified := true;
    }

    method Undo(cloned: bool)
      requires Valid()
      modifies this, redoStack
      ensures modified == (old(Sess()).undo != [] || old(modified)) && endsWithNewline == old(endsWithNewline)
      ensures Valid() && Sess() == History.Undo(old(Sess()), cloned)
    {
      hide Texts; hide AllValid; hide Sound; hide Push;
      UndoneSound(Sess(), cloned);
      if undoTop < 0 {
        return;
      }
      ghost var h := Sess();
      if cloned {
        redoTop := StackPush(redoStack, redoTop, Now());
      }
      var prev := undoStack[undoTop];
      undoTop := undoTop - 1;
      assert Sess() == h.(undo := Init(h.undo), redo := if cloned then Push(h.redo, h.now) else h.redo);
      Restore(prev);
    }

    method Redo(cloned: bool)
      requires Valid()
      modifies this, undoStack
      ensures modified == (old(Sess()).redo != [] || old(modified)) && endsWithNewline == old(endsWithNewline)
      ensures Valid() && Sess() == History.Redo(old(Sess()), cloned)
    {
      hide Texts; hide AllValid; hide Sound; hide Push;
      UndoneSound(Sess(), cloned);
      if redoTop < 0 {
        return;
      }
      ghost var h := Sess();
      if cloned {
        undoTop := StackPush(undoStack, undoTop, Now());
      }
      var next := redoStack[redoTop];
      redoTop := redoTop - 1;
      assert Sess() == h.(redo := Init(h.redo), undo := if cloned then Push(h.undo, h.now) else h.undo);
      Restore(next);
    }

    /**
     Loading a file into the editor: stored and parsed tell whether there was memory for its bytes and for its
     lines.  A load that fails leaves the editor as it was.
     */
    method Load(fs: FileSystem, path: string, stored: bool, parsed: bool) returns (ok: bool)
      requires Valid() && fs.Valid()
      modifies this
      ensures Valid()
      ensures var target := Resolve(fs.nodes, fs.root, fs.cwd, path);
        && (ok <==> target.Some? && target.value in fs.nodes && !fs.nodes[target.value].dir && stored && parsed)
        && (ok ==>
          var buf := Decoded(fs.nodes[target.value].data);
          && Sess() == Session(Snap(Serial.Parse(buf), 0, 0, 0, 0), [], []) &&
             endsWithNewline == Serial.EndsWithNewline(buf))
      ensures if ok then !modified
        else Sess() == old(Sess()) && modified == old(modified) && endsWithNewline == old(endsWithNewline)
    {
      hide Resolve; hide Texts; hide AllValid; hide Serial.Parse; hide Tree; hide Sound; hide Bounded;
      var bytes;
      ok, bytes := fs.ReadWhole(path, stored);
      if !ok { return false; }
      if !parsed { return false; }
      Show(Decoded(bytes));
    }

    /** A fresh session on a file's text. */
    method Show(buf: string)
      requires Owned()
      modifies this
      ensures Valid() && Sess() == Session(Snap(Serial.Parse(buf), 0, 0, 0, 0), [], [])
      ensures endsWithNewline == Serial.EndsWithNewline(buf) && !modified
    {
      hide Texts; hide AllValid;
      var texts := Serial.ParseBuffer(buf);
      undoTop, redoTop := -1, -1;
      Restore(Snap(texts, 0, 0, 0, 0));
      endsWithNewline := |buf| > 0 && buf[|buf| - 1] == '\n';
      modified := false;
    }

    /** The text that a save writes. */
    method Contents() returns (text: string)
      requires Owned() && lines != []
      ensures text == Serial.Save(Now().lines, endsWithNewline)
    {
      var buf, pos := Serial.SaveBuffer(Texts(lines), endsWithNewline);
      text := buf[..pos];
    }

    /**
     Saving to the file the editor was loaded from, if it has its name: buffer tells whether there was memory for
     the text, room and memory are the file system's.  The document counts as saved when the file system took it.
     */
    method SaveDocument(fs: FileSystem, filename: Option<string>, buffer: bool, id: nat, room: bool, memory: bool)
      returns (ok: bool)
      requires Valid() && fs.Valid() && id !in fs.nodes && AllBytes(Serial.Save(Now().lines, endsWithNewline))
      modifies this`modified, fs
      ensures Valid() && Sess() == old(Sess()) && fs.Valid() && modified == (if ok then false else old(modified))
      ensures if filename.None? || !buffer then !ok && fs.nodes == old(fs.nodes)
        else (fs.nodes, ok) == Saved(old(fs.nodes), fs.root, fs.cwd, filename.value,
                                     Encoded(Serial.Save(Now().lines, endsWithNewline)), id, room, memory)
    {
      if filename.None? || !buffer { return false; }
      hide Sound; hide Bounded; hide Saved; hide Serial.Save; hide Texts; hide AllValid; hide Tree; hide NamesDistinct;
      ok := SaveText(fs, filename.value, id, room, memory);
      if ok { modified := false; }
    }

    method SaveText(fs: FileSystem, path: string, id: nat, room: bool, memory: bool) returns (ok: bool)
      requires Owned() && lines != [] && fs.Valid() && id !in fs.nodes
      requires AllBytes(Serial.Save(Now().lines, endsWithNewline))
      modifies fs
      ensures fs.Valid()
      ensures (fs.nodes, ok) == Saved(old(fs.nodes), fs.root, fs.cwd, path,
                                      Encoded(old(Serial.Save(Now().lines, endsWithNewline))), id, room, memory)
    {
      hide Saved; hide Serial.Save; hide Texts; hide AllValid; hide Tree; hide NamesDistinct;
      var text := Contents();
      ok := PutFile(fs, path, text, id, room, memory);
    }
  }

  method PutFile(fs: FileSystem, path: string, text: string, id: nat, room: bool, memory: bool) returns (ok: bool)
    requires fs.Valid() && id !in fs.nodes && AllBytes(text)
    modifies fs
    ensures fs.Valid()
    ensures (fs.nodes, ok) == Saved(old(fs.nodes), fs.root, fs.cwd, path, Encoded(text), id, room, memory)
  {
    hide Saved; hide Tree; hide NamesDistinct;
    ok := fs.WriteWhole(path, Encoded(text), id, room, memory);
  }
}
