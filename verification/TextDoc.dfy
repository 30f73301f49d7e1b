/**
 The editor's document as lines, as flat text, and as a place in either.

 A document is a non-empty sequence of lines; its text is the lines joined by '\n'.  A cursor (y, x) is the place in
 the text after the first y lines, their newlines, and x characters.
 */
module TextDoc {

  const SCREEN_WIDTH: nat := 80
  const TEXT_HEIGHT: nat := 24

  /** Document, cursor and scroll position: what an undo snapshot holds. */
  datatype Snap = Snap(lines: seq<string>, cy: nat, cx: nat, sy: nat, sx: nat)

  datatype Flat = Flat(text: string, pos: nat)

  datatype Key = KeyLeft | KeyRight | KeyUp | KeyDown | KeyHome | KeyEnd | KeyPageUp | KeyPageDown

  // ---------------------------------------------------------------- lines as text

  function Join(lines: seq<string>): string
    requires lines != []
  {
    if |lines| == 1 then lines[0] else lines[0] + ['\n'] + Join(lines[1..])
  }

  /** The lines, each followed by a newline. */
  function Before(lines: seq<string>): string {
    if lines == [] then [] else lines[0] + ['\n'] + Before(lines[1..])
  }

  /** The lines, each preceded by a newline. */
  function After(lines: seq<string>): string {
    if lines == [] then [] else ['\n'] + lines[0] + After(lines[1..])
  }

  function Pos(lines: seq<string>, y: nat, x: nat): nat
    requires y <= |lines|
  {
    |Before(lines[..y])| + x
  }

  predicate InDoc(s: Snap) {
    s.cy < |s.lines| && s.cx <= |s.lines[s.cy]|
  }

  predicate InWindow(s: Snap) {
    s.sx <= s.cx < s.sx + SCREEN_WIDTH && s.sy <= s.cy < s.sy + TEXT_HEIGHT
  }

  function View(s: Snap): Flat
    requires InDoc(s)
  {
    Flat(Join(s.lines), Pos(s.lines, s.cy, s.cx))
  }

  lemma {:induction false} JoinAfter(l: string, b: seq<string>)
    ensures Join([l] + b) == l + After(b)
    decreases |b|
  {
    if b == [] {
      assert [l] + b == [l];
    } else {
      assert ([l] + b)[1..] == b && b == [b[0]] + b[1..];
      JoinAfter(b[0], b[1..]);
      assert l + ['\n'] + (b[0] + After(b[1..])) == l + After(b);
    }
  }

  /** A document's text around one of its lines. */
  lemma {:induction false} JoinAround(a: seq<string>, l: string, b: seq<string>)
    ensures Join(a + [l] + b) == Before(a) + l + After(b)
  {
    if a == [] {
      assert a + [l] + b == [l] + b;
      JoinAfter(l, b);
    } else {
      var d := a + [l] + b;
      assert d[1..] == a[1..] + [l] + b;
      JoinAround(a[1..], l, b);
      assert a[0] + ['\n'] + (Before(a[1..]) + l + After(b)) == Before(a) + l + After(b);
    }
  }

  lemma {:induction false} BeforeSplit(a: seq<string>, b: seq<string>)
    ensures Before(a + b) == Before(a) + Before(b)
  {
    if a == [] {
      assert a + b == b;
    } else {
      assert (a + b)[1..] == a[1..] + b;
      BeforeSplit(a[1..], b);
      assert a[0] + ['\n'] + (Before(a[1..]) + Before(b)) == Before(a) + Before(b);
    }
  }

  /** The text on both sides of a cursor. */
  lemma TextAt(lines: seq<string>, y: nat, x: nat)
    requires y < |lines| && x <= |lines[y]|
    ensures var t := Join(lines); var p := Pos(lines, y, x); var l := lines[y];
      && p <= |t| && t[..p] == Before(lines[..y]) + l[..x] && t[p..] == l[x..] + After(lines[y + 1..])
  {
    var l := lines[y];
    assert lines == lines[..y] + [l] + lines[y + 1..];
    JoinAround(lines[..y], l, lines[y + 1..]);
    var t, b, a := Join(lines), Before(lines[..y]), After(lines[y + 1..]);
    assert l == l[..x] + l[x..];
    assert t == (b + l[..x]) + (l[x..] + a);
  }

  // ---------------------------------------------------------------- places

  /** The cursor of a place in the text. */
  function Locate(lines: seq<string>, p: nat): (nat, nat)
    requires lines != []
  {
    if |lines| == 1 || p <= |lines[0]| then (0, p)
    else
      var (y, x) := Locate(lines[1..], p - |lines[0]| - 1);
      (y + 1, x)
  }

  /** Cursors and places in the text correspond one to one. */
  lemma {:induction false} LocatePos(lines: seq<string>, y: nat, x: nat)
    requires y < |lines| && x <= |lines[y]|
    ensures Locate(lines, Pos(lines, y, x)) == (y, x)
  {
    if y == 0 {
      assert lines[..0] == [];
    } else {
      assert lines[..y] == [lines[0]] + lines[1..][..y - 1];
      assert lines[..y][1..] == lines[1..][..y - 1];
      LocatePos(lines[1..], y - 1, x);
    }
  }

  lemma {:induction false} PosLocate(lines: seq<string>, p: nat)
    requires lines != [] && p <= |Join(lines)|
    ensures var (y, x) := Locate(lines, p); y < |lines| && x <= |lines[y]| && Pos(lines, y, x) == p
  {
    if |lines| == 1 || p <= |lines[0]| {
      assert lines[..0] == [];
    } else {
      PosLocate(lines[1..], p - |lines[0]| - 1);
      var (y, x) := Locate(lines, p);
      assert lines[..y][1..] == lines[1..][..y - 1];
    }
  }

  // ---------------------------------------------------------------- operations on lines

  function Scroll(s: Snap): Snap {
    var sx1 := if s.cx < s.sx then s.cx else s.sx;
    var sx2 := if s.cx >= sx1 + SCREEN_WIDTH then s.cx - SCREEN_WIDTH + 1 else sx1;
    var sy1 := if s.cy < s.sy then s.cy else s.sy;
    var sy2 := if s.cy >= sy1 + TEXT_HEIGHT then s.cy - TEXT_HEIGHT + 1 else sy1;
    s.(sx := sx2, sy := sy2)
  }

  function InsertChar(s: Snap, c: char): Snap
    requires InDoc(s)
  {
    var l := s.lines[s.cy];
    Scroll(s.(lines := s.lines[s.cy := l[..s.cx] + [c] + l[s.cx..]], cx := s.cx + 1))
  }

  function InsertNewline(s: Snap): Snap
    requires InDoc(s)
  {
    var l := s.lines[s.cy];
    Scroll(s.(lines := s.lines[..s.cy] + [l[..s.cx], l[s.cx..]] + s.lines[s.cy + 1..], cy := s.cy + 1, cx := 0))
  }

  /** Line y with the next line appended to it. */
  function JoinNext(lines: seq<string>, y: nat): seq<string>
    requires y + 1 < |lines|
  {
    lines[..y] + [lines[y] + lines[y + 1]] + lines[y + 2..]
  }

  predicate CanDeleteBackward(s: Snap) {
    s.cx > 0 || s.cy > 0
  }

  /** The character before the cursor goes, or the line joins the one before it. */
  function DropBefore(s: Snap): Snap
    requires InDoc(s) && CanDeleteBackward(s)
  {
    var l := s.lines[s.cy];
    if s.cx > 0 then s.(lines := s.lines[s.cy := l[..s.cx - 1] + l[s.cx..]], cx := s.cx - 1)
    else s.(lines := JoinNext(s.lines, s.cy - 1), cy := s.cy - 1, cx := |s.lines[s.cy - 1]|)
  }

  function DeleteBackward(s: Snap): Snap
    requires InDoc(s) && CanDeleteBackward(s)
  {
    Scroll(DropBefore(s))
  }

  predicate CanDeleteForward(s: Snap)
    requires InDoc(s)
  {
    s.cx < |s.lines[s.cy]| || s.cy + 1 < |s.lines|
  }

  /** The character at the cursor goes, or the next line joins this one. */
  function DropAfter(s: Snap): Snap
    requires InDoc(s) && CanDeleteForward(s)
  {
    var l := s.lines[s.cy];
    if s.cx < |l| then s.(lines := s.lines[s.cy := l[..s.cx] + l[s.cx + 1..]])
    else s.(lines := JoinNext(s.lines, s.cy))
  }

  function DeleteForward(s: Snap): Snap
    requires InDoc(s) && CanDeleteForward(s)
  {
    Scroll(DropAfter(s))
  }

  function Clamp(s: Snap): Snap
    requires s.cy < |s.lines|
  {
    if s.cx > |s.lines[s.cy]| then s.(cx := |s.lines[s.cy]|) else s
  }

  function Move(s: Snap, key: Key): Snap
    requires InDoc(s)
  {
    Scroll(Target(s, key))
  }

  /** Where a key takes the cursor. */
  function Target(s: Snap, key: Key): Snap
    requires InDoc(s)
  {
    var len := |s.lines[s.cy]|;
    match key
      case KeyLeft => if s.cx > 0 then s.(cx := s.cx - 1)
          else if s.cy > 0 then s.(cy := s.cy - 1, cx := |s.lines[s.cy - 1]|) else s
      case KeyRight => if s.cx < len then s.(cx := s.cx + 1)
          else if s.cy + 1 < |s.lines| then s.(cy := s.cy + 1, cx := 0) else s
      case KeyUp => if s.cy > 0 then Clamp(s.(cy := s.cy - 1)) else s.(cx := 0)
      case KeyDown => if s.cy + 1 < |s.lines| then Clamp(s.(cy := s.cy + 1)) else s.(cx := len)
      case KeyHome => s.(cx := 0)
      case KeyEnd => s.(cx := len)
      case KeyPageUp => Clamp(s.(cy := if s.cy > TEXT_HEIGHT then s.cy - TEXT_HEIGHT else 0))
      case KeyPageDown => Clamp(s.(cy := if s.cy + TEXT_HEIGHT < |s.lines| then s.cy + TEXT_HEIGHT else |s.lines| - 1))
  }

  // ---------------------------------------------------------------- the flat editor they refine

  /** Insertion at the position. */
  ghost predicate Inserts(f: Flat, f': Flat, c: char) {
    f.pos <= |f.text| && f' == Flat(f.text[..f.pos] + [c] + f.text[f.pos..], f.pos + 1)
  }

  /** Removal of the character at p, leaving the position there. */
  ghost predicate Removes(f: Flat, f': Flat, p: nat) {
    p < |f.text| && f' == Flat(f.text[..p] + f.text[p + 1..], p)
  }

  lemma ScrollFacts(s: Snap)
    requires InDoc(s)
    ensures InDoc(Scroll(s)) && InWindow(Scroll(s)) && View(Scroll(s)) == View(s) && Scroll(s).lines == s.lines
  {
  }

  /** What a document looks like from a cursor, when its parts are given. */
  lemma FromParts(a: seq<string>, l: string, r: string, b: seq<string>)
    ensures Join(a + [l + r] + b) == Before(a) + l + r + After(b)
    ensures Pos(a + [l + r] + b, |a|, |l|) == |Before(a) + l|
  {
    hide Join; hide Before; hide After;
    JoinAround(a, l + r, b);
    assert (a + [l + r] + b)[..|a|] == a;
    assert Before(a) + (l + r) + After(b) == Before(a) + l + r + After(b);
  }

  lemma AfterCons(r: string, b: seq<string>)
    ensures After([r] + b) == ['\n'] + r + After(b)
  {
    assert ([r] + b)[1..] == b;
  }

  lemma BeforeMore(a: seq<string>, l: string)
    ensures Before(a + [l]) == Before(a) + l + ['\n']
  {
    BeforeSplit(a, [l]);
    assert [l][1..] == [];
    assert Before([l]) == l + ['\n'];
    assert Before(a) + (l + ['\n']) == Before(a) + l + ['\n'];
  }

  lemma InsertCharRefines(s: Snap, c: char)
    requires InDoc(s)
    ensures InDoc(InsertChar(s, c)) && InWindow(InsertChar(s, c)) && Inserts(View(s), View(InsertChar(s, c)), c)
  {
    var y, x, l := s.cy, s.cx, s.lines[s.cy];
    var a, b, r := s.lines[..y], s.lines[y + 1..], l[x..];
    var lines' := s.lines[y := l[..x] + [c] + r];
    assert lines' == a + [(l[..x] + [c]) + r] + b;
    TextAt(s.lines, y, x);
    FromParts(a, l[..x] + [c], r, b);
    ScrollFacts(s.(lines := lines', cx := x + 1));
    assert Before(a) + (l[..x] + [c]) + r + After(b) == (Before(a) + l[..x]) + [c] + (r + After(b));
  }

  lemma InsertNewlineRefines(s: Snap)
    requires InDoc(s)
    ensures InDoc(InsertNewline(s)) && InWindow(InsertNewline(s)) && Inserts(View(s), View(InsertNewline(s)), '\n')
  {
    hide Join; hide Before; hide After;
    var y, x, l := s.cy, s.cx, s.lines[s.cy];
    var a, b, r := s.lines[..y], s.lines[y + 1..], l[x..];
    var lines' := a + [l[..x], r] + b;
    TextAt(s.lines, y, x);
    ScrollFacts(s.(lines := lines', cy := y + 1, cx := 0));
    assert lines' == (a + [l[..x]]) + [r] + b;
    JoinAround(a + [l[..x]], r, b);
    BeforeMore(a, l[..x]);
    assert lines'[..y + 1] == a + [l[..x]];
    Regroup(Before(a) + l[..x], ['\n'], r, After(b));
    Regroup(Before(a) + l[..x], ['\n'], r + After(b), []);
  }

  lemma Cut(t: string, p: nat, c: char, v: string)
    requires p <= |t| && t[p..] == [c] + v
    ensures p < |t| && t[p] == c && t[p + 1..] == v
  {
    assert t[p] == t[p..][0];
    assert t[p + 1..] == t[p..][1..];
  }

  lemma Regroup(u: string, l: string, r: string, v: string)
    ensures u + l + r + v == (u + l) + (r + v)
  {
  }

  /** The text on both sides of the newline after line y. */
  lemma TextAtEnd(lines: seq<string>, y: nat)
    requires y + 1 < |lines|
    ensures var t := Join(lines); var p := Pos(lines, y, |lines[y]|);
      && p < |t| && t[..p] == Before(lines[..y]) + lines[y] && t[p..] == ['\n'] + (lines[y + 1] + After(lines[y + 2..]))
  {
    hide Join; hide Before; hide After;
    var l, r, b := lines[y], lines[y + 1], lines[y + 2..];
    TextAt(lines, y, |l|);
    assert l[..|l|] == l && l[|l|..] == [];
    assert lines[y + 1..] == [r] + b;
    AfterCons(r, b);
    assert ['\n'] + r + After(b) == ['\n'] + (r + After(b));
  }

  lemma NextLineStart(lines: seq<string>, y: nat)
    requires y + 1 < |lines|
    ensures Pos(lines, y, |lines[y]|) + 1 == Pos(lines, y + 1, 0)
  {
    assert lines[..y + 1] == lines[..y] + [lines[y]];
    BeforeMore(lines[..y], lines[y]);
  }

  /** Joining line y with the next removes the newline between them. */
  lemma JoinNextRemoves(lines: seq<string>, y: nat)
    requires y + 1 < |lines|
    ensures var p := Pos(lines, y, |lines[y]|); var t := Join(lines); var j := JoinNext(lines, y);
      && p < |t| && t[p] == '\n' && Join(j) == t[..p] + t[p + 1..] && Pos(j, y, |lines[y]|) == p
      && p + 1 == Pos(lines, y + 1, 0)
  {
    hide Join; hide Before; hide After;
    var a, l, r, b := lines[..y], lines[y], lines[y + 1], lines[y + 2..];
    NextLineStart(lines, y);
    TextAtEnd(lines, y);
    Cut(Join(lines), Pos(lines, y, |l|), '\n', r + After(b));
    FromParts(a, l, r, b);
    Regroup(Before(a), l, r, After(b));
  }

  /** Delete within a line. */
  lemma DropAfterInLine(s: Snap)
    requires InDoc(s) && s.cx < |s.lines[s.cy]|
    ensures InDoc(DeleteForward(s)) && InWindow(DeleteForward(s)) && View(s).pos < |View(s).text|
    ensures Removes(View(s), View(DeleteForward(s)), View(s).pos)
  {
    hide Join; hide Before; hide After;
    var y, x, l := s.cy, s.cx, s.lines[s.cy];
    TextAt(s.lines, y, x);
    var a, b, r := s.lines[..y], s.lines[y + 1..], l[x + 1..];
    var lines' := s.lines[y := l[..x] + r];
    assert lines' == a + [l[..x] + r] + b;
    FromParts(a, l[..x], r, b);
    ScrollFacts(s.(lines := lines'));
    var t, p := Join(s.lines), Pos(s.lines, y, x);
    assert l[x..] == [l[x]] + r;
    Regroup([], [l[x]], r, After(b));
    Cut(t, p, l[x], r + After(b));
    Regroup(Before(a), l[..x], r, After(b));
  }

  lemma DeleteForwardRefines(s: Snap)
    requires InDoc(s)
    ensures CanDeleteForward(s) <==> View(s).pos < |View(s).text|
    ensures CanDeleteForward(s) ==>
        InDoc(DeleteForward(s)) && InWindow(DeleteForward(s)) && Removes(View(s), View(DeleteForward(s)), View(s).pos)
  {
    var y, x, l := s.cy, s.cx, s.lines[s.cy];
    TextAt(s.lines, y, x);
    if x < |l| {
      DropAfterInLine(s);
    } else if y + 1 < |s.lines| {
      JoinNextRemoves(s.lines, y);
      ScrollFacts(s.(lines := JoinNext(s.lines, y)));
    }
  }

  /** Backspace within a line. */
  lemma DropInLine(s: Snap)
    requires InDoc(s) && s.cx > 0
    ensures InDoc(DeleteBackward(s)) && InWindow(DeleteBackward(s)) && View(s).pos > 0
    ensures Removes(View(s), View(DeleteBackward(s)), View(s).pos - 1)
  {
    var y, x, l := s.cy, s.cx, s.lines[s.cy];
    var a, b, r := s.lines[..y], s.lines[y + 1..], l[x..];
    var lines' := s.lines[y := l[..x - 1] + r];
    hide Join; hide Before; hide After;
    assert lines' == a + [l[..x - 1] + r] + b;
    TextAt(s.lines, y, x);
    TextAt(s.lines, y, x - 1);
    FromParts(a, l[..x - 1], r, b);
    ScrollFacts(s.(lines := lines', cx := x - 1));
    Regroup(Before(a), l[..x - 1], r, After(b));
  }

  lemma DeleteBackwardRefines(s: Snap)
    requires InDoc(s)
    ensures CanDeleteBackward(s) <==> View(s).pos > 0
    ensures CanDeleteBackward(s) ==>
      InDoc(DeleteBackward(s)) && InWindow(DeleteBackward(s)) &&
          Removes(View(s), View(DeleteBackward(s)), View(s).pos - 1)
  {
    var y, x := s.cy, s.cx;
    if x > 0 {
      DropInLine(s);
    } else if y > 0 {
      JoinNextRemoves(s.lines, y - 1);
      ScrollFacts(s.(lines := JoinNext(s.lines, y - 1), cy := y - 1, cx := |s.lines[y - 1]|));
    } else {
      assert s.lines[..0] == [];
    }
  }

  /** Moving the cursor leaves the text alone and the cursor in the document and the window. */
  lemma MoveRefines(s: Snap, key: Key)
    requires InDoc(s)
    ensures var s' := Move(s, key); InDoc(s') && InWindow(s') && s'.lines == s.lines
    ensures View(Move(s, key)).text == View(s).text
  {
    hide Join; hide Before;
  }

  lemma FirstPlace(lines: seq<string>)
    requires lines != []
    ensures Pos(lines, 0, 0) == 0
  {
    assert lines[..0] == [];
  }

  lemma LastPlace(lines: seq<string>)
    requires lines != []
    ensures Pos(lines, |lines| - 1, |lines[|lines| - 1]|) == |Join(lines)|
  {
    var y := |lines| - 1;
    TextAt(lines, y, |lines[y]|);
    assert lines[y + 1..] == [];
  }

  /** Left moves back by one place, if there is one. */
  lemma LeftRefines(s: Snap)
    requires InDoc(s)
    ensures InDoc(Move(s, KeyLeft)) &&
        View(Move(s, KeyLeft)) == Flat(View(s).text, if View(s).pos > 0 then View(s).pos - 1 else 0)
  {
    hide Join; hide Before;
    MoveRefines(s, KeyLeft);
    if s.cx == 0 {
      if s.cy > 0 { JoinNextRemoves(s.lines, s.cy - 1); } else { FirstPlace(s.lines); }
    }
  }

  /** Right moves on by one place, if there is one. */
  lemma RightRefines(s: Snap)
    requires InDoc(s)
    ensures InDoc(Move(s, KeyRight))
    ensures View(Move(s, KeyRight)) == Flat(View(s).text, if View(s).pos < |View(s).text| then View(s).pos + 1
        else |View(s).text|)
  {
    hide Join; hide Before;
    MoveRefines(s, KeyRight);
    if s.cx < |s.lines[s.cy]| {
      TextAt(s.lines, s.cy, s.cx + 1);
    } else if s.cy + 1 < |s.lines| {
      JoinNextRemoves(s.lines, s.cy);
    } else {
      LastPlace(s.lines);
    }
  }

  // ---------------------------------------------------------------- lines without newlines

  ghost predicate NoNewlines(lines: seq<string>) {
    forall i :: 0 <= i < |lines| ==> '\n' !in lines[i]
  }

  /** Home goes back to just after the nearest newline, End forward to just before it. */
  lemma HomeEndRefine(s: Snap)
    requires InDoc(s) && NoNewlines(s.lines)
    ensures var f := View(s); var h := View(Move(s, KeyHome)); var e := View(Move(s, KeyEnd));
      && h.pos <= f.pos <= e.pos <= |f.text|
      && '\n' !in f.text[h.pos..e.pos]
      && (h.pos == 0 || f.text[h.pos - 1] == '\n') && (e.pos == |f.text| || f.text[e.pos] == '\n')
  {
    var y, l := s.cy, s.lines[s.cy];
    var h, e := View(Move(s, KeyHome)), View(Move(s, KeyEnd));
    MoveRefines(s, KeyHome);
    MoveRefines(s, KeyEnd);
    TextAt(s.lines, y, 0);
    TextAt(s.lines, y, s.cx);
    TextAt(s.lines, y, |l|);
    var t := Join(s.lines);
    assert t[h.pos..e.pos] == l by {
      assert t[h.pos..] == l + After(s.lines[y + 1..]);
      assert t[h.pos..e.pos] == t[h.pos..][..|l|];
    }
    if y > 0 { JoinNextRemoves(s.lines, y - 1); }
    if y + 1 < |s.lines| { JoinNextRemoves(s.lines, y); }
  }

  // ---------------------------------------------------------------- rows and columns of the flat text

  function Newlines(t: string): nat {
    if t == [] then 0 else Newlines(t[..|t| - 1]) + if t[|t| - 1] == '\n' then 1 else 0
  }

  /** How many characters there are after the last newline. */
  function SinceNewline(t: string): nat {
    if t == [] || t[|t| - 1] == '\n' then 0 else 1 + SinceNewline(t[..|t| - 1])
  }

  function Row(f: Flat): nat
    requires f.pos <= |f.text|
  {
    Newlines(f.text[..f.pos])
  }

  function Column(f: Flat): nat
    requires f.pos <= |f.text|
  {
    SinceNewline(f.text[..f.pos])
  }

  predicate AtRowEnd(f: Flat)
    requires f.pos <= |f.text|
  {
    f.pos == |f.text| || f.text[f.pos] == '\n'
  }

  lemma {:induction false} NewlinesJoin(a: string, b: string)
    ensures Newlines(a + b) == Newlines(a) + Newlines(b)
    decreases |b|
  {
    if b == [] {
      assert a + b == a;
    } else {
      assert (a + b)[..|a + b| - 1] == a + b[..|b| - 1];
      NewlinesJoin(a, b[..|b| - 1]);
    }
  }

  /** A line counts its characters and no newline. */
  lemma {:induction false} LineCounts(a: string, l: string)
    requires '\n' !in l && (a == [] || a[|a| - 1] == '\n')
    ensures Newlines(a + l) == Newlines(a) && SinceNewline(a + l) == |l|
    decreases |l|
  {
    if l == [] {
      assert a + l == a;
    } else {
      assert (a + l)[..|a + l| - 1] == a + l[..|l| - 1];
      LineCounts(a, l[..|l| - 1]);
    }
  }

  lemma {:induction false} BeforeCounts(lines: seq<string>)
    requires NoNewlines(lines)
    ensures Newlines(Before(lines)) == |lines|
    ensures Before(lines) == [] || Before(lines)[|Before(lines)| - 1] == '\n'
  {
    if lines == [] {
    } else {
      BeforeCounts(lines[1..]);
      NewlinesJoin(lines[0] + ['\n'], Before(lines[1..]));
      LineCounts([], lines[0]);
      assert [] + lines[0] == lines[0];
      assert (lines[0] + ['\n'])[..|lines[0]|] == lines[0];
    }
  }

  /** Row and column of a place in the text are the cursor, and the rows are the lines. */
  lemma RowColumn(lines: seq<string>, y: nat, x: nat)
    requires NoNewlines(lines) && y < |lines| && x <= |lines[y]|
    ensures var f := Flat(Join(lines), Pos(lines, y, x));
      && f.pos <= |f.text| && Row(f) == y && Column(f) == x && Newlines(f.text) == |lines| - 1
      && (AtRowEnd(f) <==> x == |lines[y]|)
  {
    hide Join; hide Before; hide After;
    var a, l := Before(lines[..y]), lines[y];
    TextAt(lines, y, x);
    BeforeCounts(lines[..y]);
    LineCounts(a, l[..x]);
    RowsAre(lines);
    EndOfRow(lines, y, x);
    hide Newlines; hide SinceNewline;
  }

  lemma RowsAre(lines: seq<string>)
    requires NoNewlines(lines) && lines != []
    ensures Newlines(Join(lines)) == |lines| - 1
  {
    hide Join; hide Before; hide After; hide Newlines; hide SinceNewline;
    var y := |lines| - 1;
    TextAt(lines, y, |lines[y]|);
    LastPlace(lines);
    BeforeCounts(lines[..y]);
    LineCounts(Before(lines[..y]), lines[y]);
    assert lines[y][..|lines[y]|] == lines[y];
    assert Join(lines)[..|Join(lines)|] == Join(lines);
  }

  lemma EndOfRow(lines: seq<string>, y: nat, x: nat)
    requires NoNewlines(lines) && y < |lines| && x <= |lines[y]|
    ensures var t := Join(lines); var p := Pos(lines, y, x);
      p <= |t| && (x == |lines[y]| <==> p == |t| || t[p] == '\n')
  {
    hide Join; hide Before;
    TextAt(lines, y, x);
    var t, p, l := Join(lines), Pos(lines, y, x), lines[y];
    if x < |l| {
      assert t[p] == t[p..][0] == l[x] && l[x] in l;
    } else if y + 1 < |lines| {
      JoinNextRemoves(lines, y);
    } else {
      LastPlace(lines);
    }
  }

  /** The place in row r that is closest to column x: that column, or the row's end when the row is shorter. */
  ghost predicate Nearest(f: Flat, r: nat, x: nat)
    requires f.pos <= |f.text|
  {
    Row(f) == r && (Column(f) == x || (Column(f) < x && AtRowEnd(f)))
  }

  lemma ClampNearest(s: Snap, y: nat)
    requires InDoc(s) && NoNewlines(s.lines) && y < |s.lines|
    ensures var c := Clamp(s.(cy := y)); InDoc(c) && View(c).pos <= |View(c).text| && Nearest(View(c), y, s.cx)
  {
    RowColumn(s.lines, y, if s.cx > |s.lines[y]| then |s.lines[y]| else s.cx);
    hide Join; hide Before; hide Newlines; hide SinceNewline;
  }

  /** Moving between rows is moving the cursor to the target row and clamping it. */
  lemma MovedTo(s: Snap, key: Key)
    requires InDoc(s)
    ensures InDoc(Target(s, key)) && View(Move(s, key)) == View(Target(s, key))
    ensures View(Target(s, key)).text == View(s).text
  {
    MoveRefines(s, key);
    ScrollFacts(Target(s, key));
    hide Join; hide Before;
  }

  /**
   Up goes to the row above, at the column it was in or that row's end, and on the first row to the start of the
   text; Down goes to the row below in the same way, and on the last row to the end of the text.
   */
  lemma UpDownRefine(s: Snap)
    requires InDoc(s) && NoNewlines(s.lines)
    ensures var f := View(s); var u := View(Move(s, KeyUp)); var d := View(Move(s, KeyDown));
      && f.pos <= |f.text| && u.text == d.text == f.text && u.pos <= |f.text| && d.pos <= |f.text|
      && (if Row(f) > 0 then Nearest(u, Row(f) - 1, Column(f)) else u.pos == 0)
      && (if Row(f) < Newlines(f.text) then Nearest(d, Row(f) + 1, Column(f)) else d.pos == |f.text|)
  {
    RowColumn(s.lines, s.cy, s.cx);
    MovedTo(s, KeyUp);
    MovedTo(s, KeyDown);
    hide Join; hide Before; hide Newlines; hide SinceNewline; hide Nearest; hide Move;
    if s.cy > 0 { ClampNearest(s, s.cy - 1); } else { FirstPlace(s.lines); }
    if s.cy + 1 < |s.lines| { ClampNearest(s, s.cy + 1); } else { LastPlace(s.lines); }
  }

  /** The page keys go 24 rows, or as many as there are, to the column it was in or the row's end. */
  lemma PagesRefine(s: Snap)
    requires InDoc(s) && NoNewlines(s.lines)
    ensures var f := View(s); var u := View(Move(s, KeyPageUp)); var d := View(Move(s, KeyPageDown));
      && f.pos <= |f.text| && u.text == d.text == f.text && u.pos <= |f.text| && d.pos <= |f.text|
      && Row(f) <= Newlines(f.text)
      && Nearest(u, if Row(f) < 24 then 0 else Row(f) - 24, Column(f))
      && Nearest(d, if Newlines(f.text) - Row(f) < 24 then Newlines(f.text) else Row(f) + 24, Column(f))
  {
    RowColumn(s.lines, s.cy, s.cx);
    MovedTo(s, KeyPageUp);
    MovedTo(s, KeyPageDown);
    hide Join; hide Before; hide Newlines; hide SinceNewline; hide Nearest; hide Move;
    ClampNearest(s, if s.cy > TEXT_HEIGHT then s.cy - TEXT_HEIGHT else 0);
    ClampNearest(s, if s.cy + TEXT_HEIGHT < |s.lines| then s.cy + TEXT_HEIGHT else |s.lines| - 1);
  }

  // ---------------------------------------------------------------- the window

  function Distance(a: nat, b: nat): nat {
    if a < b then b - a else a - b
  }

  /** The window moves no further than it must to show the cursor. */
  lemma ScrollLeast(s: Snap, y: nat, x: nat)
    requires y <= s.cy < y + TEXT_HEIGHT && x <= s.cx < x + SCREEN_WIDTH
    ensures var v := Scroll(s);
      && InWindow(v) && v == s.(sx := v.sx, sy := v.sy)
      && Distance(s.sy, v.sy) <= Distance(s.sy, y) && Distance(s.sx, v.sx) <= Distance(s.sx, x)
  {
  }
}
