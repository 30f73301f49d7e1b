/**
 Loading a document from a buffer and saving it to one.
 */
module Serial {
  import opened TextDoc

  /** The lines of a text: what lies between its newlines. */
  function SplitLines(t: string): (lines: seq<string>)
    ensures lines != []
    decreases |t|
  {
    var i := LineLength(t);
    if i == |t| then [t] else [t[..i]] + SplitLines(t[i + 1..])
  }

  /** The length of the first line. */
  function LineLength(t: string): (i: nat)
    ensures i <= |t| && '\n' !in t[..i] && (i < |t| ==> t[i] == '\n')
  {
    if t == [] || t[0] == '\n' then 0
    else
      var i := 1 + LineLength(t[1..]);
      assert t[..i] == [t[0]] + t[1..][..i - 1];
      i
  }

  predicate EndsWithNewline(t: string) {
    t != [] && t[|t| - 1] == '\n'
  }

  function Save(lines: seq<string>, endsWithNewline: bool): string
    requires lines != []
  {
    Join(lines) + if endsWithNewline then ['\n'] else []
  }

  /** What is left of the buffer once a final newline is set aside. */
  function Body(buf: string): string {
    if EndsWithNewline(buf) then buf[..|buf| - 1] else buf
  }

  /** The carriage-return test of the parser: it looks at the buffer's own beginning, not at the line. */
  predicate Tested(buf: string, l: string)
    requires |l| <= |buf|
  {
    l != [] && buf[|l| - 1] == '\r'
  }

  predicate Strips(buf: string, l: string) {
    |l| <= |buf| && Tested(buf, l)
  }

  function Strip(buf: string, l: string): string {
    if Strips(buf, l) then l[..|l| - 1] else l
  }

  function StripAll(buf: string, raw: seq<string>): (lines: seq<string>)
    ensures |lines| == |raw|
    ensures forall i :: 0 <= i < |raw| ==> lines[i] == Strip(buf, raw[i])
  {
    seq(|raw|, i requires 0 <= i < |raw| => Strip(buf, raw[i]))
  }

  function Parse(buf: string): seq<string> {
    StripAll(buf, SplitLines(Body(buf)))
  }

  // ---------------------------------------------------------------- splitting is the inverse of joining

  lemma {:induction false} JoinSplit(t: string)
    ensures Join(SplitLines(t)) == t && NoNewlines(SplitLines(t))
    decreases |t|
  {
    var i := LineLength(t);
    if i == |t| {
      assert t[..i] == t;
    } else {
      JoinSplit(t[i + 1..]);
      var rest := SplitLines(t[i + 1..]);
      assert ([t[..i]] + rest)[1..] == rest;
      assert t == t[..i] + ['\n'] + t[i + 1..];
    }
  }

  lemma {:induction false} LineLengthIs(l: string, rest: string)
    requires '\n' !in l && (rest == [] || rest[0] == '\n')
    ensures LineLength(l + rest) == |l|
  {
    if l != [] {
      assert (l + rest)[1..] == l[1..] + rest;
      LineLengthIs(l[1..], rest);
    } else {
      assert l + rest == rest;
    }
  }

  lemma {:induction false} SplitJoin(lines: seq<string>)
    requires lines != [] && NoNewlines(lines)
    ensures SplitLines(Join(lines)) == lines
  {
    var l := lines[0];
    if |lines| == 1 {
      assert l + [] == l;
      LineLengthIs(l, []);
    } else {
      var rest := ['\n'] + Join(lines[1..]);
      assert Join(lines) == l + rest;
      LineLengthIs(l, rest);
      assert (l + rest)[|l| + 1..] == Join(lines[1..]) && (l + rest)[..|l|] == l;
      SplitJoin(lines[1..]);
    }
  }

  // ---------------------------------------------------------------- save after parse

  ghost predicate NothingStripped(buf: string) {
    forall i :: 0 <= i < |SplitLines(Body(buf))| ==> !Strips(buf, SplitLines(Body(buf))[i])
  }

  /**
   Saving what was parsed gives the buffer back, byte for byte, exactly when the parser's carriage-return test never
   holds.
   */
  lemma SaveParse(buf: string)
    ensures Save(Parse(buf), EndsWithNewline(buf)) == buf <==> NothingStripped(buf)
  {
    var raw := SplitLines(Body(buf));
    JoinSplit(Body(buf));
    if NothingStripped(buf) {
      assert Parse(buf) == raw;
    } else {
      var i :| 0 <= i < |raw| && Strips(buf, raw[i]);
      Shorter(buf, raw, i);
    }
  }

  lemma {:induction false} JoinLength(lines: seq<string>, shorter: seq<string>)
    requires |lines| == |shorter| > 0 && forall i :: 0 <= i < |lines| ==> |shorter[i]| <= |lines[i]|
    ensures |Join(shorter)| <= |Join(lines)|
  {
    if |lines| > 1 { JoinLength(lines[1..], shorter[1..]); }
  }

  lemma {:induction false} Shorter(buf: string, raw: seq<string>, i: nat)
    requires i < |raw| && Strips(buf, raw[i])
    ensures |Join(StripAll(buf, raw))| < |Join(raw)|
    decreases i
  {
    assert |raw| > 1 ==> StripAll(buf, raw)[1..] == StripAll(buf, raw[1..]);
    if i > 0 {
      Shorter(buf, raw[1..], i - 1);
    } else if |raw| > 1 {
      JoinLength(raw[1..], StripAll(buf, raw[1..]));
    }
  }

  /** In particular for every buffer without carriage returns. */
  lemma SaveParseWithoutReturns(buf: string)
    requires '\r' !in buf
    ensures Save(Parse(buf), EndsWithNewline(buf)) == buf
  {
    SaveParse(buf);
  }

  lemma ParseTwo(buf: string, a: string, b: string)
    requires Body(buf) == a + ['\n'] + b && NoNewlines([a, b])
    ensures Parse(buf) == [Strip(buf, a), Strip(buf, b)]
  {
    var raw := [a, b];
    assert raw[1..] == [b];
    assert Join(raw) == Body(buf);
    SplitJoin(raw);
  }

  /** What the test is for: the carriage return of a line that ends in one. */
  predicate Returns(l: string) {
    l != [] && l[|l| - 1] == '\r'
  }

  function Meant(l: string): string {
    if Returns(l) then l[..|l| - 1] else l
  }

  /** No line is longer than its text. */
  lemma {:induction false} LineFits(t: string, i: nat)
    requires i < |SplitLines(t)|
    ensures |SplitLines(t)[i]| <= |t|
    decreases |t|
  {
    var k := LineLength(t);
    if k < |t| && i > 0 { LineFits(t[k + 1..], i - 1); }
  }

  /** One line comes out as meant exactly when the test holds of it just when the line ends in a carriage return. */
  lemma StripMeant(buf: string, l: string)
    ensures Strip(buf, l) == Meant(l) <==> (Strips(buf, l) <==> Returns(l))
  {
    if Strips(buf, l) && !Returns(l) { assert |Strip(buf, l)| < |Meant(l)|; }
    if !Strips(buf, l) && Returns(l) { assert |Strip(buf, l)| > |Meant(l)|; }
  }

  /**
   The parser drops the carriage return of every line that ends in one, and nothing else, exactly when its test,
   which looks at the buffer's start instead of the line's, holds of just those lines.  It never looks past the
   buffer's end.
   */
  lemma ReturnsDropped(buf: string)
    ensures var raw := SplitLines(Body(buf));
      && |Parse(buf)| == |raw| && (forall i :: 0 <= i < |raw| ==> |raw[i]| <= |buf|)
      && ((forall i :: 0 <= i < |raw| ==> Parse(buf)[i] == Meant(raw[i]))
         <==> forall i :: 0 <= i < |raw| ==> (Tested(buf, raw[i]) <==> Returns(raw[i])))
  {
    var raw := SplitLines(Body(buf));
    hide SplitLines; hide Tested; hide Meant; hide Returns;
    forall i | 0 <= i < |raw|
      ensures |raw[i]| <= |buf| && (Parse(buf)[i] == Meant(raw[i]) <==> (Tested(buf, raw[i]) <==> Returns(raw[i])))
    {
      LineFits(Body(buf), i);
      StripMeant(buf, raw[i]);
    }
  }

  /** A line's own carriage return before its newline is kept. */
  lemma ReturnKept(l: string)
    requires '\n' !in l && '\r' !in l && |l| > 1
    ensures Parse("a\n" + l + "\r\n") == ["a", l + "\r"]
  {
    var b := l + "\r";
    var buf := "a\n" + l + "\r\n";
    assert Body(buf) == ['a'] + ['\n'] + b;
    assert buf[|b| - 1] == l[|b| - 3];
    ParseTwo(buf, ['a'], b);
  }

  /** A line that has none can lose its last character. */
  lemma CharacterLost(x: char, y: char)
    requires x != '\n' && y != '\n'
    ensures Parse(['a', '\r', '\n', x, y]) == [['a'], [x]]
  {
    var buf := ['a', '\r', '\n', x, y];
    assert Body(buf) == ['a', '\r'] + ['\n'] + [x, y];
    ParseTwo(buf, ['a', '\r'], [x, y]);
    assert ['a', '\r'][..1] == ['a'] && [x, y][..1] == [x];
  }

  // ---------------------------------------------------------------- parse after save

  ghost predicate NoReturns(lines: seq<string>) {
    forall i :: 0 <= i < |lines| ==> '\r' !in lines[i]
  }

  lemma {:induction false} JoinEnd(lines: seq<string>)
    requires lines != []
    ensures EndsWithNewline(Join(lines))
        <==> if lines[|lines| - 1] == [] then |lines| > 1 else EndsWithNewline(lines[|lines| - 1])
    ensures NoReturns(lines) ==> '\r' !in Join(lines)
  {
    if |lines| > 1 {
      JoinEnd(lines[1..]);
      var j := Join(lines[1..]);
      assert Join(lines) == (lines[0] + ['\n']) + j;
      if j != [] { assert Join(lines)[|Join(lines)| - 1] == j[|j| - 1]; }
    }
  }

  /**
   Parsing a saved document gives back its lines and its final-newline flag exactly when the flag is set, or there
   is one line, or the last line is not empty.
   */
  lemma ParseSave(lines: seq<string>, flag: bool)
    requires lines != [] && NoNewlines(lines) && NoReturns(lines)
    ensures var buf := Save(lines, flag);
      (Parse(buf) == lines && EndsWithNewline(buf) == flag) <==> flag || |lines| == 1 || lines[|lines| - 1] != []
  {
    var buf := Save(lines, flag);
    JoinEnd(lines);
    if !EndsWithNewline(buf) || flag { ParseSaved(lines, flag); }
    hide Join; hide SplitLines; hide Parse;
  }

  lemma ParseSaved(lines: seq<string>, flag: bool)
    requires lines != [] && NoNewlines(lines) && NoReturns(lines)
    requires flag || !EndsWithNewline(Join(lines))
    ensures Parse(Save(lines, flag)) == lines
  {
    JoinEnd(lines);
    SplitJoin(lines);
    hide Join; hide SplitLines; hide StripAll;
    var buf := Save(lines, flag);
    assert Body(buf) == Join(lines);
    NothingToStrip(buf, lines);
  }

  lemma NothingToStrip(buf: string, raw: seq<string>)
    requires '\r' !in buf
    ensures StripAll(buf, raw) == raw
  {
    assert forall l :: !Strips(buf, l);
  }

  // ---------------------------------------------------------------- the loops

  lemma JoinBefore(lines: seq<string>)
    requires lines != []
    ensures Before(lines) == Join(lines) + ['\n']
  {
    var n := |lines| - 1;
    assert lines == lines[..n] + [lines[n]] + [];
    JoinAround(lines[..n], lines[n], []);
    BeforeMore(lines[..n], lines[n]);
    assert lines == lines[..n] + [lines[n]];
    assert Before(lines[..n]) + lines[n] + [] == Before(lines[..n]) + lines[n];
  }

  lemma BeforePrefix(lines: seq<string>, i: nat)
    requires i < |lines|
    ensures lines[..i + 1] == lines[..i] + [lines[i]]
    ensures Before(lines[..i + 1]) == Before(lines[..i]) + lines[i] + ['\n']
    ensures |Before(lines[..i])| + |lines[i]| + 1 <= |Before(lines)|
  {
    assert lines[..i + 1] == lines[..i] + [lines[i]];
    BeforeMore(lines[..i], lines[i]);
    assert lines == lines[..i + 1] + lines[i + 1..];
    BeforeSplit(lines[..i + 1], lines[i + 1..]);
  }

  method Memcpy(dst: array<char>, at: nat, src: string)
    requires at + |src| <= dst.Length
    modifies dst
    ensures dst[..] == old(dst[..])[..at] + src + old(dst[..])[at + |src|..]
  {
    var i := 0;
    while i < |src|
      invariant i <= |src|
      invariant dst[..] == old(dst[..])[..at] + src[..i] + old(dst[..])[at + i..]
    {
      dst[at + i] := src[i];
      i := i + 1;
    }
    assert src[..i] == src;
  }

  /** Before the last line is the text without the last line. */
  lemma LastLine(lines: seq<string>, i: nat)
    requires i + 1 == |lines|
    ensures Before(lines[..i]) + lines[i] == Join(lines)
  {
    assert After([]) == [];
    hide Join; hide Before; hide After;
    assert lines == lines[..i] + [lines[i]] + [];
    JoinAround(lines[..i], lines[i], []);
    assert Before(lines[..i]) + lines[i] + [] == Before(lines[..i]) + lines[i];
  }

  /** What is in the buffer after i lines. */
  function Written(lines: seq<string>, i: nat, endsWithNewline: bool): string
    requires lines != [] && i <= |lines|
  {
    if i < |lines| then Before(lines[..i]) else Save(lines, endsWithNewline)
  }

  lemma WrittenStep(lines: seq<string>, i: nat, endsWithNewline: bool)
    requires i < |lines|
    ensures Written(lines, i + 1, endsWithNewline) ==
      Written(lines, i, endsWithNewline) + lines[i] + if i < |lines| - 1 || endsWithNewline then ['\n'] else []
  {
    BeforePrefix(lines, i);
    if i + 1 == |lines| { LastLine(lines, i); }
  }

  lemma {:induction false} WrittenFits(lines: seq<string>, i: nat, endsWithNewline: bool)
    requires lines != [] && i <= |lines|
    ensures |Written(lines, i, endsWithNewline)| <= |Save(lines, endsWithNewline)|
    decreases |lines| - i
  {
    if i < |lines| {
      WrittenStep(lines, i, endsWithNewline);
      WrittenFits(lines, i + 1, endsWithNewline);
    }
  }

  /** The size computed before the buffer is filled. */
  method SaveSize(lines: seq<string>, endsWithNewline: bool) returns (total: nat)
    requires lines != []
    ensures total == |Save(lines, endsWithNewline)|
  {
    total := 0;
    var i := 0;
    assert lines[..0] == [];
    while i < |lines|
      invariant i <= |lines| && total == |Before(lines[..i])|
    {
      BeforePrefix(lines, i);
      total := total + |lines[i]| + 1;
      i := i + 1;
    }
    assert lines[..i] == lines;
    JoinBefore(lines);
    if !endsWithNewline {
      total := total - 1;
    }
  }

  /** The buffer editor_save hands to the file system: exactly as long as the size computed before it is filled. */
  method SaveBuffer(lines: seq<string>, endsWithNewline: bool) returns (buf: array<char>, pos: nat)
    requires lines != []
    ensures fresh(buf) && buf.Length == pos + 1 && buf[pos] == '\0'
    ensures buf[..pos] == Save(lines, endsWithNewline)
  {
    hide Join; hide Before; hide Save; hide Written;
    var total := SaveSize(lines, endsWithNewline);
    buf := new char[total + 1];
    pos := 0;
    var i := 0;
    assert Written(lines, 0, endsWithNewline) == [] by { WrittenStart(lines, endsWithNewline); }
    while i < |lines|
      invariant i <= |lines| && pos <= total && buf[..pos] == Written(lines, i, endsWithNewline)
    {
      WrittenStep(lines, i, endsWithNewline);
      WrittenFits(lines, i + 1, endsWithNewline);
      ghost var before := buf[..pos];
      Memcpy(buf, pos, lines[i]);
      pos := pos + |lines[i]|;
      assert buf[..pos] == before + lines[i];
      if i < |lines| - 1 || endsWithNewline {
        buf[pos] := '\n';
        pos := pos + 1;
        assert buf[..pos] == before + lines[i] + ['\n'];
      }
      i := i + 1;
    }
    WrittenAll(lines, endsWithNewline);
    buf[pos] := '\0';
  }

  lemma WrittenStart(lines: seq<string>, endsWithNewline: bool)
    requires lines != []
    ensures Written(lines, 0, endsWithNewline) == []
  {
  }

  lemma WrittenAll(lines: seq<string>, endsWithNewline: bool)
    requires lines != []
    ensures Written(lines, |lines|, endsWithNewline) == Save(lines, endsWithNewline)
  {
  }

  lemma NextLine(t: string, start: nat, i: nat)
    requires start <= i <= |t| && '\n' !in t[start..i] && (i == |t| || t[i] == '\n')
    ensures SplitLines(t[start..]) == [t[start..i]] + if i == |t| then [] else SplitLines(t[i + 1..])
  {
    assert t[start..] == t[start..i] + t[i..];
    LineLengthIs(t[start..i], t[i..]);
    assert t[start..][..i - start] == t[start..i];
    if i == |t| { assert t[start..i] == t[start..] && [t[start..i]] + [] == [t[start..i]]; }
    if i < |t| { assert t[start..][i - start + 1..] == t[i + 1..]; }
  }

  /** The parser's state: raw holds the lines before start, and no newline lies between start and i. */
  ghost predicate Parsing(t: string, raw: seq<string>, start: nat, i: nat) {
    if i <= |t| then start <= i && '\n' !in t[start..i] && SplitLines(t) == raw + SplitLines(t[start..])
    else SplitLines(t) == raw
  }

  lemma ParseLine(t: string, raw: seq<string>, start: nat, i: nat)
    requires i <= |t| && Parsing(t, raw, start, i) && (i == |t| || t[i] == '\n')
    ensures start <= i && Parsing(t, raw + [t[start..i]], i + 1, i + 1)
  {
    hide SplitLines;
    NextLine(t, start, i);
    assert [t[start..i]] + [] == [t[start..i]];
    if i < |t| {
      assert t[i + 1..i + 1] == [];
      assert raw + ([t[start..i]] + SplitLines(t[i + 1..])) == raw + [t[start..i]] + SplitLines(t[i + 1..]);
    }
  }

  lemma ParseSkip(t: string, raw: seq<string>, start: nat, i: nat)
    requires i < |t| && Parsing(t, raw, start, i) && t[i] != '\n'
    ensures Parsing(t, raw, start, i + 1)
  {
    assert t[start..i + 1] == t[start..i] + [t[i]];
  }

  method ParseBuffer(buf: string) returns (lines: seq<string>)
    ensures lines == Parse(buf)
  {
    hide SplitLines; hide Strips;
    lines := [];
    var start := 0;
    var end := if |buf| > 0 && buf[|buf| - 1] == '\n' then |buf| - 1 else |buf|;
    ghost var t := buf[..end];
    assert t == Body(buf) && t[0..] == t;
    ghost var raw := [];
    var i := 0;
    while i <= end
      invariant i <= end + 1 && Parsing(t, raw, start, i) && lines == StripAll(buf, raw)
    {
      if i == end || buf[i] == '\n' {
        ParseLine(t, raw, start, i);
        lines := lines + [OneLine(buf, start, i)];
        assert t[start..i] == buf[start..i];
        assert lines == StripAll(buf, raw + [t[start..i]]);
        raw := raw + [t[start..i]];
        start := i + 1;
      } else {
        ParseSkip(t, raw, start, i);
      }
      i := i + 1;
    }
  }

  /** The characters copied for the line that lies between start and i. */
  function OneLine(buf: string, start: nat, i: nat): (l: string)
    requires start <= i <= |buf|
    ensures l == Strip(buf, buf[start..i])
  {
    var lineLen := i - start;
    var kept := if lineLen > 0 && buf[lineLen - 1] == '\r' then lineLen - 1 else lineLen;
    assert buf[start..i][..kept] == buf[start..start + kept];
    buf[start..start + kept]
  }
}
