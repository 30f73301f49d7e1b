/**
 Paths: their components, the walk they describe, and the text printed for a node.
 */
module Paths {
  import opened Basics
  import opened FileData
  import opened FsTree

  const SLASH: char := '/'

  // ---------------------------------------------------------------- components

  /** Where the first component ends. */
  function TokenEnd(path: string): (k: nat)
    ensures k <= |path| && (forall i :: 0 <= i < k ==> path[i] != SLASH) && (k < |path| ==> path[k] == SLASH)
  {
    if path == "" || path[0] == SLASH then 0 else 1 + TokenEnd(path[1..])
  }

  lemma {:induction false} TokenEndIs(path: string, k: nat)
    requires k <= |path| && (forall i :: 0 <= i < k ==> path[i] != SLASH) && (k < |path| ==> path[k] == SLASH)
    ensures TokenEnd(path) == k
  {
    if k > 0 { TokenEndIs(path[1..], k - 1); }
  }

  /** The non-empty components of a path. */
  function Tokens(path: string): seq<string>
    decreases |path|
  {
    if path == "" then []
    else if path[0] == SLASH then Tokens(path[1..])
    else [path[..TokenEnd(path)]] + Tokens(path[TokenEnd(path)..])
  }

  /** A slash separates components. */
  lemma {:induction false} TokensJoin(a: string, b: string)
    ensures Tokens(a + [SLASH] + b) == Tokens(a) + Tokens(b)
    decreases |a|
  {
    hide TokenEnd;
    var whole := a + [SLASH] + b;
    if a == "" {
      assert whole[0] == SLASH && whole[1..] == b;
    } else if a[0] == SLASH {
      assert whole[1..] == a[1..] + [SLASH] + b;
      TokensJoin(a[1..], b);
    } else {
      var k := TokenEnd(a);
      assert whole[k] == if k < |a| then a[k] else SLASH;
      TokenEndIs(whole, k);
      assert whole[..k] == a[..k] && whole[k..] == a[k..] + [SLASH] + b;
      TokensJoin(a[k..], b);
      assert Tokens(a) == [a[..k]] + Tokens(a[k..]);
    }
  }

  /** A name that can be one component. */
  predicate Plain(name: string) {
    name != "" && SLASH !in name
  }

  lemma TokensPlain(name: string)
    requires Plain(name)
    ensures Tokens(name) == [name]
  {
    TokenEndIs(name, |name|);
    assert name[|name|..] == "" && name[..|name|] == name;
    assert Tokens("") == [];
  }

  // ---------------------------------------------------------------- the walk

  /** One step: a component too long fails; "." stays; ".." goes up, the root staying; a name is looked up. */
  function Walk1(s: Store, n: nat, token: string): Option<nat> {
    if |token| > NAME_MAX || n !in s then None
    else if token == "." then Some(n)
    else if token == ".." then (if s[n].parent.Some? then s[n].parent else Some(n))
    else if s[n].dir then FindIn(s, s[n].children, token)
    else None
  }

  function Walk(s: Store, n: nat, tokens: seq<string>): Option<nat>
    decreases |tokens|
  {
    if tokens == [] then Some(n)
    else
      var next := Walk1(s, n, tokens[0]);
      if next.None? then None else Walk(s, next.value, tokens[1..])
  }

  lemma {:induction false} WalkJoin(s: Store, n: nat, a: seq<string>, b: seq<string>)
    ensures Walk(s, n, a + b) == var m := Walk(s, n, a); if m.None? then None else Walk(s, m.value, b)
    decreases |a|
  {
    if a == [] { assert a + b == b; } else {
      assert (a + b)[1..] == a[1..] + b;
      var next := Walk1(s, n, a[0]);
      if next.Some? { WalkJoin(s, next.value, a[1..], b); }
    }
  }

  lemma Walk1Stays(s: Store, root: nat, depth: map<nat, nat>, n: nat, token: string)
    requires Tree(s, root, depth) && n in s
    ensures Walk1(s, n, token).Some? ==> Walk1(s, n, token).value in s
  {
    assert Linked(s, n);
  }

  lemma {:induction false} WalkStays(s: Store, root: nat, depth: map<nat, nat>, n: nat, tokens: seq<string>)
    requires Tree(s, root, depth) && n in s
    ensures Walk(s, n, tokens).Some? ==> Walk(s, n, tokens).value in s
    decreases |tokens|
  {
    if tokens != [] {
      Walk1Stays(s, root, depth, n, tokens[0]);
      var next := Walk1(s, n, tokens[0]);
      hide Walk1;
      if next.Some? { WalkStays(s, root, depth, next.value, tokens[1..]); }
    }
  }

  /** Going down by a name and up again leads back. */
  lemma DownAndUp(s: Store, root: nat, depth: map<nat, nat>, n: nat, name: string)
    requires Tree(s, root, depth) && n in s && Plain(name) && Addressable(name) && Walk1(s, n, name).Some?
    ensures Walk(s, n, [name, ".."]) == Some(n)
  {
    assert Linked(s, n);
    var c := Walk1(s, n, name).value;
    assert [name, ".."][1..] == [".."] && [".."][1..] == [];
    assert c in s && s[c].parent == Some(n);
    hide Tree; hide Linked; hide FindIn;
  }

  /** k components ".." . */
  function Ups(k: nat): seq<string> {
    if k == 0 then [] else [".."] + Ups(k - 1)
  }

  /** They lead k levels up, and never past the root. */
  lemma {:induction false} UpsClimb(s: Store, root: nat, depth: map<nat, nat>, n: nat, k: nat)
    requires Tree(s, root, depth) && n in s
    ensures Walk(s, n, Ups(k)) == Some(Ancestor(s, n, k))
    decreases k
  {
    if k == 0 {
    } else {
      assert Linked(s, n);
      assert Ups(k)[1..] == Ups(k - 1);
      if s[n].parent.Some? {
        UpsClimb(s, root, depth, s[n].parent.value, k - 1);
      } else {
        UpsClimb(s, root, depth, n, k - 1);
        AncestorOfRoot(s, n, k - 1);
      }
    }
  }

  lemma AncestorOfRoot(s: Store, n: nat, k: nat)
    requires n in s && s[n].parent.None?
    ensures Ancestor(s, n, k) == n
  {
  }

  /** As many as the node is deep lead to the root, and one more stays there. */
  lemma UpsReachRoot(s: Store, root: nat, depth: map<nat, nat>, n: nat)
    requires Tree(s, root, depth) && n in s
    ensures n in depth && Walk(s, n, Ups(depth[n])) == Some(root) && Walk(s, n, Ups(depth[n] + 1)) == Some(root)
  {
    ReachesRoot(s, root, depth, n);
    UpsClimb(s, root, depth, n, depth[n]);
    UpsClimb(s, root, depth, n, depth[n] + 1);
    OneMoreUp(s, n, depth[n]);
    hide Walk;
  }

  lemma {:induction false} OneMoreUp(s: Store, n: nat, k: nat)
    requires var a := Ancestor(s, n, k); a in s && s[a].parent.None?
    ensures Ancestor(s, n, k + 1) == Ancestor(s, n, k)
    decreases k
  {
    if k > 0 && n in s && s[n].parent.Some? { OneMoreUp(s, s[n].parent.value, k - 1); }
  }

  /** A component "." makes no difference, wherever it stands. */
  lemma DotStays(s: Store, root: nat, depth: map<nat, nat>, n: nat, a: seq<string>, b: seq<string>)
    requires Tree(s, root, depth) && n in s
    ensures Walk(s, n, a + ["."] + b) == Walk(s, n, a + b)
  {
    WalkStays(s, root, depth, n, a);
    assert a + ["."] + b == a + (["."] + b);
    WalkJoin(s, n, a, ["."] + b);
    WalkJoin(s, n, a, b);
    assert (["."] + b)[1..] == b;
    hide Tree;
  }

  /** Where a path leads: from the root if it starts with a slash, otherwise from the working directory. */
  function Resolve(s: Store, root: nat, cwd: nat, path: string): Option<nat> {
    if path == "" then None
    else Walk(s, if path[0] == SLASH then root else cwd, Tokens(path))
  }

  // ---------------------------------------------------------------- the text printed for a node

  /** The text printed for a node: its parent's text, a slash unless the parent is the root, and its name. */
  function PathText(s: Store, root: nat, depth: map<nat, nat>, n: nat): (text: string)
    requires Ranked(s, root, depth) && n in s
    ensures text != "" && text[0] == SLASH
    decreases n in depth, if n in depth then depth[n] else 0
  {
    assert n in depth.Keys && (n != root ==> Placed(s, depth, n));
    if s[n].parent.None? then [SLASH]
    else
      var p := s[n].parent.value;
      assert p in depth.Keys && Placed(s, depth, n);
      PathText(s, root, depth, p) + (if s[p].parent.Some? then [SLASH] else []) + s[n].name
  }

  /** A component that is looked up in a child list: not too long, not "." or "..". */
  predicate Addressable(name: string) {
    |name| <= NAME_MAX && name != "." && name != ".."
  }

  predicate Resolvable(name: string) {
    Plain(name) && Addressable(name)
  }

  /** The node's name and those of the directories above it can all be found again. */
  ghost predicate ResolvableUp(s: Store, root: nat, depth: map<nat, nat>, n: nat)
    requires Ranked(s, root, depth) && n in s
    decreases n in depth, if n in depth then depth[n] else 0
  {
    assert n in depth.Keys;
    n != root ==>
      assert Placed(s, depth, n) && s[n].parent.value in depth.Keys;
      Resolvable(s[n].name) && ResolvableUp(s, root, depth, s[n].parent.value)
  }

  lemma {:induction false} PathTextWalks(s: Store, root: nat, depth: map<nat, nat>, n: nat)
    requires Tree(s, root, depth) && NamesDistinct(s) && n in s && ResolvableUp(s, root, depth, n)
    ensures Walk(s, root, Tokens(PathText(s, root, depth, n))) == Some(n)
    decreases n in depth, if n in depth then depth[n] else 0
  {
    assert n in depth.Keys;
    if n == root {
      TokensJoin("", "");
      assert "" + [SLASH] + "" == [SLASH];
    } else {
      assert Placed(s, depth, n);
      var p := s[n].parent.value;
      assert p in depth.Keys;
      PathTextWalks(s, root, depth, p);
      var text := PathText(s, root, depth, p);
      TokensPlain(s[n].name);
      ParentText(s, root, depth, n);
      WalkJoin(s, root, Tokens(text), [s[n].name]);
      assert Linked(s, n) && Linked(s, p);
      FoundByName(s, p, n);
      WalkOne(s, p, s[n].name);
    }
  }

  lemma WalkOne(s: Store, n: nat, token: string)
    ensures Walk(s, n, [token]) == Walk1(s, n, token)
  {
    hide Walk1;
    var next := Walk1(s, n, token);
    if next.Some? { assert Walk(s, next.value, [token][1..]) == next; }
  }

  lemma ParentText(s: Store, root: nat, depth: map<nat, nat>, n: nat)
    requires Ranked(s, root, depth) && n in s && n != root
    ensures Placed(s, depth, n)
    ensures Tokens(PathText(s, root, depth, n)) == Tokens(PathText(s, root, depth, s[n].parent.value)) +
        Tokens(s[n].name)
  {
    assert Placed(s, depth, n);
    var p := s[n].parent.value;
    assert p != root ==> Placed(s, depth, p);
    var text := PathText(s, root, depth, p);
    assert Tokens("") == [];
    hide Tokens;
    if p == root {
      TokensJoin("", "");
      TokensJoin("", s[n].name);
      assert "" + [SLASH] + "" == text;
      assert "" + [SLASH] + s[n].name == PathText(s, root, depth, n);
    } else {
      TokensJoin(text, s[n].name);
      assert text + [SLASH] + s[n].name == PathText(s, root, depth, n);
    }
  }

  lemma {:induction false} TokensArePlain(path: string)
    ensures forall t :: t in Tokens(path) ==> Plain(t)
    decreases |path|
  {
    if path == "" {
    } else if path[0] == SLASH { TokensArePlain(path[1..]); }
    else { TokensArePlain(path[TokenEnd(path)..]); }
  }

  /** Walks stay among the nodes whose names, all the way up, can be looked up. */
  lemma {:induction false} WalkResolvable(s: Store, root: nat, depth: map<nat, nat>, n: nat, tokens: seq<string>)
    requires Tree(s, root, depth) && n in s && ResolvableUp(s, root, depth, n)
    requires (forall t :: t in tokens ==> Plain(t)) && Walk(s, n, tokens).Some?
    ensures Walk(s, n, tokens).value in s && ResolvableUp(s, root, depth, Walk(s, n, tokens).value)
    decreases |tokens|
  {
    if tokens != [] {
      assert Linked(s, n) && tokens[0] in tokens;
      var m := Walk1(s, n, tokens[0]).value;
      Walk1Stays(s, root, depth, n, tokens[0]);
      assert ResolvableUp(s, root, depth, m) by {
        if tokens[0] != "." && tokens[0] != ".." { assert s[m].parent == Some(n); }
      }
      hide Walk1; hide ResolvableUp; hide Tree; hide Ranked;
      WalkResolvable(s, root, depth, m, tokens[1..]);
    }
  }

  /**
   Resolving the text printed for a node gives the node back, whatever the working directory, exactly when its name
   and those of the directories above it can be looked up; a node for which one cannot is out of reach of every path
   from the root.
   */
  lemma PathTextResolves(s: Store, root: nat, depth: map<nat, nat>, cwd: nat, n: nat)
    requires Tree(s, root, depth) && NamesDistinct(s) && n in s
    ensures Resolve(s, root, cwd, PathText(s, root, depth, n)) == Some(n) <==> ResolvableUp(s, root, depth, n)
    ensures !ResolvableUp(s, root, depth, n) ==> forall path :: Walk(s, root, Tokens(path)) != Some(n)
  {
    if ResolvableUp(s, root, depth, n) {
      PathTextWalks(s, root, depth, n);
    } else {
      forall path ensures Walk(s, root, Tokens(path)) != Some(n) {
        TokensArePlain(path);
        if Walk(s, root, Tokens(path)).Some? { WalkResolvable(s, root, depth, root, Tokens(path)); }
      }
    }
  }

  /** Every node from here up to below the root has a name that can be one component. */
  ghost predicate PlainUp(s: Store, root: nat, depth: map<nat, nat>, n: nat)
    requires Ranked(s, root, depth) && n in s
    decreases n in depth, if n in depth then depth[n] else 0
  {
    assert n in depth.Keys;
    n != root ==>
      assert Placed(s, depth, n) && s[n].parent.value in depth.Keys;
      Plain(s[n].name) && PlainUp(s, root, depth, s[n].parent.value)
  }

  /**
   A text without an empty component: it starts with a slash, has no two in a row, and ends in one only if that is
   all.
   */
  ghost predicate Clean(text: string) {
    && text != "" && text[0] == SLASH
    && (forall i :: 0 <= i < |text| - 1 ==> !(text[i] == SLASH && text[i + 1] == SLASH))
    && (|text| > 1 ==> text[|text| - 1] != SLASH)
  }

  lemma CleanMore(text: string, name: string)
    requires Clean(text) && Plain(name)
    ensures Clean(text + (if |text| > 1 then [SLASH] else []) + name)
    ensures |text + (if |text| > 1 then [SLASH] else []) + name| > 1
  {
    var more := text + (if |text| > 1 then [SLASH] else []) + name;
    var k := |more| - |name|;
    forall i | k <= i < |more| ensures more[i] != SLASH { assert more[i] == name[i - k] && name[i - k] in name; }
    assert more[..|text|] == text;
    forall i | 0 <= i < |more| - 1 ensures !(more[i] == SLASH && more[i + 1] == SLASH) {
      if i + 1 < |text| { assert more[i] == text[i] && more[i + 1] == text[i + 1]; }
    }
  }

  /** The text printed for a node has no empty component, and is the slash alone exactly for the root. */
  lemma {:induction false} PathTextClean(s: Store, root: nat, depth: map<nat, nat>, n: nat)
    requires Ranked(s, root, depth) && n in s && PlainUp(s, root, depth, n)
    ensures Clean(PathText(s, root, depth, n)) && (|PathText(s, root, depth, n)| == 1 <==> n == root)
    decreases n in depth, if n in depth then depth[n] else 0
  {
    assert n in depth.Keys;
    if n == root {
    } else {
      assert Placed(s, depth, n);
      var p := s[n].parent.value;
      assert p in depth.Keys && (p != root ==> Placed(s, depth, p));
      PathTextClean(s, root, depth, p);
      CleanMore(PathText(s, root, depth, p), s[n].name);
      hide Clean; hide Plain;
    }
  }

  // ---------------------------------------------------------------- paths through a new node

  lemma Walk1Created(s: Store, root: nat, depth: map<nat, nat>, parent: nat, id: nat, name: string, dir: bool, n: nat,
          token: string)
    requires Tree(s, root, depth) && parent in s && s[parent].dir && id !in s && n in s
    requires FindIn(s, s[parent].children, name).None? && Walk1(s, n, token).Some?
    ensures Walk1(Created(s, parent, id, name, dir), n, token) == Walk1(s, n, token)
  {
    var t := Created(s, parent, id, name, dir);
    if token != "." && token != ".." {
      assert Linked(s, n);
      FindInCreated(s, parent, id, name, dir, s[n].children, token);
      hide Tree; hide Linked;
    }
  }

  lemma {:induction false} FindInCreated(s: Store, parent: nat, id: nat, name: string, dir: bool, list: seq<nat>,
          token: string)
    requires parent in s && id !in s && forall c :: c in list ==> c in s
    ensures FindIn(Created(s, parent, id, name, dir), list, token) == FindIn(s, list, token)
  {
    if list != [] { FindInCreated(s, parent, id, name, dir, list[1..], token); }
  }

  /** A walk that succeeded leads to the same node when one more exists. */
  lemma {:induction false} WalkCreated(s: Store, root: nat, depth: map<nat, nat>, parent: nat, id: nat, name: string,
          dir: bool, n: nat, tokens: seq<string>)
    requires Tree(s, root, depth) && parent in s && s[parent].dir && id !in s && n in s
    requires FindIn(s, s[parent].children, name).None? && Walk(s, n, tokens).Some?
    ensures Walk(Created(s, parent, id, name, dir), n, tokens) == Walk(s, n, tokens)
    decreases |tokens|
  {
    if tokens != [] {
      Walk1Created(s, root, depth, parent, id, name, dir, n, tokens[0]);
      Walk1Stays(s, root, depth, n, tokens[0]);
      hide Walk1; hide Created; hide Tree;
      WalkCreated(s, root, depth, parent, id, name, dir, Walk1(s, n, tokens[0]).value, tokens[1..]);
    }
  }

  /** The name a new node is stored under: cut to what its field holds. */
  function Stored(name: string): (r: string)
    ensures |r| <= NAME_MAX && r <= name && (|name| <= NAME_MAX ==> r == name)
  {
    if |name| <= NAME_MAX then name else name[..NAME_MAX]
  }

  /** From the parent, the name given leads to the new node exactly when it fits and is not "." or "..". */
  lemma NewChildFound(s: Store, root: nat, depth: map<nat, nat>, parent: nat, id: nat, name: string, dir: bool)
    requires Tree(s, root, depth) && parent in s && s[parent].dir && id !in s
    ensures Walk1(Created(s, parent, id, Stored(name), dir), parent, name) == Some(id)
      <==> Addressable(name)
  {
    var t := Created(s, parent, id, Stored(name), dir);
    assert Linked(s, parent);
    if |name| <= NAME_MAX {
      FindInAt(t, t[parent].children, name, 0);
    }
  }

  /** The directory part of a path names the node where the last component goes. */
  lemma SplitWalk(s: Store, n: nat, front: string, name: string)
    requires Plain(name)
    ensures Walk(s, n, Tokens(front + [SLASH] + name))
      == var m := Walk(s, n, Tokens(front)); if m.None? then None else Walk1(s, m.value, name)
  {
    TokensJoin(front, name);
    TokensPlain(name);
    WalkJoin(s, n, Tokens(front), [name]);
    var m := Walk(s, n, Tokens(front));
    if m.Some? { WalkOne(s, m.value, name); }
  }

  // ---------------------------------------------------------------- where a new node goes

  const PATH_BUFFER: nat := 256

  /** The index of the last slash, -1 when there is none. */
  function LastSlash(path: string): (k: int)
    ensures -1 <= k < |path| && (k >= 0 ==> path[k] == SLASH) && forall i :: k < i < |path| ==> path[i] != SLASH
  {
    if path == "" then -1
    else if path[|path| - 1] == SLASH then |path| - 1
    else LastSlash(path[..|path| - 1])
  }

  /** The name a path gives a new node: what follows its last slash. */
  function LastName(path: string): string {
    path[LastSlash(path) + 1..]
  }

  /** The node a path puts a new node under; a directory part that does not fit its buffer has none. */
  function ParentOf(s: Store, root: nat, cwd: nat, path: string): Option<nat> {
    var k := LastSlash(path);
    if k < 0 then Some(cwd)
    else if k == 0 then Some(root)
    else if k >= PATH_BUFFER then None
    else Resolve(s, root, cwd, path[..k])
  }

  lemma PathEnds(path: string)
    requires LastName(path) != ""
    ensures Plain(LastName(path)) && path != ""
    ensures LastSlash(path) < 0 ==> path == LastName(path) && path[0] != SLASH
    ensures LastSlash(path) >= 0 ==> path == path[..LastSlash(path)] + [SLASH] + LastName(path)
  {
  }

  /** The walk of a path ends with its last name. */
  lemma LastStep(s: Store, n: nat, path: string)
    requires LastName(path) != ""
    ensures LastSlash(path) < 0 ==> Walk(s, n, Tokens(path)) == Walk1(s, n, LastName(path))
    ensures LastSlash(path) >= 0 ==>
      Walk(s, n, Tokens(path)) == var m := Walk(s, n, Tokens(path[..LastSlash(path)]));
        if m.None? then None else Walk1(s, m.value, LastName(path))
  {
    PathEnds(path);
    var k, name := LastSlash(path), LastName(path);
    hide LastSlash; hide LastName; hide Tokens; hide Walk; hide Walk1; hide Plain;
    if k < 0 {
      TokensPlain(name);
      WalkOne(s, n, name);
    } else {
      SplitWalk(s, n, path[..k], name);
    }
  }

  /** In any store where the directory part leads to p, the whole path leads where p's child of that name is. */
  lemma ParentThenName(s: Store, root: nat, cwd: nat, path: string)
    requires LastName(path) != ""
    requires ParentOf(s, root, cwd, path).Some?
    ensures Resolve(s, root, cwd, path) == Walk1(s, ParentOf(s, root, cwd, path).value, LastName(path))
  {
    var k := LastSlash(path);
    PathEnds(path);
    LastStep(s, if path[0] == SLASH then root else cwd, path);
    assert k == 0 ==> path[..k] == "";
    assert Tokens("") == [];
    hide LastSlash; hide LastName; hide Tokens; hide Walk1; hide Plain;
  }

  /** Making one more node under the parent a path names leaves that parent where it was. */
  lemma ParentOfCreated(s: Store, root: nat, depth: map<nat, nat>, cwd: nat, path: string, id: nat, name: string,
          dir: bool)
    requires Tree(s, root, depth) && cwd in s && id !in s
    requires ParentOf(s, root, cwd, path).Some? && ParentOf(s, root, cwd, path).value in s
    requires var p := ParentOf(s, root, cwd, path).value; s[p].dir && FindIn(s, s[p].children, name).None?
    ensures var p := ParentOf(s, root, cwd, path).value;
      ParentOf(Created(s, p, id, name, dir), root, cwd, path) == Some(p)
  {
    var k := LastSlash(path);
    var p := ParentOf(s, root, cwd, path).value;
    if 0 < k < PATH_BUFFER {
      WalkCreated(s, root, depth, p, id, name, dir, if path[0] == SLASH then root else cwd, Tokens(path[..k]));
    }
  }

  lemma ParentOfStays(s: Store, root: nat, depth: map<nat, nat>, cwd: nat, path: string)
    requires Tree(s, root, depth) && cwd in s
    ensures ParentOf(s, root, cwd, path).Some? ==> ParentOf(s, root, cwd, path).value in s
  {
    var k := LastSlash(path);
    if 0 < k < PATH_BUFFER { WalkStays(s, root, depth, if path[0] == SLASH then root else cwd, Tokens(path[..k])); }
  }

  /** A path whose last component is too long leads nowhere. */
  lemma LongNameLost(s: Store, root: nat, cwd: nat, path: string)
    requires |LastName(path)| > NAME_MAX
    ensures Resolve(s, root, cwd, path) == None
  {
    PathEnds(path);
    LastStep(s, if path[0] == SLASH then root else cwd, path);
    hide LastSlash; hide LastName; hide Tokens; hide Walk; hide Plain;
  }

  /**
   Once a path has made a node, resolving it gives that node exactly when its last name fits and is not "." or "..".
   */
  lemma MadeResolves(s: Store, root: nat, depth: map<nat, nat>, cwd: nat, path: string, id: nat, dir: bool)
    requires Tree(s, root, depth) && cwd in s && id !in s && LastName(path) != ""
    requires ParentOf(s, root, cwd, path).Some? && ParentOf(s, root, cwd, path).value in s
    requires var p := ParentOf(s, root, cwd, path).value; s[p].dir && FindIn(s, s[p].children, LastName(path)).None?
    ensures var name := LastName(path); var t := Created(s, ParentOf(s, root, cwd, path).value, id, Stored(name), dir);
      Resolve(t, root, cwd, path) == Some(id) <==> Addressable(name)
  {
    var name := LastName(path);
    var p := ParentOf(s, root, cwd, path).value;
    var t := Created(s, p, id, Stored(name), dir);
    if |name| <= NAME_MAX {
      ParentOfCreated(s, root, depth, cwd, path, id, Stored(name), dir);
      ParentThenName(t, root, cwd, path);
      NewChildFound(s, root, depth, p, id, name, dir);
    } else {
      LongNameLost(t, root, cwd, path);
    }
  }

  // ---------------------------------------------------------------- two names that are lost

  /** The tree of the root alone. */
  function Bare(root: nat): Store {
    map[root := Node("/", true, [], None, [])]
  }

  lemma BareTree(root: nat)
    ensures Tree(Bare(root), root, map[root := 0]) && NamesDistinct(Bare(root))
  {
    assert Linked(Bare(root), root);
    forall p | p in Bare(root) ensures NamesApart(Bare(root), Bare(root)[p].children) { assert p in Bare(root).Keys; }
  }

  /** One node made in it. */
  lemma OneMade(root: nat, id: nat, name: string, dir: bool)
    requires id != root
    ensures var t := Created(Bare(root), root, id, name, dir); var e := map[root := 0, id := 1];
      && Tree(t, root, e) && Ranked(t, root, e) && NamesDistinct(t)
      && root in t && t[root].children == [id] && t[root].dir && id in t && t[id] == Node(name, dir, [], Some(root), [])
  {
    BareTree(root);
    CreatedTree(Bare(root), root, map[root := 0], root, id, name, dir);
    CreatedNames(Bare(root), root, map[root := 0], root, id, name, dir);
    assert map[root := 0][id := 1] == map[root := 0, id := 1];
    hide NamesDistinct; hide Linked;
  }

  /** In a tree of the root alone, making "." succeeds, and no path leads to the new directory. */
  lemma DotMadeIsLost(root: nat, id: nat, path: string)
    requires id != root
    ensures var s := Bare(root); var t := Created(s, root, id, Stored("."), true);
      && ParentOf(s, root, root, ".") == Some(root) && FindIn(s, s[root].children, LastName(".")).None?
      && id in t && Resolve(t, root, root, path) != Some(id)
  {
    OneMade(root, id, ".", true);
    var t, e := Created(Bare(root), root, id, ".", true), map[root := 0, id := 1];
    hide Walk; hide Tree; hide NamesDistinct; hide Tokens; hide Ranked; hide Created;
    assert !ResolvableUp(t, root, e, id);
    hide ResolvableUp; hide PathText;
    PathTextResolves(t, root, e, root, id);
  }

  /**
   In a tree of the root alone, two names too long to store that agree in what is stored can both be made, and are
   then one.
   */
  lemma LongNamesClash(root: nat, first: nat, second: nat, a: string, b: string, dir: bool)
    requires root != first && root != second && first != second
    requires |a| > NAME_MAX && |b| > NAME_MAX && a[..NAME_MAX] == b[..NAME_MAX]
    ensures var s := Bare(root); var t := Created(s, root, first, Stored(a), dir);
      && FindIn(s, s[root].children, a).None? && FindIn(t, t[root].children, b).None?
      && NamesDistinct(t) && !NamesDistinct(Created(t, root, second, Stored(b), dir))
  {
    OneMade(root, first, Stored(a), dir);
    var t := Created(Bare(root), root, first, Stored(a), dir);
    assert second !in t;
    hide Created; hide NamesDistinct; hide Tree; hide Ranked;
    CreatedNames(t, root, map[root := 0, first := 1], root, second, Stored(b), dir);
  }

  /**
   In a tree of the root alone, a directory is made and becomes the working directory; it is empty and not the root,
   so it can be deleted, and the working directory is then no node of the tree.
   */
  lemma WorkingDirectoryLost(root: nat, id: nat)
    requires id != root
    ensures var t := Created(Bare(root), root, id, Stored("d"), true);
      && Resolve(t, root, root, "d") == Some(id) && id in t && t[id].dir && t[id].children == []
      && t[id].parent == Some(root) && root in t && id !in Deleted(t, id)
  {
    OneMade(root, id, "d", true);
    var t := Created(Bare(root), root, id, "d", true);
    TokensPlain("d");
    hide Tokens; hide Created; hide Tree; hide Ranked; hide NamesDistinct;
    WalkOne(t, root, "d");
    FindInAt(t, [id], "d", 0);
    hide Walk; hide FindIn;
  }

  // ---------------------------------------------------------------- bytes and paths

  lemma {:induction false} FindIgnoresData(s: Store, n: nat, bytes: seq<Byte>, list: seq<nat>, name: string)
    requires n in s
    ensures FindIn(WithData(s, n, bytes), list, name) == FindIn(s, list, name)
  {
    if list != [] { FindIgnoresData(s, n, bytes, list[1..], name); }
  }

  lemma {:induction false} WalkIgnoresData(s: Store, n: nat, bytes: seq<Byte>, from: nat, tokens: seq<string>)
    requires n in s
    ensures Walk(WithData(s, n, bytes), from, tokens) == Walk(s, from, tokens)
    decreases |tokens|
  {
    if tokens != [] {
      var t := WithData(s, n, bytes);
      if from in s { FindIgnoresData(s, n, bytes, s[from].children, tokens[0]); }
      assert Walk1(t, from, tokens[0]) == Walk1(s, from, tokens[0]);
      var next := Walk1(s, from, tokens[0]);
      hide Walk1;
      if next.Some? { WalkIgnoresData(s, n, bytes, next.value, tokens[1..]); }
    }
  }

  /** Writing a file moves no path: what was written is found where the path led before. */
  lemma WrittenIsFound(s: Store, root: nat, cwd: nat, path: string, bytes: seq<Byte>)
    requires var r := Resolve(s, root, cwd, path); r.Some? && r.value in s
    ensures var n := Resolve(s, root, cwd, path).value; var t := WithData(s, n, bytes);
      Resolve(t, root, cwd, path) == Some(n) && t[n].data == bytes
  {
    var n := Resolve(s, root, cwd, path).value;
    WalkIgnoresData(s, n, bytes, if path[0] == SLASH then root else cwd, Tokens(path));
  }
}
