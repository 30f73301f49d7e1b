/**
 Writing a whole file by its path, as the editor saves: what it does to the tree, and whether the path then leads to
 the file.
 */
module Saves {
  import opened Basics
  import opened FileData
  import opened FsTree
  import opened Paths

  /**
   Where a save makes a missing file: the root when the path has no slash but a leading one, whatever the working
   directory.
   */
  function SaveParent(s: Store, root: nat, cwd: nat, path: string): Option<nat> {
    var k := LastSlash(path);
    if k <= 0 then Some(root)
    else if |path| >= PATH_BUFFER then None
    else Resolve(s, root, cwd, path[..k])
  }

  /** A path that leads nowhere gets a new file; the name is cut to what a node stores before it is looked for. */
  predicate Creates(s: Store, root: nat, cwd: nat, path: string, room: bool) {
    var p := SaveParent(s, root, cwd, path);
    p.Some? && p.value in s && s[p.value].dir && FindIn(s, s[p.value].children, Stored(LastName(path))).None? && room
  }

  /** The old bytes are given up before there is memory for the new ones. */
  function Replaced(s: Store, n: nat, bytes: seq<Byte>, memory: bool): (Store, bool)
    requires n in s
  {
    if s[n].dir then (s, false)
    else if bytes != [] && !memory then (WithData(s, n, []), false)
    else (WithData(s, n, bytes), true)
  }

  /** room and memory: whether there is memory for a new node and for the bytes. */
  function Saved(s: Store, root: nat, cwd: nat, path: string, bytes: seq<Byte>, id: nat, room: bool,
          memory: bool): (Store, bool)
  {
    var r := Resolve(s, root, cwd, path);
    if r.Some? then if r.value in s then Replaced(s, r.value, bytes, memory) else (s, false)
    else if Creates(s, root, cwd, path, room) then
      Replaced(Created(s, SaveParent(s, root, cwd, path).value, id, Stored(LastName(path)), false), id, bytes, memory)
    else (s, false)
  }

  // ---------------------------------------------------------------- a failed save

  /**
   A failed save leaves the tree alone exactly when the path leads to a directory or to a file that was empty, or
   leads nowhere and no file could be made there.
   */
  lemma FailedSaveAlone(s: Store, root: nat, cwd: nat, path: string, bytes: seq<Byte>, id: nat, room: bool,
          memory: bool)
    requires id !in s && !Saved(s, root, cwd, path, bytes, id, room, memory).1
    ensures var r := Resolve(s, root, cwd, path);
      Saved(s, root, cwd, path, bytes, id, room, memory).0 == s <==>
        if r.Some? then r.value in s ==> s[r.value].dir || s[r.value].data == [] else !Creates(s, root, cwd, path, room)
  {
    var r := Resolve(s, root, cwd, path);
    var t := Saved(s, root, cwd, path, bytes, id, room, memory).0;
    hide Resolve; hide FindIn; hide LastName; hide LastSlash;
    if r.Some? {
      if r.value in s && !s[r.value].dir {
        assert t == WithData(s, r.value, []);
        if s[r.value].data == [] { assert s[r.value].(data := []) == s[r.value]; }
        else { assert t[r.value].data == []; }
      }
    } else if Creates(s, root, cwd, path, room) {
      assert id in t;
    }
  }

  lemma OneFile(a: seq<Byte>)
    ensures Resolve(map[0 := Node("/", true, [], None, [1]), 1 := Node("f", false, a, Some(0), [])], 0, 0, "f")
      == Some(1)
  {
    var s := map[0 := Node("/", true, [], None, [1]), 1 := Node("f", false, a, Some(0), [])];
    TokensPlain("f");
    WalkOne(s, 0, "f");
    FindInAt(s, [1], "f", 0);
    hide Tokens; hide Walk; hide FindIn;
  }

  /** A file of one byte is empty after a save that finds no memory. */
  lemma FailedSaveEmpties(a: Byte, b: Byte)
    ensures var s := map[0 := Node("/", true, [], None, [1]), 1 := Node("f", false, [a], Some(0), [])];
      var (t, ok) := Saved(s, 0, 0, "f", [b], 2, true, false);
      !ok && Resolve(t, 0, 0, "f") == Some(1) && 1 in t && t[1].data == []
  {
    var s := map[0 := Node("/", true, [], None, [1]), 1 := Node("f", false, [a], Some(0), [])];
    OneFile([a]);
    OneFile([]);
    hide Resolve;
    assert WithData(s, 1, []) == map[0 := Node("/", true, [], None, [1]), 1 := Node("f", false, [], Some(0), [])];
  }

  // ---------------------------------------------------------------- finding it again

  /**
   The path leads to the file afterwards: it did before, or what it makes has a name that fits, where the path looks
   for it.
   */
  predicate Reaches(s: Store, root: nat, cwd: nat, path: string) {
    Resolve(s, root, cwd, path).Some? ||
    (path != "" && |LastName(path)| <= NAME_MAX && (LastSlash(path) >= 0 || cwd == root))
  }

  /** A path that ends in a slash leads where its directory part does. */
  lemma SlashResolves(s: Store, root: nat, cwd: nat, path: string)
    requires path != "" && LastName(path) == "" && SaveParent(s, root, cwd, path).Some?
    ensures Resolve(s, root, cwd, path).Some?
  {
    var k := LastSlash(path);
    assert k == |path| - 1 && path == path[..k] + [SLASH] + "";
    TokensJoin(path[..k], "");
    assert Tokens("") == [];
    if k == 0 { assert path[..k] == ""; }
    hide Tokens;
    assert Tokens(path) == Tokens(path[..k]);
  }

  /** A file made where the path looks for it is found there. */
  lemma MadeHere(s: Store, root: nat, depth: map<nat, nat>, cwd: nat, path: string, id: nat)
    requires Tree(s, root, depth) && cwd in s && id !in s && path != "" && Resolve(s, root, cwd, path).None?
    requires Creates(s, root, cwd, path, true) && |LastName(path)| <= NAME_MAX && (LastSlash(path) >= 0 || cwd == root)
    ensures var t := Created(s, SaveParent(s, root, cwd, path).value, id, Stored(LastName(path)), false);
      Resolve(t, root, cwd, path) == Some(id)
  {
    if LastName(path) == "" { SlashResolves(s, root, cwd, path); }
    assert ParentOf(s, root, cwd, path) == SaveParent(s, root, cwd, path);
    hide LastSlash; hide LastName; hide Resolve; hide SaveParent; hide ParentOf;
    ParentThenName(s, root, cwd, path);
    MadeResolves(s, root, depth, cwd, path, id, false);
  }

  /** A file made in the root is not found from another working directory. */
  lemma MadeElsewhere(s: Store, root: nat, depth: map<nat, nat>, cwd: nat, path: string, id: nat)
    requires Tree(s, root, depth) && cwd in s && id !in s && path != "" && Resolve(s, root, cwd, path).None?
    requires LastSlash(path) < 0 && cwd != root
    ensures Resolve(Created(s, root, id, Stored(LastName(path)), false), root, cwd, path).None?
  {
    var name := LastName(path);
    var t := Created(s, root, id, Stored(name), false);
    PathEnds(path);
    LastStep(s, cwd, path);
    LastStep(t, cwd, path);
    NodeFacts(s, root, depth, cwd);
    FindInCreated(s, root, id, Stored(name), false, s[cwd].children, name);
    assert t[cwd] == s[cwd];
    hide Tokens; hide Walk; hide FindIn; hide LastSlash; hide LastName;
  }

  /**
   After a successful save the path leads to the bytes saved exactly when it reaches the file; otherwise it leads
   nowhere.
   */
  lemma SavedResolves(s: Store, root: nat, depth: map<nat, nat>, cwd: nat, path: string, bytes: seq<Byte>, id: nat,
          room: bool, memory: bool)
    requires Tree(s, root, depth) && cwd in s && id !in s && Saved(s, root, cwd, path, bytes, id, room, memory).1
    ensures var t := Saved(s, root, cwd, path, bytes, id, room, memory).0;
      var r := Resolve(s, root, cwd, path);
      var n := if r.Some? then r.value else id;
      && n in t && !t[n].dir && t[n].data == bytes
      && Resolve(t, root, cwd, path) == if Reaches(s, root, cwd, path) then Some(n) else None
  {
    var r := Resolve(s, root, cwd, path);
    if r.Some? {
      WrittenIsFound(s, root, cwd, path, bytes);
    } else {
      var t0 := Created(s, SaveParent(s, root, cwd, path).value, id, Stored(LastName(path)), false);
      if path == "" {
      } else if |LastName(path)| > NAME_MAX {
        LongNameLost(t0, root, cwd, path);
      } else if LastSlash(path) >= 0 || cwd == root {
        MadeHere(s, root, depth, cwd, path, id);
      } else {
        MadeElsewhere(s, root, depth, cwd, path, id);
      }
      DataMovesNothing(t0, root, cwd, path, id, bytes);
    }
    hide Resolve; hide LastName; hide LastSlash; hide FindIn;
  }

  lemma DataMovesNothing(s: Store, root: nat, cwd: nat, path: string, n: nat, bytes: seq<Byte>)
    requires n in s
    ensures Resolve(WithData(s, n, bytes), root, cwd, path) == Resolve(s, root, cwd, path)
  {
    if path != "" { WalkIgnoresData(s, n, bytes, if path[0] == SLASH then root else cwd, Tokens(path)); }
  }
}
