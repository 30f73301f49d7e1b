/**
 The RAM filesystem in place, with the shell commands that walk and change it.

 An allocation is a parameter: the number of the new node, or whether there was memory.  Strings are C strings
 without their terminator.  Messages are left out; a command returns what it would report.
 */
module RamFs {
  import opened Basics
  import opened FileData
  import opened FsTree
  import opened Paths
  import opened Saves

  /** What the allocator can hand out at most. */
  const ARENA: nat := 0x40_0000

  const CHUNK: nat := 256

  datatype MakeResult = Usage | TooLong | NoParent | NotDirectory | MissingName | Made | Exists | Failed

  /** An open file: the node, what the flags allow, and where the next read or write starts. */
  class OpenFile {
    const node: nat
    const canRead: bool
    const canWrite: bool
    var position: nat

    constructor (n: nat, read: bool, write: bool, start: nat)
      ensures node == n && canRead == read && canWrite == write && position == start
    {
      node, canRead, canWrite, position := n, read, write, start;
    }
  }

  class FileSystem {
    var nodes: Store
    const root: nat
    var cwd: nat
    ghost var depth: map<nat, nat>

    ghost predicate Valid()
      reads this
    {
      Tree(nodes, root, depth) && cwd in nodes && nodes[cwd].dir
    }

    constructor (rootId: nat)
      ensures Valid() && root == rootId && cwd == root && NamesDistinct(nodes)
      ensures nodes == map[rootId := Node("/", true, [], None, [])]
    {
      root, cwd := rootId, rootId;
      nodes := map[rootId := Node("/", true, [], None, [])];
      depth := map[rootId := 0];
    }

    // -------------------------------------------------------------- nodes

    method FindChild(dir: nat, name: string) returns (r: Option<nat>)
      requires Valid() && dir in nodes
      ensures r == if nodes[dir].dir then FindIn(nodes, nodes[dir].children, name) else None
    {
      hide Tree;
      if !nodes[dir].dir { return None; }
      var list := nodes[dir].children;
      NodeFacts(nodes, root, depth, dir);
      var i := 0;
      while i < |list|
        invariant i <= |list| && (forall j :: 0 <= j < i ==> nodes[list[j]].name != name)
      {
        if nodes[list[i]].name == name {
          FindInAt(nodes, list, name, i);
          return Some(list[i]);
        }
        i := i + 1;
      }
      return None;
    }

    /**
     A new node at the front of its parent's list, unless the parent is no directory, the name is taken, or there is
     no memory.
     */
    method Create(parent: Option<nat>, name: string, dir: bool, id: nat, memory: bool) returns (r: int)
      requires Valid() && (parent.Some? ==> parent.value in nodes) && id !in nodes
      modifies this
      ensures Valid() && cwd == old(cwd)
      ensures r == -1 <==> parent.None? || !old(nodes[parent.value].dir)
      ensures r == -2 <==> r != -1 && FindIn(old(nodes), old(nodes[parent.value].children), name).Some?
      ensures r == -3 <==> r !in {-1, -2} && !memory
      ensures r == 0 <==> r !in {-1, -2, -3}
      ensures r != 0 ==> nodes == old(nodes)
      ensures r == 0 ==> nodes == Created(old(nodes), parent.value, id, Stored(name), dir)
      ensures r == 0 && old(NamesDistinct(nodes)) ==>
        (NamesDistinct(nodes) <==>
          |name| <= NAME_MAX || FindIn(old(nodes), old(nodes[parent.value].children), Stored(name)).None?)
    {
      hide Tree; hide NamesDistinct; hide FindIn;
      if parent.None? || !nodes[parent.value].dir { return -1; }
      var found := FindChild(parent.value, name);
      if found.Some? { return -2; }
      if !memory { return -3; }
      ghost var before := nodes;
      CreatedTree(nodes, root, depth, parent.value, id, Stored(name), dir);
      if NamesDistinct(nodes) { CreatedNames(nodes, root, depth, parent.value, id, Stored(name), dir); }
      depth := depth[id := depth[parent.value] + 1];
      nodes := nodes[id := Node(Stored(name), dir, [], None, [])];
      AddChild(parent.value, id);
      assert nodes == Created(before, parent.value, id, Stored(name), dir);
      assert cwd in nodes && nodes[cwd].dir;
      return 0;
    }

    method AddChild(parent: nat, child: nat)
      requires parent in nodes && child in nodes && parent != child
      modifies `nodes
      ensures nodes == old(nodes)[child := old(nodes[child]).(parent := Some(parent))]
                                 [parent := old(nodes[parent]).(children := [child] + old(nodes[parent]).children)]
    {
      nodes := nodes[child := nodes[child].(parent := Some(parent))];
      nodes := nodes[parent := nodes[parent].(children := [child] + nodes[parent].children)];
    }

    method RemoveChild(child: nat)
      requires child in nodes && nodes[child].parent.Some? && nodes[child].parent.value in nodes
      requires child in nodes[nodes[child].parent.value].children && nodes[child].parent.value != child
      modifies `nodes
      ensures var p := old(nodes[child].parent.value);
        nodes == old(nodes)[p := old(nodes[p]).(children := Removed(old(nodes[p]).children, child))]
                           [child := old(nodes[child]).(parent := None)]
    {
      var p := nodes[child].parent.value;
      var list := nodes[p].children;
      var k := 0;
      while list[k] != child
        invariant k < |list| && (forall i :: 0 <= i < k ==> list[i] != child)
        decreases |list| - k
      {
        k := k + 1;
      }
      RemovedAt(list, child, k);
      nodes := nodes[p := nodes[p].(children := list[..k] + list[k + 1..])];
      nodes := nodes[child := nodes[child].(parent := None)];
    }

    /**
     Deletes a file or an empty directory.  Nothing keeps the working directory: deleting it leaves the shell
     without one.
     */
    method Delete(node: Option<nat>) returns (r: int)
      requires Valid() && (node.Some? ==> node.value in nodes)
      modifies this
      ensures Tree(nodes, root, depth) && cwd == old(cwd)
      ensures Valid() <==> r != 0 || node != Some(cwd)
      ensures r == -1 <==> node.None? || node.value == root
      ensures r == -2 <==> r != -1 && old(nodes[node.value].children) != []
      ensures r == 0 <==> r !in {-1, -2}
      ensures r != 0 ==> nodes == old(nodes)
      ensures r == 0 ==> old(nodes[node.value].parent.Some? && nodes[node.value].parent.value in nodes)
      ensures r == 0 ==> nodes == Deleted(old(nodes), node.value)
      ensures old(NamesDistinct(nodes)) ==> NamesDistinct(nodes)
    {
      if node.None? || node.value == root { return -1; }
      var n := node.value;
      hide Tree; hide NamesDistinct;
      NodeFacts(nodes, root, depth, n);
      if nodes[n].dir {
        if nodes[n].children != [] { return -2; }
      }
      Discard(n);
      return 0;
    }

    /** Takes a childless node out of its parent's list and gives it up. */
    method Discard(n: nat)
      requires Valid() && n in nodes && n != root && nodes[n].children == []
      modifies this
      ensures old(nodes[n].parent.Some? && nodes[n].parent.value in nodes)
      ensures Tree(nodes, root, depth) && cwd == old(cwd) && nodes == Deleted(old(nodes), n)
      ensures Valid() <==> n != cwd
      ensures old(NamesDistinct(nodes)) ==> NamesDistinct(nodes)
    {
      hide Tree; hide NamesDistinct;
      NodeFacts(nodes, root, depth, n);
      DeletedTree(nodes, root, depth, n);
      DeletedInSteps(nodes, n);
      assert cwd != n ==> cwd in Deleted(nodes, n) && Deleted(nodes, n)[cwd].dir;
      assert n !in Deleted(nodes, n);
      hide Deleted; hide Removed;
      depth := depth - {n};
      RemoveChild(n);
      nodes := nodes - {n};
    }

    // -------------------------------------------------------------- paths

    method SkipSlashes(path: string, from: nat) returns (p: nat)
      requires from <= |path|
      ensures from <= p <= |path| && (p < |path| ==> path[p] != SLASH) && Tokens(path[p..]) == Tokens(path[from..])
    {
      p := from;
      while p < |path| && path[p] == SLASH
        invariant from <= p <= |path| && Tokens(path[p..]) == Tokens(path[from..])
      {
        assert path[p..][1..] == path[p + 1..];
        p := p + 1;
      }
    }

    method ComponentEnd(path: string, from: nat) returns (end: nat)
      requires from < |path| && path[from] != SLASH
      ensures from < end <= |path| && (end < |path| ==> path[end] == SLASH)
      ensures Tokens(path[from..]) == [path[from..end]] + Tokens(path[end..])
    {
      end := from;
      while end < |path| && path[end] != SLASH
        invariant from <= end <= |path| && forall i :: from <= i < end ==> path[i] != SLASH
      {
        end := end + 1;
      }
      var rest := path[from..];
      TokenEndIs(rest, end - from);
      assert rest[..end - from] == path[from..end] && rest[end - from..] == path[end..];
    }

    /** One component of the walk. */
    method Enter(current: nat, token: string) returns (r: Option<nat>)
      requires Valid() && current in nodes && |token| <= NAME_MAX
      ensures r == Walk1(nodes, current, token) && (r.Some? ==> r.value in nodes)
    {
      Walk1Stays(nodes, root, depth, current, token);
      if token == "." {
        return Some(current);
      } else if token == ".." {
        if nodes[current].parent.Some? { return nodes[current].parent; }
        return Some(current);
      } else {
        r := FindChild(current, token);
      }
    }

    method ResolvePath(path: string) returns (r: Option<nat>)
      requires Valid()
      ensures r == Resolve(nodes, root, cwd, path) && (r.Some? ==> r.value in nodes)
    {
      if path == "" { return None; }
      var current := if path[0] == SLASH then root else cwd;
      ghost var origin := current;
      assert path[0..] == path;
      hide Tokens; hide Tree; hide Walk1;
      var p := SkipSlashes(path, 0);
      if p == |path| {
        NoTokens(path[p..]);
        return Some(current);
      }
      while p < |path|
        invariant p <= |path| && (p < |path| ==> path[p] != SLASH) && current in nodes
        invariant Walk(nodes, current, Tokens(path[p..])) == Walk(nodes, origin, Tokens(path))
      {
        var end := ComponentEnd(path, p);
        var token := path[p..end];
        WalkFirst(nodes, current, token, Tokens(path[end..]));
        if |token| > NAME_MAX { return None; }
        var next := Enter(current, token);
        if next.None? { return None; }
        current := next.value;
        p := end;
        if p < |path| { p := SkipSlashes(path, p); }
      }
      NoTokens(path[p..]);
      return Some(current);
    }

    method FindLastSlash(path: string) returns (k: int)
      ensures k == LastSlash(path)
    {
      k := |path| - 1;
      assert path[..|path|] == path;
      while k >= 0 && path[k] != SLASH
        invariant -1 <= k < |path| && LastSlash(path[..k + 1]) == LastSlash(path)
      {
        assert path[..k + 1][..k] == path[..k];
        k := k - 1;
      }
    }

    /** The directory part and the last name of a path, as mkdir and touch split it. */
    method SplitPath(args: string) returns (tooLong: bool, parent: Option<nat>, name: string)
      requires Valid() && args != ""
      ensures tooLong <==> LastSlash(args) >= PATH_BUFFER
      ensures parent == ParentOf(nodes, root, cwd, args) && name == LastName(args)
      ensures parent.Some? ==> !tooLong && parent.value in nodes
    {
      var slash := FindLastSlash(args);
      name := args[slash + 1..];
      if slash >= PATH_BUFFER { return true, None, name; }
      tooLong, parent := false, Some(cwd);
      if slash == 0 {
        parent := Some(root);
      } else if slash > 0 {
        parent := ResolvePath(args[..slash]);
      }
      ParentOfStays(nodes, root, depth, cwd, args);
    }

    /**
     mkdir, with dir, and touch, without: a new node where the path says, or the reason why not.  Exists is no error
     for touch.  The new node is then where the path leads, exactly when its name fits and is not "." or "..".
     */
    method Make(args: string, dir: bool, id: nat, memory: bool) returns (r: MakeResult)
      requires Valid() && id !in nodes
      modifies this
      ensures Valid() && cwd == old(cwd)
      ensures r == Made <==>
        && args != "" && LastName(args) != "" && memory
        && ParentOf(old(nodes), root, cwd, args).Some?
        && var p := ParentOf(old(nodes), root, cwd, args).value;
          p in old(nodes) && old(nodes)[p].dir && FindIn(old(nodes), old(nodes)[p].children, LastName(args)).None?
      ensures r == Usage <==> args == ""
      ensures r == TooLong <==> LastSlash(args) >= PATH_BUFFER
      ensures r == NoParent <==> LastSlash(args) < PATH_BUFFER && ParentOf(old(nodes), root, cwd, args).None?
      ensures ParentOf(old(nodes), root, cwd, args).Some? && args != "" ==>
        var p := ParentOf(old(nodes), root, cwd, args).value;
        && p in old(nodes)
        && (r == NotDirectory <==> !old(nodes)[p].dir)
        && (r == MissingName <==> old(nodes)[p].dir && LastName(args) == "")
        && (r == Exists <==>
          old(nodes)[p].dir && LastName(args) != "" && FindIn(old(nodes), old(nodes)[p].children, LastName(args)).Some?)
      ensures r != Made ==> nodes == old(nodes)
      ensures r == Made ==>
        && nodes == Created(old(nodes), ParentOf(old(nodes), root, cwd, args).value, id, Stored(LastName(args)), dir)
        && (Resolve(nodes, root, cwd, args) == Some(id) <==> Addressable(LastName(args)))
      ensures r == Made && old(NamesDistinct(nodes)) && |LastName(args)| <= NAME_MAX ==> NamesDistinct(nodes)
    {
      if args == "" { return Usage; }
      hide ParentOf; hide LastName; hide LastSlash; hide Resolve; hide Addressable; hide NamesDistinct; hide Tree;
      var tooLong, parent, name := SplitPath(args);
      ghost var before := nodes;
      if tooLong { return TooLong; }
      if parent.None? { return NoParent; }
      if !nodes[parent.value].dir { return NotDirectory; }
      if name == "" { return MissingName; }
      if FindIn(before, before[parent.value].children, name).None? {
        MadeResolves(before, root, depth, cwd, args, id, dir);
      }
      hide FindIn; hide Created; hide Stored;
      var result := Create(parent, name, dir, id, memory);
      r := if result == 0 then Made else if result == -2 then Exists else Failed;
    }

    /** cd: the root for no argument or "/", otherwise where the path leads, when that is a directory. */
    method ChangeDir(args: string) returns (ok: bool)
      requires Valid()
      modifies `cwd
      ensures Valid()
      ensures var target := if args == "" || args == "/" then Option<nat>.Some(root)
          else Resolve(nodes, root, old(cwd), args);
        && (ok <==> target.Some? && target.value in nodes && nodes[target.value].dir)
        && cwd == if ok then target.value else old(cwd)
    {
      NodeFacts(nodes, root, depth, root);
      hide Resolve; hide Tree;
      var target := Some(root);
      if args != "" && args != "/" { target := ResolvePath(args); }
      if target.None? { return false; }
      if !nodes[target.value].dir { return false; }
      cwd := target.value;
      return true;
    }

    // -------------------------------------------------------------- bytes

    method Open(node: Option<nat>, read: bool, write: bool, append: bool, memory: bool) returns (f: OpenFile?)
      requires Valid() && (node.Some? ==> node.value in nodes)
      ensures f != null <==> node.Some? && !nodes[node.value].dir && memory
      ensures f != null ==> fresh(f) && f.node == node.value && f.canRead == read && f.canWrite == write
      ensures f != null ==> f.position == if append then |nodes[node.value].data| else 0
    {
      if node.None? || nodes[node.value].dir { return null; }
      if !memory { return null; }
      f := new OpenFile(node.value, read, write, if append then |nodes[node.value].data| else 0);
    }

    method Read(f: OpenFile, size: nat) returns (n: int, bytes: seq<Byte>)
      requires f.node in nodes && f.position + size < WORD
      modifies f
      ensures n == -1 <==> !f.canRead || nodes[f.node].dir
      ensures n != -1 ==> bytes == ReadAt(nodes[f.node].data, old(f.position), size) && n == |bytes|
      ensures f.position == old(f.position) + if n > 0 then n else 0
    {
      bytes := [];
      if !f.canRead || nodes[f.node].dir { return -1, []; }
      var data := nodes[f.node].data;
      if f.position >= |data| { return 0, []; }
      var count := size;
      if f.position + size > |data| { count := |data| - f.position; }
      if count == 0 { return 0, []; }
      bytes := data[f.position..f.position + count];
      n := count;
      f.position := f.position + n;
    }

    /** Writing through a handle; growing the file needs memory for all of it. */
    method Write(f: OpenFile, bytes: seq<Byte>, memory: bool) returns (n: int)
      requires Valid() && f.node in nodes && f.position + |bytes| < WORD
      requires memory && f.position + |bytes| > |nodes[f.node].data| ==> f.position + |bytes| <= ARENA
      modifies this, f
      ensures Valid() && cwd == old(cwd)
      ensures n == -1 <==> !f.canWrite || old(nodes[f.node].dir) ||
                           (old(f.position) + |bytes| > |old(nodes[f.node].data)| && !memory)
      ensures n == -1 ==> nodes == old(nodes) && f.position == old(f.position)
      ensures n != -1 ==>
        && n == |bytes| && f.position == old(f.position) + |bytes|
        && nodes == WithData(old(nodes), f.node, WriteAt(old(nodes[f.node].data), old(f.position), bytes))
      ensures old(NamesDistinct(nodes)) ==> NamesDistinct(nodes)
    {
      hide Tree; hide NamesDistinct;
      if !f.canWrite || nodes[f.node].dir { return -1; }
      var data := nodes[f.node].data;
      WithDataTree(nodes, root, depth, f.node, WriteAt(data, f.position, bytes));
      var end := f.position + |bytes|;
      if end > |data| {
        if !memory { return -1; }
        data := data + Zeros(end - |data|);
      }
      data := data[..f.position] + bytes + data[end..];
      assert data == WriteAt(nodes[f.node].data, f.position, bytes);
      nodes := nodes[f.node := nodes[f.node].(data := data)];
      n := |bytes|;
      f.position := f.position + n;
    }

    /** cat: what is put out is the file. */
    method Cat(args: string, memory: bool) returns (ok: bool, output: seq<Byte>)
      requires Valid() && forall n :: n in nodes ==> |nodes[n].data| + CHUNK < WORD
      ensures var target := Resolve(nodes, root, cwd, args);
        && (ok <==> args != "" && target.Some? && target.value in nodes && !nodes[target.value].dir && memory)
        && output == if ok then nodes[target.value].data else []
    {
      ok, output := false, [];
      if args == "" { return; }
      hide Resolve; hide Tree; hide ReadAt;
      var node := ResolvePath(args);
      if node.None? { return; }
      if nodes[node.value].dir { return; }
      var f := Open(node, true, false, false, memory);
      if f == null { return; }
      output := CopyOut(f);
      ok := true;
    }

    /** Reads a chunk at a time until a read delivers nothing. */
    method CopyOut(f: OpenFile) returns (output: seq<Byte>)
      requires f.node in nodes && !nodes[f.node].dir && f.canRead && f.position == 0 &&
          |nodes[f.node].data| + CHUNK < WORD
      modifies f
      ensures output == nodes[f.node].data
    {
      hide ReadAt;
      ghost var data := nodes[f.node].data;
      output := [];
      ReadAtStays(data, 0, CHUNK);
      var n, bytes := Read(f, CHUNK);
      while n > 0
        invariant f.position <= |data| && output + bytes == data[..f.position]
        invariant n == |bytes| && (n == 0 ==> f.position == |data|)
        decreases |data| - |output|
      {
        output := output + bytes;
        ReadAtStays(data, f.position, CHUNK);
        n, bytes := Read(f, CHUNK);
      }
    }

    // -------------------------------------------------------------- whole files, as the editor reads and writes them

    method ReadWhole(path: string, memory: bool) returns (ok: bool, bytes: seq<Byte>)
      requires Valid()
      ensures var target := Resolve(nodes, root, cwd, path);
        && (ok <==> target.Some? && target.value in nodes && !nodes[target.value].dir && memory)
        && bytes == if ok then nodes[target.value].data else []
    {
      hide Resolve; hide Tree;
      var node := ResolvePath(path);
      if node.None? || nodes[node.value].dir || !memory { return false, []; }
      return true, nodes[node.value].data;
    }

    /** The file a save makes when its path leads nowhere. */
    method CreateMissing(path: string, id: nat, room: bool) returns (node: Option<nat>)
      requires Valid() && id !in nodes
      modifies this
      ensures Valid() && cwd == old(cwd)
      ensures node == if Creates(old(nodes), root, cwd, path, room) then Some(id) else None
      ensures node.None? ==> nodes == old(nodes)
      ensures node.Some? ==>
        nodes == Created(old(nodes), SaveParent(old(nodes), root, cwd, path).value, id, Stored(LastName(path)), false)
      ensures old(NamesDistinct(nodes)) ==> NamesDistinct(nodes)
    {
      hide Tree; hide NamesDistinct; hide Resolve; hide LastSlash;
      var slash := FindLastSlash(path);
      var parent := Some(root);
      RootStays(nodes, root, depth);
      if slash > 0 {
        if |path| >= PATH_BUFFER { return None; }
        parent := ResolvePath(path[..slash]);
      }
      var name := Stored(path[slash + 1..]);
      if parent.None? || !nodes[parent.value].dir { return None; }
      ghost var before := nodes;
      var result := Create(parent, name, false, id, room);
      if result != 0 { return None; }
      FirstChild(before, parent.value, id, name);
      node := FindChild(parent.value, name);
    }

    /** A file's bytes are given up first: without memory for the new ones it is left empty. */
    method Replace(n: nat, bytes: seq<Byte>, memory: bool) returns (ok: bool)
      requires Valid() && n in nodes
      modifies this
      ensures Valid() && cwd == old(cwd)
      ensures (nodes, ok) == Replaced(old(nodes), n, bytes, memory)
      ensures old(NamesDistinct(nodes)) ==> NamesDistinct(nodes)
    {
      hide Tree; hide NamesDistinct;
      if nodes[n].dir { return false; }
      WithDataTree(nodes, root, depth, n, []);
      WithDataTree(nodes, root, depth, n, bytes);
      ghost var before := nodes;
      nodes := nodes[n := nodes[n].(data := [])];
      if |bytes| > 0 {
        if !memory { return false; }
        nodes := nodes[n := nodes[n].(data := bytes)];
        assert nodes == WithData(before, n, bytes);
      }
      return true;
    }

    /**
     Replacing a file, or making it: room and memory tell whether there is memory for a new node and for the bytes.
     */
    method WriteWhole(path: string, bytes: seq<Byte>, id: nat, room: bool, memory: bool) returns (ok: bool)
      requires Valid() && id !in nodes
      modifies this
      ensures Valid() && cwd == old(cwd)
      ensures (nodes, ok) == Saved(old(nodes), root, cwd, path, bytes, id, room, memory)
      ensures old(NamesDistinct(nodes)) ==> NamesDistinct(nodes)
    {
      hide Resolve; hide Tree; hide NamesDistinct; hide Creates; hide Replaced; hide LastName; hide SaveParent;
      hide Created;
      var node := ResolvePath(path);
      if node.None? {
        if Creates(nodes, root, cwd, path, room) { CreatedHas(nodes, root, cwd, path, id, room); }
        node := CreateMissing(path, id, room);
        if node.None? { return false; }
      }
      ok := Replace(node.value, bytes, memory);
    }
  }

  lemma RootStays(s: Store, root: nat, depth: map<nat, nat>)
    requires Tree(s, root, depth)
    ensures root in s
  {
  }

  /** A new node is the first its parent's list is searched for. */
  lemma FirstChild(s: Store, parent: nat, id: nat, name: string)
    requires parent in s && id !in s
    ensures var t := Created(s, parent, id, name, false);
      t[parent].dir == s[parent].dir && FindIn(t, t[parent].children, name) == Some(id)
  {
    var t := Created(s, parent, id, name, false);
    FindInAt(t, t[parent].children, name, 0);
  }

  lemma CreatedHas(s: Store, root: nat, cwd: nat, path: string, id: nat, room: bool)
    requires Creates(s, root, cwd, path, room) && id !in s
    ensures id in Created(s, SaveParent(s, root, cwd, path).value, id, Stored(LastName(path)), false)
  {
  }

  lemma NoTokens(path: string)
    requires path == ""
    ensures Tokens(path) == []
  {
  }

  lemma WalkFirst(s: Store, n: nat, token: string, rest: seq<string>)
    ensures Walk(s, n, [token] + rest) == var m := Walk1(s, n, token); if m.None? then None else Walk(s, m.value, rest)
  {
    hide Walk1;
    assert ([token] + rest)[1..] == rest;
  }
}
