/**
 The file tree as a store of nodes with parent and child links, and what creating and deleting a node does to it.

 A node is known by a number, the place it was allocated at.  A directory's child list has the newest child first.
 */
module FsTree {
  import opened Basics
  import opened FileData

  datatype Node = Node(name: string, dir: bool, data: seq<Byte>, parent: Option<nat>, children: seq<nat>)

  type Store = map<nat, Node>

  const NAME_MAX: nat := 255

  // ---------------------------------------------------------------- the shape of the tree

  /** The links of one node: its children point back to it, and it is in its parent's list. */
  ghost predicate Linked(s: Store, n: nat)
    requires n in s
  {
    && Distinct(s[n].children)
    && (forall c :: c in s[n].children ==> c in s && s[c].parent == Some(n))
    && (s[n].parent.Some? ==> s[n].parent.value in s && n in s[s[n].parent.value].children)
    && (s[n].dir || s[n].children == [])
  }

  /** One level below its parent. */
  ghost predicate Placed(s: Store, depth: map<nat, nat>, n: nat)
    requires n in s && depth.Keys == s.Keys
  {
    s[n].parent.Some? && s[n].parent.value in s && depth[n] == depth[s[n].parent.value] + 1
  }

  /** Every node but the root has a parent one level up, and the root is the directory with none. */
  ghost predicate Ranked(s: Store, root: nat, depth: map<nat, nat>) {
    && root in s && s[root].dir && s[root].parent.None? && depth.Keys == s.Keys && depth[root] == 0
    && forall n {:trigger Placed(s, depth, n)} :: n in s && n != root ==> Placed(s, depth, n)
  }

  /**
   A rooted tree: each node but the root is in exactly one list, its parent's, once; parents lead to the root; files
   have no children.
   */
  ghost predicate Tree(s: Store, root: nat, depth: map<nat, nat>) {
    Ranked(s, root, depth) && forall n {:trigger Linked(s, n)} :: n in s ==> Linked(s, n)
  }

  ghost predicate NamesApart(s: Store, list: seq<nat>) {
    forall c, d :: c in list && d in list && c in s && d in s && s[c].name == s[d].name ==> c == d
  }

  ghost predicate NamesDistinct(s: Store) {
    forall p :: p in s ==> NamesApart(s, s[p].children)
  }

  /** The node k levels up. */
  function Ancestor(s: Store, n: nat, k: nat): nat
    decreases k
  {
    if k == 0 || n !in s || s[n].parent.None? then n else Ancestor(s, s[n].parent.value, k - 1)
  }

  /** From every node the parent links lead to the root. */
  lemma {:induction false} ReachesRoot(s: Store, root: nat, depth: map<nat, nat>, n: nat)
    requires Ranked(s, root, depth) && n in s
    ensures n in depth && Ancestor(s, n, depth[n]) == root
    decreases depth[n]
  {
    assert n in depth.Keys;
    if n != root {
      assert Placed(s, depth, n);
      ReachesRoot(s, root, depth, s[n].parent.value);
    }
  }

  /** A node is in one child list only, and once. */
  lemma OneList(s: Store, root: nat, depth: map<nat, nat>, n: nat, p: nat, q: nat, i: nat, j: nat)
    requires Tree(s, root, depth) && p in s && q in s
    requires i < |s[p].children| && j < |s[q].children| && s[p].children[i] == n && s[q].children[j] == n
    ensures p == q && i == j && n in s && n != root && s[n].parent == Some(p)
  {
    assert Linked(s, p) && Linked(s, q);
    assert s[p].children[i] in s[p].children && s[q].children[j] in s[q].children;
  }

  // ---------------------------------------------------------------- looking a name up

  /** The first node of a child list with the name. */
  function FindIn(s: Store, list: seq<nat>, name: string): (r: Option<nat>)
    ensures r.Some? ==> r.value in list && r.value in s && s[r.value].name == name
    ensures r.None? ==> forall c :: c in list && c in s ==> s[c].name != name
  {
    if list == [] then None
    else if list[0] in s && s[list[0]].name == name then Some(list[0])
    else FindIn(s, list[1..], name)
  }

  lemma {:induction false} FindInAt(s: Store, list: seq<nat>, name: string, k: nat)
    requires k < |list| && list[k] in s && s[list[k]].name == name
    requires forall i :: 0 <= i < k ==> list[i] in s && s[list[i]].name != name
    ensures FindIn(s, list, name) == Some(list[k])
  {
    if k > 0 { FindInAt(s, list[1..], name, k - 1); }
  }

  /** A child is found by its own name. */
  lemma FoundByName(s: Store, p: nat, c: nat)
    requires p in s && c in s && c in s[p].children && NamesDistinct(s)
    ensures FindIn(s, s[p].children, s[c].name) == Some(c)
  {
    assert NamesApart(s, s[p].children);
  }

  // ---------------------------------------------------------------- creating and deleting

  function Created(s: Store, parent: nat, id: nat, name: string, dir: bool): Store
    requires parent in s
  {
    s[id := Node(name, dir, [], Some(parent), [])][parent := s[parent].(children := [id] + s[parent].children)]
  }

  lemma CreatedLinked(s: Store, parent: nat, id: nat, name: string, dir: bool, n: nat)
    requires (forall m :: m in s ==> Linked(s, m)) && parent in s && s[parent].dir && id !in s
    requires n in Created(s, parent, id, name, dir)
    ensures Linked(Created(s, parent, id, name, dir), n)
  {
    var t := Created(s, parent, id, name, dir);
    assert id in t[parent].children;
    if n != id {
      assert Linked(s, n);
      assert forall c :: c in s[n].children ==> c in s && c != id;
      if n == parent { assert forall i :: 0 < i < |t[n].children| ==> t[n].children[i] == s[n].children[i - 1]; }
    }
  }

  lemma CreatedRanked(s: Store, root: nat, depth: map<nat, nat>, parent: nat, id: nat, name: string, dir: bool)
    requires Ranked(s, root, depth) && parent in s && id !in s
    ensures parent in depth && Ranked(Created(s, parent, id, name, dir), root, depth[id := depth[parent] + 1])
  {
    assert parent in depth.Keys;
    var t, e := Created(s, parent, id, name, dir), depth[id := depth[parent] + 1];
    forall n | n in t && n != root
      ensures e.Keys == t.Keys && Placed(t, e, n)
    {
      if n != id { assert n in s && Placed(s, depth, n); }
    }
  }

  lemma CreatedTree(s: Store, root: nat, depth: map<nat, nat>, parent: nat, id: nat, name: string, dir: bool)
    requires Tree(s, root, depth) && parent in s && s[parent].dir && id !in s
    ensures parent in depth && Tree(Created(s, parent, id, name, dir), root, depth[id := depth[parent] + 1])
  {
    CreatedRanked(s, root, depth, parent, id, name, dir);
    hide Ranked; hide Linked;
    forall n | n in Created(s, parent, id, name, dir) ensures Linked(Created(s, parent, id, name, dir), n) {
      CreatedLinked(s, parent, id, name, dir, n);
    }
  }

  /** Sibling names stay distinct exactly when the stored name was not taken. */
  lemma CreatedNames(s: Store, root: nat, depth: map<nat, nat>, parent: nat, id: nat, name: string, dir: bool)
    requires Tree(s, root, depth) && NamesDistinct(s) && parent in s && id !in s
    ensures NamesDistinct(Created(s, parent, id, name, dir)) <==> FindIn(s, s[parent].children, name).None?
  {
    var found := FindIn(s, s[parent].children, name);
    if found.Some? {
      CreatedClash(s, root, depth, parent, id, name, dir, found.value);
    } else {
      CreatedApart(s, root, depth, parent, id, name, dir);
    }
  }

  lemma CreatedClash(s: Store, root: nat, depth: map<nat, nat>, parent: nat, id: nat, name: string, dir: bool, c: nat)
    requires Tree(s, root, depth) && parent in s && id !in s
    requires c in s[parent].children && c in s && s[c].name == name
    ensures !NamesDistinct(Created(s, parent, id, name, dir))
  {
    var t := Created(s, parent, id, name, dir);
    hide Tree;
    assert id in t[parent].children && t[id].name == name;
    assert c in t[parent].children && c in t && t[c].name == name && c != id;
    assert !NamesApart(t, t[parent].children);
  }

  lemma CreatedKids(s: Store, parent: nat, id: nat, name: string, dir: bool)
    requires (forall m :: m in s ==> Linked(s, m)) && parent in s && id !in s
    ensures var t := Created(s, parent, id, name, dir);
      && id in t && t[id].name == name
      && (forall n, c :: n in t && c in t[n].children ==>
         (n == parent && c == id) || (n in s && c in s[n].children && c in s && c != id))
      && (forall c :: c in s ==> c in t && t[c].name == s[c].name)
  {
    var t := Created(s, parent, id, name, dir);
    hide Distinct;
    forall n, c | n in t && c in t[n].children
      ensures (n == parent && c == id) || (n in s && c in s[n].children && c in s && c != id)
    {
      if n in s { assert Linked(s, n); }
    }
  }

  lemma CreatedApart(s: Store, root: nat, depth: map<nat, nat>, parent: nat, id: nat, name: string, dir: bool)
    requires Tree(s, root, depth) && NamesDistinct(s) && parent in s && id !in s
    requires forall c :: c in s[parent].children && c in s ==> s[c].name != name
    ensures NamesDistinct(Created(s, parent, id, name, dir))
  {
    var t := Created(s, parent, id, name, dir);
    CreatedKids(s, parent, id, name, dir);
    hide Created; hide Linked; hide Ranked;
    forall p | p in t ensures NamesApart(t, t[p].children) {
      if p in s { assert NamesApart(s, s[p].children); }
    }
  }

  function Deleted(s: Store, n: nat): Store
    requires n in s && s[n].parent.Some? && s[n].parent.value in s
  {
    var p := s[n].parent.value;
    s[p := s[p].(children := Removed(s[p].children, n))] - {n}
  }

  /** Unlinking a node and then giving it up. */
  lemma DeletedInSteps(s: Store, n: nat)
    requires n in s && s[n].parent.Some? && s[n].parent.value in s && s[n].parent.value != n
    ensures var p := s[n].parent.value;
      s[p := s[p].(children := Removed(s[p].children, n))][n := s[n].(parent := None)] - {n} == Deleted(s, n)
  {
  }

  lemma DeletedLinked(s: Store, n: nat, m: nat)
    requires (forall x :: x in s ==> Linked(s, x)) && n in s && s[n].parent.Some? && s[n].parent.value in s &&
        s[n].children == []
    requires m in s && m != n
    ensures s[n].parent.value != n && Linked(Deleted(s, n), m)
  {
    var p := s[n].parent.value;
    assert Linked(s, p) && Linked(s, n) && Linked(s, m);
    RemovedFacts(s[p].children, n);
    hide Removed; hide Distinct;
    if m != p { assert n !in s[m].children; }
  }

  lemma DeletedRanked(s: Store, root: nat, depth: map<nat, nat>, n: nat)
    requires Tree(s, root, depth) && n in s && n != root && s[n].children == []
    ensures s[n].parent.Some? && s[n].parent.value in s && Ranked(Deleted(s, n), root, depth - {n})
  {
    assert Placed(s, depth, n);
    var t := Deleted(s, n);
    hide Removed; hide Distinct;
    assert n in depth.Keys && root in depth.Keys && t.Keys == s.Keys - {n} && (depth - {n}).Keys == depth.Keys - {n};
    assert Linked(s, n);
    forall m | m in t && m != root ensures Placed(t, depth - {n}, m) {
      assert Placed(s, depth, m) && Linked(s, m);
      assert m in s[s[m].parent.value].children;
    }
    hide Linked;
  }

  lemma DeletedNames(s: Store, n: nat)
    requires NamesDistinct(s) && n in s && s[n].parent.Some? && s[n].parent.value in s &&
        Distinct(s[s[n].parent.value].children)
    ensures NamesDistinct(Deleted(s, n))
  {
    var t := Deleted(s, n);
    RemovedFacts(s[s[n].parent.value].children, n);
    hide Removed; hide Distinct;
    assert forall m, c :: m in t && c in t[m].children ==> m in s && c in s[m].children;
    assert forall m :: m in t ==> m in s && t[m].name == s[m].name;
    hide Deleted;
    forall p | p in t ensures NamesApart(t, t[p].children) { assert NamesApart(s, s[p].children); }
  }

  /** Deleting a node with no children leaves a tree, with distinct sibling names if they were. */
  lemma DeletedTree(s: Store, root: nat, depth: map<nat, nat>, n: nat)
    requires Tree(s, root, depth) && n in s && n != root && s[n].children == []
    ensures s[n].parent.Some? && s[n].parent.value in s && s[n].parent.value != n
    ensures Tree(Deleted(s, n), root, depth - {n})
    ensures NamesDistinct(s) ==> NamesDistinct(Deleted(s, n))
  {
    DeletedRanked(s, root, depth, n);
    assert Linked(s, s[n].parent.value);
    assert forall m :: m in Deleted(s, n) ==> m in s && m != n;
    if NamesDistinct(s) { DeletedNames(s, n); }
    DeletedLinked(s, n, root);
    hide Ranked; hide Linked; hide NamesDistinct; hide Deleted;
    forall m | m in Deleted(s, n) ensures Linked(Deleted(s, n), m) { DeletedLinked(s, n, m); }
  }

  /** Deleting a node just created gives the old tree back. */
  lemma DeleteUndoesCreate(s: Store, parent: nat, id: nat, name: string, dir: bool)
    requires parent in s && id !in s
    ensures id in Created(s, parent, id, name, dir) && Deleted(Created(s, parent, id, name, dir), id) == s
  {
    var t := Created(s, parent, id, name, dir);
    assert t[parent].children[1..] == s[parent].children;
    assert Deleted(t, id)[parent] == s[parent];
    assert Deleted(t, id).Keys == s.Keys;
  }

  // ---------------------------------------------------------------- a file's bytes

  function WithData(s: Store, n: nat, bytes: seq<Byte>): Store
    requires n in s
  {
    s[n := s[n].(data := bytes)]
  }

  lemma WithDataSame(s: Store, n: nat, bytes: seq<Byte>, m: nat)
    requires n in s && m in s
    ensures var t := WithData(s, n, bytes);
      && m in t && t[m].children == s[m].children && t[m].parent == s[m].parent && t[m].name == s[m].name &&
         t[m].dir == s[m].dir
  {
  }

  lemma WithDataLinked(s: Store, n: nat, bytes: seq<Byte>, m: nat)
    requires n in s && m in s && Linked(s, m)
    ensures m in WithData(s, n, bytes) && Linked(WithData(s, n, bytes), m)
  {
    var t := WithData(s, n, bytes);
    hide Distinct;
    WithDataSame(s, n, bytes, m);
    forall c | c in s[m].children ensures c in t && t[c].parent == Some(m) { WithDataSame(s, n, bytes, c); }
    if s[m].parent.Some? { WithDataSame(s, n, bytes, s[m].parent.value); }
  }

  lemma WithDataRanked(s: Store, root: nat, depth: map<nat, nat>, n: nat, bytes: seq<Byte>)
    requires n in s && Ranked(s, root, depth)
    ensures Ranked(WithData(s, n, bytes), root, depth)
  {
    var t := WithData(s, n, bytes);
    assert t.Keys == s.Keys;
    forall m | m in t && m != root
      ensures Placed(t, depth, m)
    {
      assert Placed(s, depth, m);
      WithDataSame(s, n, bytes, m);
    }
  }

  /** Giving a node other bytes changes no link and no name. */
  lemma WithDataTree(s: Store, root: nat, depth: map<nat, nat>, n: nat, bytes: seq<Byte>)
    requires Tree(s, root, depth) && n in s
    ensures Tree(WithData(s, n, bytes), root, depth)
    ensures NamesDistinct(s) ==> NamesDistinct(WithData(s, n, bytes))
  {
    var t := WithData(s, n, bytes);
    WithDataRanked(s, root, depth, n, bytes);
    hide Linked; hide Ranked;
    forall m | m in t ensures Linked(t, m) { WithDataLinked(s, n, bytes, m); }
    if NamesDistinct(s) {
      forall p | p in t ensures NamesApart(t, t[p].children) {
        assert NamesApart(s, s[p].children);
        forall c, d | c in t[p].children && d in t[p].children && c in t && d in t && t[c].name == t[d].name
            ensures c == d {
          WithDataSame(s, n, bytes, c);
          WithDataSame(s, n, bytes, d);
        }
      }
    }
  }

  /** What the tree says of one node. */
  lemma NodeFacts(s: Store, root: nat, depth: map<nat, nat>, n: nat)
    requires Tree(s, root, depth) && n in s
    ensures s[n].dir || s[n].children == []
    ensures forall c :: c in s[n].children ==> c in s
    ensures n != root ==>
      s[n].parent.Some? && s[n].parent.value in s && n in s[s[n].parent.value].children && s[n].parent.value != n
  {
    assert Linked(s, n);
    assert n in depth.Keys;
    if n != root { assert Placed(s, depth, n); }
  }
}
