/**
 What several parts share: optional values, 32-bit words, and lists of numbers.
 */
module Basics {

  datatype Option<+T> = None | Some(value: T)

  const WORD: nat := 0x1_0000_0000

  type Word = w: nat | w < WORD

  const NULL: nat := 0

  // ---------------------------------------------------------------- lists without repetition

  ghost predicate Distinct(q: seq<nat>) {
    forall i, j :: 0 <= i < j < |q| ==> q[i] != q[j]
  }

  /** The list without the first occurrence of t. */
  function Removed(q: seq<nat>, t: nat): seq<nat> {
    if q == [] then [] else if q[0] == t then q[1..] else [q[0]] + Removed(q[1..], t)
  }

  lemma {:induction false} RemovedAt(q: seq<nat>, t: nat, k: nat)
    requires k <= |q| && (forall i :: 0 <= i < k ==> q[i] != t) && (k < |q| ==> q[k] == t)
    ensures Removed(q, t) == if k < |q| then q[..k] + q[k + 1..] else q
  {
    if k > 0 {
      RemovedAt(q[1..], t, k - 1);
      if k < |q| { assert [q[0]] + (q[1..][..k - 1] + q[1..][k..]) == q[..k] + q[k + 1..]; }
    }
  }

  lemma {:induction false} RemovedFacts(q: seq<nat>, t: nat)
    requires Distinct(q)
    ensures Distinct(Removed(q, t)) && (forall x :: x in Removed(q, t) <==> x in q && x != t)
  {
    if q != [] {
      RemovedFacts(q[1..], t);
      var r := Removed(q[1..], t);
      assert forall x :: x in q <==> x == q[0] || x in q[1..];
      if q[0] != t {
        forall j | 0 <= j < |r| ensures r[j] != q[0] { assert r[j] in q[1..]; }
      } else {
        assert forall j :: 0 <= j < |q[1..]| ==> q[1..][j] != q[0];
      }
    }
  }

  lemma RemovedAbsent(q: seq<nat>, t: nat)
    ensures t !in q ==> Removed(q, t) == q
  {
    if t !in q { RemovedAt(q, t, |q|); }
  }
}
