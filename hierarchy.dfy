/**
 * The d3 hierarchy the widget draws, stored as an arena.
 *
 * Nodes are listed in the order `descendants()` yields them: the root
 * first, and every other node after its parent. A node's `parent` is the
 * index of its parent in the arena (d3's `parent` back-reference), and the
 * root has none. `data` is the user record d3 wraps (`node.data`).
 */
module Hierarchy {
  import opened Wrappers
  import Js

  /** The record behind a node: `node.data.id`, `.name`, `.layer`, `.deleted`. */
  datatype Datum = Datum(id: int, name: string, layer: Option<int>, deleted: bool)

  datatype Node = Node(data: Datum, parent: Option<nat>)

  type Arena = seq<Node>

  /** A non-empty arena whose root comes first and whose other nodes follow their parents. */
  predicate WellFormed(t: Arena) {
    && |t| > 0
    && t[0].parent == None
    && forall i :: 0 < i < |t| ==> t[i].parent.Some? && t[i].parent.value < i
  }

  /** Node `i` lies in the subtree rooted at node `k` (`i` is `k` or one of its descendants). */
  predicate Under(t: Arena, k: nat, i: nat)
    requires WellFormed(t) && i < |t|
    decreases i
  {
    i == k || (i > 0 && Under(t, k, t[i].parent.value))
  }

  /** A subtree's root comes no later than any node of the subtree. */
  lemma {:induction false} UnderAfterRoot(t: Arena, k: nat, i: nat)
    requires WellFormed(t) && i < |t| && Under(t, k, i)
    ensures k <= i
  {
    if i != k {
      UnderAfterRoot(t, k, t[i].parent.value);
    }
  }

  /** Every node lies in the subtree of the root. */
  lemma {:induction false} UnderRoot(t: Arena, i: nat)
    requires WellFormed(t) && i < |t|
    ensures Under(t, 0, i)
  {
    if i > 0 {
      UnderRoot(t, t[i].parent.value);
    }
  }

  /** `n.data.id === id`. */
  predicate HasId(n: Node, id: Js.Number) {
    Js.StrictEquals(id, n.data.id)
  }

  /**
   * `descendants().find(n => n.data.id === id)`: the index of the first
   * node, in `descendants()` order, whose id is `id`.
   */
  function FindById(t: Arena, id: Js.Number): (r: Option<nat>)
    ensures r.Some? ==> r.value < |t| && HasId(t[r.value], id)
    ensures r.Some? ==> forall j :: 0 <= j < r.value ==> !HasId(t[j], id)
    ensures r.None? <==> forall j :: 0 <= j < |t| ==> !HasId(t[j], id)
  {
    FindFrom(t, id, 0)
  }

  /** The search of `FindById`, from index `from` on. */
  function FindFrom(t: Arena, id: Js.Number, from: nat): (r: Option<nat>)
    requires from <= |t|
    ensures r.Some? ==> from <= r.value < |t| && HasId(t[r.value], id)
    ensures r.Some? ==> forall j :: from <= j < r.value ==> !HasId(t[j], id)
    ensures r.None? ==> forall j :: from <= j < |t| ==> !HasId(t[j], id)
    decreases |t| - from
  {
    if from == |t| then None
    else if HasId(t[from], id) then Some(from)
    else FindFrom(t, id, from + 1)
  }

  /** How many nodes of the subtree rooted at `k` come before index `n`. */
  function Rank(t: Arena, k: nat, n: nat): nat
    requires WellFormed(t) && n <= |t|
  {
    if n == 0 then 0 else Rank(t, k, n - 1) + (if Under(t, k, n - 1) then 1 else 0)
  }

  lemma {:induction false} RankMonotonic(t: Arena, k: nat, i: nat, j: nat)
    requires WellFormed(t) && i <= j <= |t|
    ensures Rank(t, k, i) <= Rank(t, k, j)
  {
    if i < j {
      RankMonotonic(t, k, i, j - 1);
    }
  }

  /** A subtree node placed before index `j` has a smaller rank than `j`. */
  lemma RankBelow(t: Arena, k: nat, i: nat, j: nat)
    requires WellFormed(t) && i < j <= |t| && Under(t, k, i)
    ensures Rank(t, k, i) < Rank(t, k, j)
  {
    RankMonotonic(t, k, i + 1, j);
  }

  /** Nothing of the subtree comes before its root. */
  lemma RankOfRoot(t: Arena, k: nat)
    requires WellFormed(t) && k < |t|
    ensures Rank(t, k, k) == 0
  {
    var n := 0;
    while n < k
      invariant n <= k && Rank(t, k, n) == 0
    {
      if Under(t, k, n) {
        UnderAfterRoot(t, k, n);
      }
      n := n + 1;
    }
  }

  /** Node `i` of the subtree rooted at `k`, as `copy()` recreates it: the root loses its parent, the others point at their parent's new place. */
  function Relink(t: Arena, k: nat, i: nat): Node
    requires WellFormed(t) && i < |t| && Under(t, k, i)
  {
    if i == k then t[i].(parent := None)
    else t[i].(parent := Some(Rank(t, k, t[i].parent.value)))
  }

  /** The copies of the subtree nodes among the first `n` nodes, in arena order. */
  function CopyPrefix(t: Arena, k: nat, n: nat): Arena
    requires WellFormed(t) && n <= |t|
  {
    if n == 0 then []
    else CopyPrefix(t, k, n - 1) + (if Under(t, k, n - 1) then [Relink(t, k, n - 1)] else [])
  }

  /**
   * `node.copy()`: a fresh hierarchy holding node `k` as its root and all of
   * `k`'s descendants, in their original order, sharing their `data`.
   */
  function Copy(t: Arena, k: nat): Arena
    requires WellFormed(t) && k < |t|
  {
    CopyPrefix(t, k, |t|)
  }

  /** The copy of subtree node `i` sits at position `Rank(t, k, i)`. */
  lemma {:induction false} CopyPrefixAt(t: Arena, k: nat, n: nat)
    requires WellFormed(t) && n <= |t|
    ensures |CopyPrefix(t, k, n)| == Rank(t, k, n)
    ensures forall i :: 0 <= i < n && Under(t, k, i) ==>
      Rank(t, k, i) < |CopyPrefix(t, k, n)| && CopyPrefix(t, k, n)[Rank(t, k, i)] == Relink(t, k, i)
  {
    if n > 0 {
      CopyPrefixAt(t, k, n - 1);
      forall i | 0 <= i < n && Under(t, k, i)
        ensures Rank(t, k, i) < |CopyPrefix(t, k, n)| && CopyPrefix(t, k, n)[Rank(t, k, i)] == Relink(t, k, i)
      {
        RankBelow(t, k, i, n);
        if i < n - 1 {
          RankBelow(t, k, i, n - 1);
        }
      }
    }
  }

  /** Position `j` of `CopyPrefix(t, k, n)` holds the copy of the subtree node of rank `j`. */
  ghost predicate CopiedFrom(t: Arena, k: nat, n: nat, j: nat)
    requires WellFormed(t) && n <= |t|
  {
    exists i :: 0 <= i < n && Under(t, k, i) && Rank(t, k, i) == j &&
      j < |CopyPrefix(t, k, n)| && CopyPrefix(t, k, n)[j] == Relink(t, k, i)
  }

  /** Every position of the copy holds the copy of some subtree node. */
  lemma {:induction false} CopyPrefixFrom(t: Arena, k: nat, n: nat)
    requires WellFormed(t) && n <= |t|
    ensures forall j :: 0 <= j < |CopyPrefix(t, k, n)| ==> CopiedFrom(t, k, n, j)
  {
    if n > 0 {
      CopyPrefixFrom(t, k, n - 1);
      CopyPrefixAt(t, k, n - 1);
      var prev := CopyPrefix(t, k, n - 1);
      forall j | 0 <= j < |CopyPrefix(t, k, n)|
        ensures CopiedFrom(t, k, n, j)
      {
        if j < |prev| {
          assert CopiedFrom(t, k, n - 1, j);
          var i :| 0 <= i < n - 1 && Under(t, k, i) && Rank(t, k, i) == j && prev[j] == Relink(t, k, i);
          assert CopyPrefix(t, k, n)[j] == prev[j];
        } else {
          assert Under(t, k, n - 1) && Rank(t, k, n - 1) == j && CopyPrefix(t, k, n)[j] == Relink(t, k, n - 1);
        }
      }
    }
  }

  /** The copy is a well-formed hierarchy of its own; its root is node `k` without a parent. */
  lemma CopyWellFormed(t: Arena, k: nat)
    requires WellFormed(t) && k < |t|
    ensures WellFormed(Copy(t, k))
    ensures Copy(t, k)[0] == t[k].(parent := None)
  {
    var c := Copy(t, k);
    CopyPrefixAt(t, k, |t|);
    CopyPrefixFrom(t, k, |t|);
    RankOfRoot(t, k);
    RankBelow(t, k, k, |t|);
    assert c[0] == Relink(t, k, k);
    forall j | 0 < j < |c|
      ensures c[j].parent.Some? && c[j].parent.value < j
    {
      assert CopiedFrom(t, k, |t|, j);
      var i :| 0 <= i < |t| && Under(t, k, i) && Rank(t, k, i) == j && c[j] == Relink(t, k, i);
      assert i != k;
      RankBelow(t, k, t[i].parent.value, i);
    }
  }

  /**
   * The copy holds exactly the subtree of `k`: each subtree node's data at its
   * rank, and nothing that is not the data of a subtree node.
   */
  lemma CopyContents(t: Arena, k: nat)
    requires WellFormed(t) && k < |t|
    ensures |Copy(t, k)| == Rank(t, k, |t|)
    ensures forall i :: 0 <= i < |t| && Under(t, k, i) ==>
      Rank(t, k, i) < |Copy(t, k)| && Copy(t, k)[Rank(t, k, i)].data == t[i].data
    ensures forall j :: 0 <= j < |Copy(t, k)| ==> CopiedFrom(t, k, |t|, j)
  {
    CopyPrefixAt(t, k, |t|);
    CopyPrefixFrom(t, k, |t|);
  }

  /** Copying from the root reproduces the whole tree. */
  lemma CopyOfRoot(t: Arena)
    requires WellFormed(t)
    ensures Copy(t, 0) == t
  {
    CopyPrefixAt(t, 0, |t|);
    RankIdentity(t, |t|);
    forall i | 0 <= i < |t|
      ensures Copy(t, 0)[i] == t[i]
    {
      UnderRoot(t, i);
      if i > 0 {
        RankIdentity(t, t[i].parent.value);
      }
      RankIdentity(t, i);
    }
  }

  /** With the root as subtree root, every rank is the node's own index. */
  lemma {:induction false} RankIdentity(t: Arena, n: nat)
    requires WellFormed(t) && n <= |t|
    ensures Rank(t, 0, n) == n
  {
    if n > 0 {
      RankIdentity(t, n - 1);
      UnderRoot(t, n - 1);
    }
  }
}
