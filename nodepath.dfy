/**
 * `nodeToPath`: the slash-joined names on the way from the root of a
 * hierarchy down to a node, found by walking parent links upwards.
 */
module NodePath {
  import opened Wrappers
  import opened Hierarchy

  /** The names of the nodes from the root down to node `i`, root first. */
  function Segments(t: Arena, i: nat): seq<string>
    requires WellFormed(t) && i < |t|
    decreases i
  {
    match t[i].parent
    case None => [t[i].data.name]
    case Some(p) => Segments(t, p) + [t[i].data.name]
  }

  /** The indices of the nodes from the root down to node `i`, root first. */
  function Lineage(t: Arena, i: nat): seq<nat>
    requires WellFormed(t) && i < |t|
    decreases i
  {
    match t[i].parent
    case None => [i]
    case Some(p) => Lineage(t, p) + [i]
  }

  /** `array.reverse()`. */
  function Reversed<T>(s: seq<T>): seq<T> {
    if s == [] then [] else [s[|s| - 1]] + Reversed(s[..|s| - 1])
  }

  /** `array.join(sep)`. */
  function Join(parts: seq<string>, sep: char): string {
    if |parts| == 0 then ""
    else if |parts| == 1 then parts[0]
    else parts[0] + [sep] + Join(parts[1..], sep)
  }

  /**
   * The walk of `nodeToPath`: push the name of the current node, move to its
   * parent until there is none, then reverse the collected names and join
   * them with '/'.
   */
  method NodeToPath(t: Arena, node: nat) returns (path: string)
    requires WellFormed(t) && node < |t|
    ensures path == Join(Segments(t, node), '/')
  {
    var names: seq<string> := [];
    var current: Option<nat> := Some(node);
    while current.Some?
      invariant current.Some? ==> current.value < |t|
      invariant current.Some? ==> Segments(t, node) == Segments(t, current.value) + Reversed(names)
      invariant current.None? ==> Segments(t, node) == Reversed(names)
      decreases if current.Some? then current.value + 1 else 0
    {
      var c := current.value;
      assert Reversed(names + [t[c].data.name]) == [t[c].data.name] + Reversed(names) by {
        assert (names + [t[c].data.name])[..|names|] == names;
      }
      names := names + [t[c].data.name];
      current := t[c].parent;
    }
    path := Join(Reversed(names), '/');
  }

  /**
   * One segment per node on the way from the root, the root included: the
   * path lists the names of exactly the ancestors of `i` (and `i`), each
   * once, from the root down.
   */
  lemma {:induction false} SegmentsFollowLineage(t: Arena, i: nat)
    requires WellFormed(t) && i < |t|
    ensures |Segments(t, i)| == |Lineage(t, i)|
    ensures forall j :: 0 <= j < |Lineage(t, i)| ==> Lineage(t, i)[j] < |t| && Segments(t, i)[j] == t[Lineage(t, i)[j]].data.name
    ensures forall j, j' :: 0 <= j < j' < |Lineage(t, i)| ==> Lineage(t, i)[j] < Lineage(t, i)[j']
    ensures Lineage(t, i)[|Lineage(t, i)| - 1] == i
    ensures forall a: nat :: a in Lineage(t, i) <==> a < |t| && Under(t, a, i)
  {
    match t[i].parent
    case None =>
      assert i == 0;
      forall a: nat | a < |t| && Under(t, a, i)
        ensures a == i
      {
        UnderAfterRoot(t, a, i);
      }
    case Some(p) =>
      SegmentsFollowLineage(t, p);
      var lp := Lineage(t, p);
      assert forall j :: 0 <= j < |lp| ==> lp[j] <= p by {
        forall j | 0 <= j < |lp| ensures lp[j] <= p {
          if j < |lp| - 1 {
            assert lp[j] < lp[|lp| - 1];
          }
        }
      }
      forall a: nat
        ensures a in Lineage(t, i) <==> a < |t| && Under(t, a, i)
      {
        if a < |t| && Under(t, a, i) && a != i {
          assert Under(t, a, p);
        }
      }
  }

  /** The path starts with the root's name and ends with the node's own name. */
  lemma {:induction false} SegmentsEnds(t: Arena, i: nat)
    requires WellFormed(t) && i < |t|
    ensures |Segments(t, i)| >= 1
    ensures Segments(t, i)[0] == t[0].data.name
    ensures Segments(t, i)[|Segments(t, i)| - 1] == t[i].data.name
    ensures t[i].parent == None <==> |Segments(t, i)| == 1
  {
    match t[i].parent
    case None =>
      assert i == 0;
    case Some(p) =>
      SegmentsEnds(t, p);
  }

  /** The path of the root is the root's name alone. */
  lemma PathOfRoot(t: Arena)
    requires WellFormed(t)
    ensures Join(Segments(t, 0), '/') == t[0].data.name
  {
  }

  /** A chain a -> b -> c: the path of the grandchild is "a/b/c". */
  lemma PathOfChain(t: Arena)
    requires t == [
      Node(Datum(1, "a", None, false), None),
      Node(Datum(2, "b", None, false), Some(0)),
      Node(Datum(3, "c", None, false), Some(1))
    ]
    ensures WellFormed(t) && Join(Segments(t, 2), '/') == "a/b/c"
  {
    assert Segments(t, 2) == ["a", "b", "c"];
    assert ["a", "b", "c"][1..] == ["b", "c"] && ["b", "c"][1..] == ["c"];
    assert Join(["b", "c"], '/') == "b/c";
  }

  /**
   * After zooming into node `k`, the paths shown are relative to `k`: the
   * path of a node in `Copy(t, k)` starts at `k`'s name, and putting the
   * path of `k`'s parent in front gives back the node's full path.
   */
  lemma {:induction false} PathsAfterZoom(t: Arena, k: nat, i: nat)
    requires WellFormed(t) && k < |t| && i < |t| && Under(t, k, i)
    ensures WellFormed(Copy(t, k)) && Rank(t, k, i) < |Copy(t, k)|
    ensures Segments(t, i) == Segments(t, k)[..|Segments(t, k)| - 1] + Segments(Copy(t, k), Rank(t, k, i))
  {
    CopyWellFormed(t, k);
    CopyPrefixAt(t, k, |t|);
    SegmentsEnds(t, k);
    var c := Copy(t, k);
    var sk := Segments(t, k);
    if i == k {
      RankOfRoot(t, k);
      assert sk == sk[..|sk| - 1] + [t[k].data.name];
    } else {
      var p := t[i].parent.value;
      RankBelow(t, k, p, i);
      PathsAfterZoom(t, k, p);
      assert c[Rank(t, k, i)] == Relink(t, k, i);
      assert Segments(c, Rank(t, k, i)) == Segments(c, Rank(t, k, p)) + [t[i].data.name];
    }
  }
}
