/**
 * The zoom state of `TreemapDemo`: the hierarchy it was given (`node`) and
 * the hierarchy it currently lays out (`zoomedNode`), with the effect that
 * re-derives the latter from the `node` search parameter.
 */
module Zoom {
  import opened Wrappers
  import opened Hierarchy
  import Js

  /**
   * `searchParams.get('node')`: absent, or a text together with the number
   * `Number(text)` makes of it. How the text is parsed is not modelled.
   */
  datatype Selection = Absent | Present(text: string, number: Js.Number)

  /** `!searchParams.get('node')`: no parameter, or an empty one. */
  predicate Cleared(s: Selection) {
    s.Absent? || s.text == ""
  }

  class Treemap {
    /** The `node` prop: the whole hierarchy. */
    var tree: Arena
    /** The `zoomedNode` state: the hierarchy handed to the layout. */
    var zoomed: Arena

    ghost predicate Valid()
      reads this
    {
      WellFormed(tree) && WellFormed(zoomed)
    }

    /** `useState(node)`: the first render shows the whole tree. */
    constructor (t: Arena)
      requires WellFormed(t)
      ensures Valid() && tree == t && zoomed == t
    {
      tree := t;
      zoomed := t;
    }

    /**
     * The effect on `[node, searchParams.get('node')]`. A cleared selection
     * zooms out to the whole tree, whatever was shown before; a selection
     * whose number is 0 or NaN, or matches no node's id, changes nothing;
     * otherwise the view becomes a copy of the first node with that id.
     * The tree itself is never changed.
     */
    method Sync(s: Selection)
      requires Valid()
      modifies this`zoomed
      ensures Valid() && tree == old(tree)
      ensures Cleared(s) ==> zoomed == tree
      ensures !Cleared(s) && !Js.Truthy(s.number) ==> zoomed == old(zoomed)
      ensures !Cleared(s) && Js.Truthy(s.number) && FindById(tree, s.number).None? ==> zoomed == old(zoomed)
      ensures !Cleared(s) && Js.Truthy(s.number) && FindById(tree, s.number).Some? ==>
        zoomed == Copy(tree, FindById(tree, s.number).value)
    {
      if Cleared(s) {
        zoomed := tree;
        return;
      }
      var nodeId := s.number;
      if !Js.Truthy(nodeId) {
        return;
      }
      var found := FindById(tree, nodeId);
      if found.None? {
        return;
      }
      CopyWellFormed(tree, found.value);
      zoomed := Copy(tree, found.value);
    }

    /**
     * A new `node` prop. `useState` keeps its state across renders, so the
     * view is not reset here; the next `Sync` decides what is shown.
     */
    method SetTree(t: Arena)
      requires Valid() && WellFormed(t)
      modifies this`tree
      ensures Valid() && tree == t && zoomed == old(zoomed)
    {
      tree := t;
    }
  }

  /**
   * Selecting a node and then clearing the selection shows the whole tree
   * again, not the selected node's parent.
   */
  method ZoomInAndOut(t: Arena, id: int) returns (view: Arena, shown: Arena)
    requires WellFormed(t)
    ensures FindById(t, Js.Finite(id as real)).Some? && id != 0 ==>
      view == Copy(t, FindById(t, Js.Finite(id as real)).value)
    ensures shown == t
  {
    var m := new Treemap(t);
    // The parse of the text is abstract: only its being non-empty matters,
    // so any non-empty text stands for the one `id` was written as.
    m.Sync(Present("selected", Js.Finite(id as real)));
    view := m.zoomed;
    m.Sync(Absent);
    shown := m.zoomed;
  }
}
