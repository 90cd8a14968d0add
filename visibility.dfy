/**
 * The size guards of the widget: when the whole treemap renders nothing,
 * when one rectangle is not drawn, and when a rectangle carries its label.
 * The rectangles themselves come from d3's layout and are inputs here.
 */
module Visibility {
  import Js

  /** Smallest width and height of a drawn rectangle (`min` in `MapNode`). */
  const MinSize: real := 2.0

  /** A laid-out rectangle: d3's `x0, y0, x1, y1`. */
  datatype Rect = Rect(x0: Js.Number, y0: Js.Number, x1: Js.Number, y1: Js.Number)

  /** `node.x1 - node.x0`. */
  function Width(r: Rect): Js.Number {
    Js.Sub(r.x1, r.x0)
  }

  /** `node.y1 - node.y0`. */
  function Height(r: Rect): Js.Number {
    Js.Sub(r.y1, r.y0)
  }

  /**
   * `TreemapDemo` draws anything at all: neither `!width || !height` nor
   * `width < 10` holds. A negative (but non-zero) height gets through.
   */
  function WidgetRenders(width: Js.Number, height: Js.Number): (r: bool)
    ensures r <==> width.Finite? && width.value >= 10.0 && height.Finite? && height.value != 0.0
  {
    !(!Js.Truthy(width) || !Js.Truthy(height)) && !Js.Less(width, 10.0)
  }

  /** `MapNode` draws its rectangle: not `!w || !h || w < min || h < min`. */
  function NodeDrawn(w: Js.Number, h: Js.Number): (r: bool)
    ensures r <==> w.Finite? && h.Finite? && w.value >= MinSize && h.value >= MinSize
  {
    !(!Js.Truthy(w) || !Js.Truthy(h) || Js.Less(w, MinSize) || Js.Less(h, MinSize))
  }

  /** `showText`: the rectangle is wider than 40 and taller than 14. */
  function LabelShown(w: Js.Number, h: Js.Number): (r: bool)
    ensures r <==> w.Finite? && h.Finite? && w.value > 40.0 && h.value > 14.0
  {
    Js.Greater(w, 40.0) && Js.Greater(h, 14.0)
  }

  /** A label only ever appears inside a rectangle that is drawn. */
  lemma LabelOnlyWhenDrawn(w: Js.Number, h: Js.Number)
    ensures LabelShown(w, h) ==> NodeDrawn(w, h)
  {
  }

  /** The boundary cases: width 39 never gets a label, 41 by 15 does, height 1 is not drawn. */
  lemma ThresholdExamples(h: Js.Number, w: Js.Number)
    ensures !LabelShown(Js.Finite(39.0), h)
    ensures LabelShown(Js.Finite(41.0), Js.Finite(15.0))
    ensures !NodeDrawn(w, Js.Finite(1.0))
    ensures !WidgetRenders(Js.Finite(9.0), h) && !WidgetRenders(w, Js.Finite(0.0))
  {
  }
}
