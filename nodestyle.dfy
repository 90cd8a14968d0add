/**
 * What `MapNode` derives for one rectangle: its background from the layer
 * colour scales, a text colour readable on that background, a border colour
 * from the parent's background, and whether the rectangle and its label are
 * drawn at all.
 *
 * The colour scales (`scaleOrdinal` over the sampled palettes) and colord's
 * `isLight()` are library code; they are parameters here.
 */
module NodeStyle {
  import opened Wrappers
  import opened Hierarchy
  import Visibility

  type Colour = string

  /** `white` in the widget. */
  const White: Colour := "#fff"
  /** `black` in the widget, a dark grey. */
  const Black: Colour := "#444"
  const Transparent: Colour := "transparent"

  /** The two ordinal scales from layer index to colour: live nodes and deleted nodes. */
  datatype Scales = Scales(live: int -> Colour, deleted: int -> Colour)

  /** `node.data.layer || 0`. */
  function LayerOrZero(layer: Option<int>): int {
    match layer
    case None => 0
    case Some(k) => k
  }

  /** `getBg(node)`: transparent without a node, else the deleted or live scale at the node's layer. */
  function Background(node: Option<Datum>, scales: Scales): Colour {
    match node
    case None => Transparent
    case Some(d) =>
      if d.deleted then scales.deleted(LayerOrZero(d.layer)) else scales.live(LayerOrZero(d.layer))
  }

  /** `textColor`: dark text on a light background, white text otherwise. */
  function TextColour(background: Colour, isLight: Colour -> bool): Colour {
    if isLight(background) then Black else White
  }

  /**
   * `borderColor`: dark when the parent's background is light; otherwise
   * white when the text is white; otherwise no border colour at all.
   */
  function BorderColour(parentBackground: Colour, textColour: Colour, isLight: Colour -> bool): Option<Colour> {
    if isLight(parentBackground) then Some(Black)
    else if textColour == White then Some(White)
    else None
  }

  /** The data of node `i`'s parent (`node.parent`), absent for the root. */
  function ParentDatum(t: Arena, i: nat): Option<Datum>
    requires WellFormed(t) && i < |t|
  {
    match t[i].parent
    case None => None
    case Some(p) => Some(t[p].data)
  }

  datatype Style = Style(background: Colour, text: Colour, border: Option<Colour>)

  /** The colours `MapNode` gives node `i` of the laid-out hierarchy `t`. */
  function StyleOf(t: Arena, i: nat, scales: Scales, isLight: Colour -> bool): Style
    requires WellFormed(t) && i < |t|
  {
    var bg := Background(Some(t[i].data), scales);
    var text := TextColour(bg, isLight);
    Style(bg, text, BorderColour(Background(ParentDatum(t, i), scales), text, isLight))
  }

  /** What `MapNode` returns: nothing, or a box in some style, with its name as label or without text. */
  datatype Rendered = Nothing | Box(style: Style, caption: Option<string>)

  /** `MapNode` for node `i` of `t` laid out in `rect`. */
  function RenderNode(t: Arena, i: nat, rect: Visibility.Rect, scales: Scales, isLight: Colour -> bool): (r: Rendered)
    requires WellFormed(t) && i < |t|
    ensures r.Box? <==> Visibility.NodeDrawn(Visibility.Width(rect), Visibility.Height(rect))
    ensures r.Box? ==> r.style == StyleOf(t, i, scales, isLight)
    ensures r.Box? ==> (r.caption.Some? <==> Visibility.LabelShown(Visibility.Width(rect), Visibility.Height(rect)))
    ensures r.Box? && r.caption.Some? ==> r.caption.value == t[i].data.name
  {
    var w, h := Visibility.Width(rect), Visibility.Height(rect);
    if !Visibility.NodeDrawn(w, h) then Nothing
    else Box(StyleOf(t, i, scales, isLight), if Visibility.LabelShown(w, h) then Some(t[i].data.name) else None)
  }

  /** A node without a layer is coloured exactly like the same node on layer 0. */
  lemma MissingLayerIsLayerZero(d: Datum, scales: Scales)
    requires d.layer == None
    ensures Background(Some(d), scales) == Background(Some(d.(layer := Some(0))), scales)
  {
  }

  /**
   * The background depends only on the deleted flag and the layer (0 when
   * missing): nodes that agree on those share their background whatever
   * their id and name.
   */
  lemma BackgroundDependsOnFlagAndLayer(d1: Datum, d2: Datum, scales: Scales)
    requires d1.deleted == d2.deleted && LayerOrZero(d1.layer) == LayerOrZero(d2.layer)
    ensures Background(Some(d1), scales) == Background(Some(d2), scales)
  {
  }

  /** A node's background is a colour of the scale its deleted flag selects; a missing node is transparent. */
  lemma BackgroundFromScale(node: Option<Datum>, scales: Scales)
    ensures node.None? ==> Background(node, scales) == Transparent
    ensures node.Some? && node.value.deleted ==> exists k :: Background(node, scales) == scales.deleted(k)
    ensures node.Some? && !node.value.deleted ==> exists k :: Background(node, scales) == scales.live(k)
  {
    if node.Some? {
      var k := LayerOrZero(node.value.layer);
      if node.value.deleted {
        assert Background(node, scales) == scales.deleted(k);
      } else {
        assert Background(node, scales) == scales.live(k);
      }
    }
  }

  /** The text is one of the two neutrals, and the dark one exactly on light backgrounds. */
  lemma TextContrast(background: Colour, isLight: Colour -> bool)
    ensures TextColour(background, isLight) == Black <==> isLight(background)
    ensures TextColour(background, isLight) == White <==> !isLight(background)
  {
  }

  /**
   * The border in terms of the two backgrounds: dark under a light parent,
   * else white when the node's own background is dark, else unset.
   */
  lemma BorderFromBackgrounds(t: Arena, i: nat, scales: Scales, isLight: Colour -> bool)
    requires WellFormed(t) && i < |t|
    ensures var parentBg := Background(ParentDatum(t, i), scales);
            var bg := Background(Some(t[i].data), scales);
            StyleOf(t, i, scales, isLight).border ==
              if isLight(parentBg) then Some(Black) else if !isLight(bg) then Some(White) else None
  {
  }

  /**
   * The border is left unset exactly when a light node sits in a dark
   * parent; whenever the parent is dark and a border is set, it is the
   * node's own text colour.
   */
  lemma BorderUnsetExactly(t: Arena, i: nat, scales: Scales, isLight: Colour -> bool)
    requires WellFormed(t) && i < |t|
    ensures var st := StyleOf(t, i, scales, isLight);
            var parentBg := Background(ParentDatum(t, i), scales);
            && (st.border.None? <==> !isLight(parentBg) && isLight(st.background))
            && (!isLight(parentBg) && st.border.Some? ==> st.border.value == st.text)
  {
  }

  /** The root of the drawn hierarchy (the zoom root) has no parent: its border is judged against `transparent`. */
  lemma RootBorderAgainstTransparent(t: Arena, scales: Scales, isLight: Colour -> bool)
    requires WellFormed(t)
    ensures StyleOf(t, 0, scales, isLight).border ==
      BorderColour(Transparent, StyleOf(t, 0, scales, isLight).text, isLight)
  {
  }

  /** `layers.find((l, i) => i === node.data.layer)`, from index `from` on. */
  function FindLayer<L>(layers: seq<L>, layer: Option<int>, from: nat): (r: Option<L>)
    requires from <= |layers|
    ensures r.Some? <==> layer.Some? && from <= layer.value < |layers|
    ensures r.Some? ==> r.value == layers[layer.value]
    decreases |layers| - from
  {
    if from == |layers| then None
    else if layer == Some(from as int) then Some(layers[from])
    else FindLayer(layers, layer, from + 1)
  }

  /** The layer named in a node's tooltip. */
  function TooltipLayer<L>(layers: seq<L>, layer: Option<int>): Option<L> {
    FindLayer(layers, layer, 0)
  }

  /**
   * The tooltip does not default the layer to 0: a node without a layer is
   * coloured as layer 0 but its tooltip names no layer, while a node on
   * layer 0 names the first one.
   */
  lemma UnlayeredTooltip<L>(layers: seq<L>, d: Datum, scales: Scales)
    requires d.layer == None && |layers| > 0
    ensures Background(Some(d), scales) == Background(Some(d.(layer := Some(0))), scales)
    ensures TooltipLayer(layers, d.layer) == None
    ensures TooltipLayer(layers, Some(0)) == Some(layers[0])
  {
  }
}
