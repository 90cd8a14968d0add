# Treemap widget of docker-phobia, modelled in Dafny

The website of docker-phobia draws the layers of a container image as an
interactive treemap (`website/src/lib/visx.tsx`). The rectangle layout
comes from d3. Around that layout call the widget keeps a few exact rules,
and this project models and proves them:

- **Zoom** (`TreemapDemo`'s effect). The `node` search parameter chooses
  which subtree is laid out. A cleared parameter shows the whole tree. A
  parameter whose number is 0 or NaN, or matches no node, changes nothing.
  Otherwise the view becomes `copy()` of the first node with that id.
  Files: `zoom.dfy` (class `Treemap`), `hierarchy.dfy` (lookup and copy).
- **Palette sampling**. The live colour range keeps every `step`-th entry
  of `scheme`, where `step = ceil(P / L)` for `P` live colours and `L`
  layers. The deleted range filters `schemeRed` with that same step, which
  is computed from `scheme`'s length, not from `schemeRed`'s. File:
  `palette.dfy`.
- **Colours of a rectangle** (`MapNode`). The background comes from the
  live or deleted scale at the node's layer. The text is dark or white
  depending on the background. The border has three cases and is judged
  against the parent's background. File: `nodestyle.dfy`.
- **Size guards**. The whole widget can render nothing. A rectangle
  smaller than 2 is not drawn, and a label needs more than 40 by 14.
  File: `visibility.dfy`.
- **`nodeToPath`**. It walks parent links and joins the names with `/`.
  File: `nodepath.dfy`.

A hierarchy is an arena (`Hierarchy.Arena`). Nodes are listed in
`descendants()` order, and each node stores its parent's index, with the
root first. d3-hierarchy's `descendants()` is breadth-first. The model
relies only on each parent coming before its children, so "the first
matching descendant" is the match with the lowest index. `copy()` is
modelled as a concrete new arena (`Hierarchy.Copy`). It holds the
selected node, with no parent, and all its descendants in their old
order, with parent indices renumbered.

Library pieces are parameters. These are the two ordinal colour scales,
colord's `isLight()` and the text-to-number parse of the search parameter.
JavaScript numbers are `Js.Number` (NaN or a finite real), so every guard
handles NaN as the source does. Arithmetic on them is exact (see "Left
out" for the rounding this drops). `undefined` acts like NaN in every test
the widget makes.

In four places the code behaves differently from what one might expect;
the model follows the code:

- A new tree does not reset the zoom by itself. `useState(node)` keeps its
  state. The effect resets the view only when the parameter is cleared; a
  still-valid id re-copies from the new tree, and anything else keeps the
  old view (`Treemap.SetTree`, then `Treemap.Sync`).
- Any truthy number is accepted as a selection, not just positive
  integers. Negative ids can match.
- The widget also renders with a negative, non-zero height. Only a zero
  or NaN height stops it (`Visibility.WidgetRenders`).
- The tooltip looks up the node's layer without defaulting it to 0, while
  the background does default it (`NodeStyle.UnlayeredTooltip`).

## Model

| member | source | states |
|---|---|---|
| `Hierarchy.FindById` | website/src/lib/visx.tsx:75 | the result is the lowest index whose id strictly equals the number; no index is returned exactly when no node matches (NaN matches nothing) |
| `Hierarchy.FindFrom` | website/src/lib/visx.tsx:75 | the same search from a given index: it returns the first match at or after that index, or none if no node from there on matches |
| `Hierarchy.CopyWellFormed` | website/src/lib/visx.tsx:79 | `copy()` of a node is a well-formed hierarchy of its own, and its root is that node's data with no parent |
| `Hierarchy.CopyContents` | website/src/lib/visx.tsx:79 | the copy holds exactly the subtree: one entry per descendant (the node included) at its rank with the same data, and every entry comes from a descendant |
| `Hierarchy.CopyOfRoot` | website/src/lib/visx.tsx:79 | copying from the root gives back the whole tree |
| `NodePath.NodeToPath` | website/src/lib/visx.tsx:272-280 | the parent-link walk with push, reverse and join returns the root-first names joined by '/' |
| `NodePath.SegmentsFollowLineage` | website/src/lib/visx.tsx:272-280 | the path has one segment per ancestor, root and node included, each once, in root-to-node order; the listed indices are exactly the nodes whose subtree contains the node |
| `NodePath.SegmentsEnds` | website/src/lib/visx.tsx:272-280 | the first segment is the root's name and the last is the node's own; the path has a single segment exactly for a node without a parent |
| `NodePath.PathOfRoot` | website/src/lib/visx.tsx:272-280 | the path of the root is the root's name |
| `NodePath.PathOfChain` | website/src/lib/visx.tsx:272-280 | for the chain a → b → c the grandchild's path is "a/b/c" |
| `NodePath.PathsAfterZoom` | website/src/lib/visx.tsx:241 | after zooming into a node, tooltip paths start at that node: the full path is the path of the zoom root's parent followed by the path within the copy |
| `Zoom.Treemap.constructor` | website/src/lib/visx.tsx:57 | the first render lays out the whole tree |
| `Zoom.Treemap.Sync` | website/src/lib/visx.tsx:66-80 | a cleared parameter shows the whole tree whatever was shown before; a 0 or NaN number, or an id matching no node, leaves the view unchanged; otherwise the view is the copy of the first matching node; the tree is not changed |
| `Zoom.Treemap.SetTree` | website/src/lib/visx.tsx:57 | a new tree prop does not change the view until the effect runs |
| `Zoom.ZoomInAndOut` | website/src/lib/visx.tsx:66-80 | selecting a matching non-zero id shows its copy, and clearing the selection then shows the whole tree again |
| `Palette.SampleStride` | website/src/lib/visx.tsx:93-111 | with at least one layer and a non-empty live palette, a range holds the entries of its palette at multiples of `step = ceil(P/L)`, in palette order, and has `ceil(len/step)` entries, `len` being the filtered palette's length (`P` for the live range) |
| `Palette.SampleAtMostLayers` | website/src/lib/visx.tsx:93-111 | with at least one layer, a range filtered from a palette no longer than the live one never has more colours than there are layers |
| `Palette.SampleWholePalette` | website/src/lib/visx.tsx:93-111 | with a non-empty live palette and at least as many layers as live colours the step is 1, so the filtered palette (live or deleted) is kept whole |
| `Palette.LiveWholePalette` | website/src/lib/visx.tsx:93-101 | with at least as many layers as live colours the live range is the whole live palette, so it has `min(P, L)` entries |
| `Palette.SampleNoLayers` | website/src/lib/visx.tsx:93-111 | with no layers (`step` is Infinity) only the first entry is kept, and nothing when the live palette is empty (`step` is NaN) |
| `Palette.SampleEmptyScheme` | website/src/lib/visx.tsx:93-111 | with an empty live palette (`step` is 0 or NaN) both ranges are empty |
| `Palette.SampleDistinct` | website/src/lib/visx.tsx:101-111 | distinct palette colours stay distinct in the range |
| `Palette.SampleFallsShort` | website/src/lib/visx.tsx:93-101 | nine live colours for four layers give a stride of 3 and only three colours |
| `Palette.DeletedRangeUsesLiveStep` | website/src/lib/visx.tsx:93-111 | the deleted range takes its step from the live palette: 12 live colours, 6 deleted colours and 4 layers keep deleted entries 0 and 3 only |
| `Palette.SpreadSample` | website/src/lib/visx.tsx:99-101 | the evenly spread range has exactly `min(P, L)` entries |
| `Palette.SpreadSampleDistinct` | website/src/lib/visx.tsx:99-101 | the spread range takes distinct palette colours to distinct entries, so with `P >= L` every layer gets its own colour |
| `Palette.SpreadSampleAgrees` | website/src/lib/visx.tsx:93-101 | where the stride rule already uses the whole live palette, the spread range is identical to the live range |
| `Visibility.WidgetRenders` | website/src/lib/visx.tsx:116-119 | the widget renders exactly when the width is a number of at least 10 and the height a non-zero number |
| `Visibility.NodeDrawn` | website/src/lib/visx.tsx:203-205 | a rectangle is drawn exactly when its width and height are numbers of at least 2 (0, NaN and sizes below 2 are not drawn) |
| `Visibility.LabelShown` | website/src/lib/visx.tsx:172 | a label is shown exactly when the width is above 40 and the height above 14 |
| `Visibility.LabelOnlyWhenDrawn` | website/src/lib/visx.tsx:172 | a label can only appear on a rectangle that is drawn |
| `Visibility.ThresholdExamples` | website/src/lib/visx.tsx:116-205 | width 39 never shows a label, 41 by 15 does, height 1 is not drawn, width 9 or height 0 renders no widget |
| `NodeStyle.RenderNode` | website/src/lib/visx.tsx:203-229 | `MapNode` returns a box exactly when the rectangle is drawn; the box has the node's colours and carries the node's name as its label exactly when the label threshold is met |
| `NodeStyle.MissingLayerIsLayerZero` | website/src/lib/visx.tsx:179-181 | a node without a layer is coloured like the same node on layer 0 |
| `NodeStyle.BackgroundDependsOnFlagAndLayer` | website/src/lib/visx.tsx:174-182 | two nodes with the same deleted flag and effective layer have the same background, whatever their id and name |
| `NodeStyle.BackgroundFromScale` | website/src/lib/visx.tsx:174-182 | a missing node is transparent; a deleted node takes a colour of the deleted scale; any other node takes a colour of the live scale |
| `NodeStyle.TextContrast` | website/src/lib/visx.tsx:185-191 | the text is `#444` exactly on a light background and `#fff` exactly on a dark one |
| `NodeStyle.BorderFromBackgrounds` | website/src/lib/visx.tsx:193-202 | the border is `#444` under a light parent, else `#fff` when the node's own background is dark, else unset |
| `NodeStyle.BorderUnsetExactly` | website/src/lib/visx.tsx:193-202 | the border is unset exactly for a light node in a dark parent; under a dark parent a set border equals the node's text colour |
| `NodeStyle.RootBorderAgainstTransparent` | website/src/lib/visx.tsx:194 | the root of the drawn hierarchy has no parent, so its border is judged against `transparent` |
| `NodeStyle.FindLayer` | website/src/lib/visx.tsx:232-234 | the layer search finds an entry exactly when the node has a layer inside the list, and the entry is the one at that index |
| `NodeStyle.UnlayeredTooltip` | website/src/lib/visx.tsx:232-234 | a node without a layer is coloured as layer 0, but its tooltip names no layer; a node on layer 0 names the first one |

## Findings

| source | as written | input that shows it | evidently intended | confidence | as-written member | corrected member |
|---|---|---|---|---|---|---|
| website/src/lib/visx.tsx:93-101 | `step = ceil(P / L)` keeps `ceil(P / step)` colours, which can be fewer than `L` even when `P >= L`; `scaleOrdinal` then gives two layers one colour | a palette of 9 colours and 4 layers: step 3, colours at 0, 3 and 6, three colours for four layers | as the comment on line 99 says, a range as long as the layer list (when the palette is long enough), so that each layer has its own colour | not executed; medium (depends on the palette lengths in `colors.ts`) | `Palette.SampleFallsShort` | `Palette.SpreadSampleDistinct` |

`Palette.Sample` still models the code as written. `Palette.SpreadSample`
is the even spread, and no other part of the model consumes a colour
range. The finding is stated for the live range. The deleted range reuses
the live step (`Palette.DeletedRangeUsesLiveStep`), so how many deleted
colours it keeps also depends on the lengths of both palettes.

## Left out

- The d3 layout (`treemap`, `treemapBinary`, padding 7, `paddingTop`): a library that computes floating-point geometry. Its rectangles enter the size guards as opaque inputs (`Visibility.Rect`).
- `fontScale` (`scaleSqrt` over the weights) and the font size of a label: floating-point library scale.
- colord's `isLight()`: a foreign luminance computation, passed in as a predicate.
- How `scaleOrdinal` maps a layer index to a range entry, including its wrap-around: library behaviour. The scales are passed in as functions.
- `Number(text)`, JavaScript's string-to-number parse: the selection carries its result. `Infinity` is not represented among `Js.Number`s, and a node's `layer` is an optional integer, so a NaN layer is not represented.
- The size line of the tooltip (`formatFileSize`) and the palette contents: `website/src/lib/utils` and `website/src/lib/colors` are not part of this model.
- React plumbing. This covers `useMemo`, `memo`, the context, when effects run and the Tippy tooltip. It includes the memo on `borderColor`, which is keyed only on `textColor`, so a changed parent background alone would not refresh it. It also includes the two colour scales, which are memoised with an empty dependency list (visx.tsx:103 and 113): their ranges are built once, so `l` in `Palette.LiveRange(scheme, l)` and `Palette.DeletedRange(scheme, schemeRed, l)` is the layer count at the first render, and a later change of the `layers` list does not rebuild them.
- Floating-point rounding: `Js.Sub` subtracts exactly, while `x1 - x0` and `y1 - y0` in the source are rounded IEEE 754 doubles. Within one unit in the last place of 2, 14 or 40 the modelled size guards (`Visibility.NodeDrawn`, `Visibility.LabelShown`) can therefore decide differently from the source; for example `x0 = 0.5000000000000001`, `x1 = 2.5` rounds to a width of exactly 2 in the source but is just below 2 here.
- Node ids: `Hierarchy.Datum.id` is an integer, while the source's `data.id` is untyped and compared with `===`. A non-integer id that equals a non-integer selected number would match in the source; that case is not represented.
- The click handler: `stopPropagation` and writing the `node` search parameter are navigation I/O.
- `website/src/routes/_index.tsx`: it only holds a redirect and meta tags.
