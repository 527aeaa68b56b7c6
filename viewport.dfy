/**
 * components/ZoomableAXTree.tsx, the view arithmetic: the transform that
 * `fitToScreen` and `focusNode` hand to the zoom behaviour, the lookup that
 * `focusNode` performs first, and the size of the minimap. Positions are
 * idealised as reals; the layout itself (`d3.tree`) and the bounding box
 * (`getBBox`) are inputs.
 */
module Viewport {
  import opened Wrappers
  import opened AXNodes

  /** `d3.zoomIdentity.translate(x, y).scale(k)`: a point p is drawn at `(x + k * p.x, y + k * p.y)`. */
  datatype Transform = Transform(x: real, y: real, k: real)

  const Identity := Transform(0.0, 0.0, 1.0)

  function ScreenX(t: Transform, px: real): real { t.x + t.k * px }
  function ScreenY(t: Transform, py: real): real { t.y + t.k * py }

  /** The bounding box `getBBox()` reports for the drawing. */
  datatype BBox = BBox(x: real, y: real, width: real, height: real)

  predicate ValidBox(b: BBox) { b.width >= 0.0 && b.height >= 0.0 }

  /** Total padding, split evenly on both sides of the box. */
  const FitPadding: real := 120.0

  const FocusScale: real := 1.2

  function Min(a: real, b: real): real { if a <= b then a else b }
  function Max(a: real, b: real): real { if a >= b then a else b }

  /** `Math.min(width / (bbox.width + 120), height / (bbox.height + 120), 1)`. */
  function FitScale(width: real, height: real, box: BBox): (s: real)
    requires ValidBox(box)
    ensures s <= 1.0
    ensures s <= width / (box.width + FitPadding) && s <= height / (box.height + FitPadding)
    ensures s == 1.0 || s == width / (box.width + FitPadding) || s == height / (box.height + FitPadding)
  {
    Min(Min(width / (box.width + FitPadding), height / (box.height + FitPadding)), 1.0)
  }

  /** The target transform of `fitToScreen` (and of the initial fit after drawing). */
  function FitTransform(width: real, height: real, box: BBox): (t: Transform)
    requires ValidBox(box)
    ensures t.k == FitScale(width, height, box)
    ensures ScreenX(t, box.x + box.width / 2.0) == width / 2.0
    ensures ScreenY(t, box.y + box.height / 2.0) == height / 2.0
  {
    var s := FitScale(width, height, box);
    Transform(-box.x * s + (width - box.width * s) / 2.0, -box.y * s + (height - box.height * s) / 2.0, s)
  }

  /**
   * After `fitToScreen` the drawing, with half the padding on every side,
   * lies inside the canvas.
   */
  lemma FitKeepsPaddedBoxInside(width: real, height: real, box: BBox)
    requires ValidBox(box)
    ensures var t := FitTransform(width, height, box);
            var half := FitPadding / 2.0;
            && 0.0 <= ScreenX(t, box.x - half) && ScreenX(t, box.x + box.width + half) <= width
            && 0.0 <= ScreenY(t, box.y - half) && ScreenY(t, box.y + box.height + half) <= height
  {
  }

  /** An element of the layout: `d3.tree` position (x runs down, y runs right), the record, depth. */
  datatype LayoutNode = LayoutNode(x: real, y: real, data: RawNode, depth: nat)

  /** `layoutNodes.find((n) => n.data.nodeId === nodeId)`, as an index. */
  function FindLayoutNode(layout: seq<LayoutNode>, id: NodeId): (r: Option<nat>)
    ensures r.None? <==> forall j :: 0 <= j < |layout| ==> layout[j].data.nodeId != id
    ensures r.Some? ==> r.value < |layout| && layout[r.value].data.nodeId == id
                        && forall j :: 0 <= j < r.value ==> layout[j].data.nodeId != id
  {
    if layout == [] then None
    else if layout[0].data.nodeId == id then Some(0)
    else match FindLayoutNode(layout[1..], id)
      case None => None
      case Some(k) => Some(k + 1)
  }

  /** The target transform of `focusNode`: zoom 1.2 with the node at the canvas centre. */
  function FocusTransform(width: real, height: real, n: LayoutNode): (t: Transform)
    ensures t.k == FocusScale
    ensures ScreenX(t, n.y) == width / 2.0 && ScreenY(t, n.x) == height / 2.0
  {
    Transform(width / 2.0 - n.y * FocusScale, height / 2.0 - n.x * FocusScale, FocusScale)
  }

  /**
   * The zoom state of the main view, which `fitToScreen` and `focusNode`
   * set. `mounted` stands for both `svgRef.current` and `gRef.current`
   * being present; the animated transition is collapsed to its end state.
   */
  class ViewportController {
    const width: real
    const height: real
    var transform: Transform

    constructor (width: real, height: real)
      ensures this.width == width && this.height == height && transform == Identity
    {
      this.width := width;
      this.height := height;
      transform := Identity;
    }

    method FitToScreen(mounted: bool, box: Option<BBox>)
      requires box.Some? ==> ValidBox(box.value)
      modifies this
      ensures !mounted || box.None? ==> transform == old(transform)
      ensures mounted && box.Some? ==> transform == FitTransform(width, height, box.value)
    {
      if !mounted {
        return;
      }
      if box.None? {
        return;
      }
      var b := box.value;
      var scale := FitScale(width, height, b);
      var tx := -b.x * scale + (width - b.width * scale) / 2.0;
      var ty := -b.y * scale + (height - b.height * scale) / 2.0;
      transform := Transform(tx, ty, scale);
    }

    /** A missing id leaves the view alone; a present one is centred at zoom 1.2. */
    method FocusNode(mounted: bool, layout: seq<LayoutNode>, id: NodeId)
      modifies this
      ensures !mounted || FindLayoutNode(layout, id).None? ==> transform == old(transform)
      ensures mounted && FindLayoutNode(layout, id).Some? ==>
                var n := layout[FindLayoutNode(layout, id).value];
                transform.k == FocusScale
                && ScreenX(transform, n.y) == width / 2.0 && ScreenY(transform, n.x) == height / 2.0
    {
      if !mounted {
        return;
      }
      var found := FindLayoutNode(layout, id);
      if found.None? {
        return;
      }
      var n := layout[found.value];
      var tx := width / 2.0 - n.y * FocusScale;
      var ty := height / 2.0 - n.x * FocusScale;
      transform := Transform(tx, ty, FocusScale);
    }
  }

  const MinimapScale: real := 0.12

  /** `Math.max(180, Math.min(320, width * 0.12))`. */
  function MinimapWidth(width: real): (w: real)
    ensures 180.0 <= w <= 320.0
    ensures 180.0 <= width * MinimapScale <= 320.0 ==> w == width * MinimapScale
    ensures width * MinimapScale <= 180.0 ==> w == 180.0
    ensures width * MinimapScale >= 320.0 ==> w == 320.0
  {
    Max(180.0, Min(320.0, width * MinimapScale))
  }

  /** `Math.max(120, Math.min(200, height * 0.12))`. */
  function MinimapHeight(height: real): (h: real)
    ensures 120.0 <= h <= 200.0
    ensures 120.0 <= height * MinimapScale <= 200.0 ==> h == height * MinimapScale
    ensures height * MinimapScale <= 120.0 ==> h == 120.0
    ensures height * MinimapScale >= 200.0 ==> h == 200.0
  {
    Max(120.0, Min(200.0, height * MinimapScale))
  }

  /** Growing the canvas never shrinks the minimap. */
  lemma MinimapMonotone(w1: real, w2: real)
    requires w1 <= w2
    ensures MinimapWidth(w1) <= MinimapWidth(w2) && MinimapHeight(w1) <= MinimapHeight(w2)
  {
  }

  /** `d3.max` over a coordinate of the layout: absent for an empty layout. */
  function MaxOf(layout: seq<LayoutNode>, useY: bool): (m: Option<real>)
    ensures m.None? <==> layout == []
    ensures m.Some? ==> forall i :: 0 <= i < |layout| ==> (if useY then layout[i].y else layout[i].x) <= m.value
    ensures m.Some? ==> exists i :: 0 <= i < |layout| && m.value == (if useY then layout[i].y else layout[i].x)
  {
    if layout == [] then None
    else
      var v := if useY then layout[0].y else layout[0].x;
      match MaxOf(layout[1..], useY)
      case None => Some(v)
      case Some(m) => Some(Max(v, m))
  }

  /** `Math.max(1, d3.max(...) || 1)`. */
  function Extent(m: Option<real>): (e: real)
    ensures e >= 1.0
    ensures m.Some? ==> m.value <= e
    ensures e == 1.0 || (m.Some? && e == m.value)
  {
    if m.None? || m.value == 0.0 then 1.0 else Max(1.0, m.value)
  }

  /** The scale of the minimap's content group (lines 277-282). */
  function MinimapContentScale(mw: real, mh: real, layout: seq<LayoutNode>): real
  {
    Min(mw / Extent(MaxOf(layout, true)), mh / Extent(MaxOf(layout, false)))
  }

  /**
   * The minimap content is scaled so that the largest coordinate (or 1)
   * spans at most the minimap: every node's coordinate is within that
   * extent, and the scale is at most the minimap's size over it.
   */
  lemma MinimapContentScaleBounds(mw: real, mh: real, layout: seq<LayoutNode>, i: nat)
    requires i < |layout|
    ensures layout[i].y <= Extent(MaxOf(layout, true)) && layout[i].x <= Extent(MaxOf(layout, false))
    ensures MinimapContentScale(mw, mh, layout) <= mw / Extent(MaxOf(layout, true))
    ensures MinimapContentScale(mw, mh, layout) <= mh / Extent(MaxOf(layout, false))
  {
  }
}
