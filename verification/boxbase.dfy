/** Axis-aligned boxes `[x0, y0, x1, y1]` (page coordinates, y growing
    downwards) and the overlap / distance measures the pipeline decides on. */
module BoxBase {
  import opened Base

  datatype Box = Box(x0: real, y0: real, x1: real, y1: real) {
    function Width(): real { x1 - x0 }
    function Height(): real { y1 - y0 }
    /** `box_area`: may be negative or zero for degenerate boxes. */
    function Area(): real { (x1 - x0) * (y1 - y0) }
    /** Boxes that survive `__fix_axis`: positive width and height. */
    predicate WellFormed() { x0 < x1 && y0 < y1 }
  }

  /** The candidate intersection rectangle every overlap measure starts from. */
  function Inter(a: Box, b: Box): Box {
    Box(MaxR(a.x0, b.x0), MaxR(a.y0, b.y0), MinR(a.x1, b.x1), MinR(a.y1, b.y1))
  }

  /** The early-exit test shared by the overlap measures: the intersection
      rectangle is inverted on some axis. Touching boxes are not disjoint. */
  predicate Disjoint(a: Box, b: Box) {
    Inter(a, b).x1 < Inter(a, b).x0 || Inter(a, b).y1 < Inter(a, b).y0
  }

  /** Intersection with a positive area. */
  predicate Overlaps(a: Box, b: Box) {
    Inter(a, b).x0 < Inter(a, b).x1 && Inter(a, b).y0 < Inter(a, b).y1
  }

  lemma MulMono(a: real, b: real, c: real, d: real)
    requires 0.0 <= a <= c && 0.0 <= b <= d
    ensures 0.0 <= a * b <= c * d
  {
    assert a * b <= c * b;
    assert c * b <= c * d;
  }

  lemma MulPos(a: real, b: real)
    requires 0.0 < a && 0.0 < b
    ensures 0.0 < a * b
  {
  }

  lemma StrictMul(a: real, c: real, d: real)
    requires 0.0 <= a < c && 0.0 < d
    ensures a * d < c * d
  {
  }

  function Sq(d: real): real { d * d }

  lemma SquareNonNeg(d: real)
    ensures Sq(d) >= 0.0
    ensures d != 0.0 ==> Sq(d) > 0.0
  {
    if d > 0.0 {
      calc { Sq(d); == d * d; > 0.0; }
    } else if d < 0.0 {
      calc { Sq(d); == d * d; > 0.0; }
    } else {
      calc { Sq(d); == d * d; == 0.0; }
    }
  }

  lemma DivUnit(n: real, d: real)
    requires 0.0 <= n <= d && 0.0 < d
    ensures 0.0 <= n / d <= 1.0
    ensures n / d == 1.0 <==> n == d
    ensures n / d > 0.0 <==> n > 0.0
  {
    assert n / d * d == n;
  }

  /** Intersection area of two non-disjoint boxes is bounded by both areas. */
  lemma InterAreaBounds(a: Box, b: Box)
    requires !Disjoint(a, b)
    ensures 0.0 <= Inter(a, b).Area() <= a.Area()
    ensures Inter(a, b).Area() <= b.Area()
    ensures Inter(a, b).Area() > 0.0 <==> Overlaps(a, b)
  {
    var i := Inter(a, b);
    var w, h := i.Width(), i.Height();
    assert i.Area() == w * h;
    assert a.Area() == a.Width() * a.Height();
    assert b.Area() == b.Width() * b.Height();
    assert 0.0 <= w <= a.Width() && w <= b.Width();
    assert 0.0 <= h <= a.Height() && h <= b.Height();
    MulMono(w, h, a.Width(), a.Height());
    MulMono(w, h, b.Width(), b.Height());
    if Overlaps(a, b) {
      MulPos(w, h);
    } else {
      assert w == 0.0 || h == 0.0;
    }
  }

  /** `_is_in_or_part_overlap`: the boxes touch or overlap. */
  predicate IsInOrPartOverlap(a: Box, b: Box) {
    !(a.x1 < b.x0 || a.x0 > b.x1 || a.y1 < b.y0 || a.y0 > b.y1)
  }

  /** `_is_in`: `a` lies inside `b` (borders may coincide). */
  predicate IsIn(a: Box, b: Box) {
    a.x0 >= b.x0 && a.y0 >= b.y0 && a.x1 <= b.x1 && a.y1 <= b.y1
  }

  /** `_is_part_overlap`: touching or overlapping without `a` inside `b`. */
  predicate IsPartOverlap(a: Box, b: Box) {
    IsInOrPartOverlap(a, b) && !IsIn(a, b)
  }

  lemma IsInOrder(a: Box, b: Box, c: Box)
    ensures IsIn(a, a)
    ensures IsIn(a, b) && IsIn(b, c) ==> IsIn(a, c)
    ensures IsIn(a, b) && IsIn(b, a) ==> a == b
    ensures IsIn(a, b) && a.x0 <= a.x1 && a.y0 <= a.y1 ==> IsInOrPartOverlap(a, b) && !IsPartOverlap(a, b)
  {
  }

  /** The smallest box holding both boxes. */
  function UnionBox(a: Box, b: Box): (u: Box)
    ensures IsIn(a, u) && IsIn(b, u)
    ensures forall c :: IsIn(a, c) && IsIn(b, c) ==> IsIn(u, c)
  {
    Box(MinR(a.x0, b.x0), MinR(a.y0, b.y0), MaxR(a.x1, b.x1), MaxR(a.y1, b.y1))
  }

  /** The box `[min x0, min y0, max x1, max y1]` over a non-empty list. */
  function Hull(bs: seq<Box>): (h: Box)
    requires |bs| > 0
    ensures forall k :: 0 <= k < |bs| ==> IsIn(bs[k], h)
    ensures exists k :: 0 <= k < |bs| && h.x0 == bs[k].x0
    ensures exists k :: 0 <= k < |bs| && h.y0 == bs[k].y0
    ensures exists k :: 0 <= k < |bs| && h.x1 == bs[k].x1
    ensures exists k :: 0 <= k < |bs| && h.y1 == bs[k].y1
  {
    if |bs| == 1 then bs[0]
    else
      var init := bs[..|bs| - 1];
      var h := Hull(init);
      assert forall k :: 0 <= k < |init| ==> init[k] == bs[k];
      UnionBox(h, bs[|bs| - 1])
  }

  /** `get_overlap_area`. */
  function OverlapArea(a: Box, b: Box): (r: real)
    ensures 0.0 <= r
    ensures !Disjoint(a, b) ==> r <= a.Area() && r <= b.Area()
    ensures r > 0.0 <==> Overlaps(a, b)
  {
    if Disjoint(a, b) then 0.0
    else
      InterAreaBounds(a, b);
      Inter(a, b).Area()
  }

  /** The overlap area does not depend on the argument order. */
  lemma OverlapAreaSymmetric(a: Box, b: Box)
    ensures OverlapArea(a, b) == OverlapArea(b, a)
  {
    assert Inter(a, b) == Inter(b, a);
  }

  /** The union `calculate_iou` divides by is non-zero: always so for boxes
      of positive area; the source divides by zero otherwise. */
  predicate IouDefined(a: Box, b: Box) {
    !Disjoint(a, b) ==> a.Area() + b.Area() - Inter(a, b).Area() != 0.0
  }

  lemma IouDefinedWellFormed(a: Box, b: Box)
    requires a.WellFormed() && b.WellFormed()
    ensures IouDefined(a, b)
  {
    if !Disjoint(a, b) {
      var inter := Inter(a, b).Area();
      InterAreaBounds(a, b);
      assert a.Area() == a.Width() * a.Height();
      MulPos(a.Width(), a.Height());
      assert a.Area() + b.Area() - inter >= a.Area() > 0.0;
    }
  }

  /** `calculate_iou`. */
  function Iou(a: Box, b: Box): (r: real)
    requires IouDefined(a, b)
    ensures 0.0 <= r <= 1.0
    ensures r > 0.0 <==> Overlaps(a, b)
    ensures Disjoint(a, b) ==> r == 0.0
  {
    if Disjoint(a, b) then 0.0
    else
      var inter := Inter(a, b).Area();
      InterAreaBounds(a, b);
      DivUnit(inter, a.Area() + b.Area() - inter);
      inter / (a.Area() + b.Area() - inter)
  }

  lemma IouSymmetric(a: Box, b: Box)
    requires IouDefined(a, b)
    ensures IouDefined(b, a)
    ensures Iou(a, b) == Iou(b, a)
  {
    assert Inter(a, b) == Inter(b, a);
  }

  /** A box with positive area has IoU 1 with itself. */
  lemma IouSelf(a: Box)
    requires a.WellFormed()
    ensures IouDefined(a, a)
    ensures Iou(a, a) == 1.0
  {
    assert Inter(a, a) == a;
    MulPos(a.Width(), a.Height());
    DivUnit(a.Area(), a.Area());
  }

  /** An IoU test `calculate_iou(a, b) > thr`; the source raises on a zero
      union, which boxes of positive area never have. */
  predicate IouAbove(a: Box, b: Box, thr: real) {
    IouDefined(a, b) && Iou(a, b) > thr
  }

  lemma IouAboveSymmetric(a: Box, b: Box, thr: real)
    requires a.WellFormed() && b.WellFormed()
    ensures IouAbove(a, b, thr) == IouAbove(b, a, thr)
  {
    IouDefinedWellFormed(a, b);
    IouSymmetric(a, b);
  }

  /** `calculate_overlap_area_2_minbox_area_ratio`. */
  function OverlapRatioToMinBox(a: Box, b: Box): (r: real)
    ensures 0.0 <= r <= 1.0
    ensures r > 0.0 <==> Overlaps(a, b)
  {
    if Disjoint(a, b) then 0.0
    else
      var inter := Inter(a, b).Area();
      var minArea := MinR(a.Area(), b.Area());
      InterAreaBounds(a, b);
      if minArea == 0.0 then 0.0
      else
        DivUnit(inter, minArea);
        inter / minArea
  }

  lemma OverlapRatioToMinBoxSymmetric(a: Box, b: Box)
    ensures OverlapRatioToMinBox(a, b) == OverlapRatioToMinBox(b, a)
  {
    assert Inter(a, b) == Inter(b, a);
  }

  /** A box lying inside another covers all of the smaller area. */
  lemma OverlapRatioToMinBoxInside(a: Box, b: Box)
    requires a.WellFormed() && IsIn(a, b)
    ensures OverlapRatioToMinBox(a, b) == 1.0
  {
    assert Inter(a, b) == a;
    MulMono(a.Width(), a.Height(), b.Width(), b.Height());
    MulPos(a.Width(), a.Height());
    DivUnit(a.Area(), a.Area());
  }

  /** `calculate_overlap_area_in_bbox1_area_ratio`: the share of `a`'s area
      covered by `b`. */
  function OverlapRatioInFirst(a: Box, b: Box): (r: real)
    ensures 0.0 <= r <= 1.0
    ensures r > 0.0 <==> Overlaps(a, b)
  {
    if Disjoint(a, b) then 0.0
    else
      var inter := Inter(a, b).Area();
      InterAreaBounds(a, b);
      if a.Area() == 0.0 then 0.0
      else
        DivUnit(inter, a.Area());
        inter / a.Area()
  }

  /** The share is complete exactly when a box of positive area lies inside. */
  lemma OverlapRatioInFirstFull(a: Box, b: Box)
    requires a.WellFormed()
    ensures OverlapRatioInFirst(a, b) == 1.0 <==> IsIn(a, b)
  {
    assert a.Area() == a.Width() * a.Height();
    MulPos(a.Width(), a.Height());
    if IsIn(a, b) {
      assert Inter(a, b) == a;
      DivUnit(a.Area(), a.Area());
    } else if !Disjoint(a, b) {
      InterAreaBounds(a, b);
      InterShrinks(a, b);
      DivUnit(Inter(a, b).Area(), a.Area());
    }
  }

  /** Unless `a` lies inside `b`, their intersection is strictly smaller. */
  lemma InterShrinks(a: Box, b: Box)
    requires a.WellFormed() && !Disjoint(a, b) && !IsIn(a, b)
    ensures Inter(a, b).Area() < a.Area()
  {
    var i := Inter(a, b);
    var w, h, ww, hh := i.Width(), i.Height(), a.Width(), a.Height();
    assert i.Area() == w * h && a.Area() == ww * hh;
    assert 0.0 <= w <= ww && 0.0 <= h <= hh && (w < ww || h < hh);
    StrictProduct(w, h, ww, hh);
  }

  lemma StrictProduct(w: real, h: real, ww: real, hh: real)
    requires 0.0 <= w <= ww && 0.0 <= h <= hh && 0.0 < ww && 0.0 < hh
    requires w < ww || h < hh
    ensures w * h < ww * hh
  {
    if w < ww {
      MulMono(w, h, w, hh);
      StrictMul(w, ww, hh);
    } else {
      MulMono(w, h, ww, h);
      StrictMul(h, hh, ww);
      assert ww * h == h * ww;
      assert ww * hh == hh * ww;
    }
  }

  /** `get_minbox_if_overlap_by_ratio`: the smaller of two boxes (the first on
      a tie) when their overlap covers more than `ratio` of it. */
  function MinBoxIfOverlapByRatio(a: Box, b: Box, ratio: real): (r: Option<Box>)
    ensures r.Some? <==> OverlapRatioToMinBox(a, b) > ratio
    ensures r.Some? ==> (r.value == a || r.value == b)
    ensures r.Some? ==> r.value.Area() <= a.Area() && r.value.Area() <= b.Area()
    ensures r.Some? && a.Area() == b.Area() ==> r.value == a
  {
    if OverlapRatioToMinBox(a, b) > ratio then
      if a.Area() <= b.Area() then Some(a) else Some(b)
    else None
  }

  /** `bbox_relative_pos`: where `a` lies relative to `b`. */
  datatype RelPos = RelPos(left: bool, right: bool, bottom: bool, top: bool) {
    function FlagCount(): nat {
      (if left then 1 else 0) + (if right then 1 else 0)
      + (if bottom then 1 else 0) + (if top then 1 else 0)
    }
  }

  function RelativePos(a: Box, b: Box): (r: RelPos)
    ensures a.x0 <= a.x1 && b.x0 <= b.x1 ==> !(r.left && r.right)
    ensures a.y0 <= a.y1 && b.y0 <= b.y1 ==> !(r.bottom && r.top)
    ensures r.FlagCount() == 0 <==> IsInOrPartOverlap(a, b)
  {
    RelPos(b.x1 < a.x0, a.x1 < b.x0, b.y1 < a.y0, a.y1 < b.y0)
  }

  /** Reading the relation from the other box mirrors every flag. */
  lemma RelativePosMirror(a: Box, b: Box)
    ensures RelativePos(b, a) == RelPos(RelativePos(a, b).right, RelativePos(a, b).left,
                                        RelativePos(a, b).top, RelativePos(a, b).bottom)
  {
  }

  /** The `dist` helper of `bbox_distance`. */
  function PointDist(sqrt: real -> real, px: real, py: real, qx: real, qy: real): (r: real)
    ensures (forall x :: sqrt(x) >= 0.0) ==> r >= 0.0
    ensures (forall x :: x > 0.0 ==> sqrt(x) > 0.0) && px != qx ==> r > 0.0
  {
    SquareNonNeg(px - qx);
    SquareNonNeg(py - qy);
    sqrt(Sq(px - qx) + Sq(py - qy))
  }

  /** `bbox_distance`: 0 for touching or overlapping boxes, the gap along one
      axis for boxes side by side, the corner-to-corner distance for diagonal
      neighbours. `sqrt` stands for `math.sqrt`. */
  function BboxDistance(a: Box, b: Box, sqrt: real -> real): (r: real)
    ensures IsInOrPartOverlap(a, b) ==> r == 0.0
    ensures (forall x :: sqrt(x) >= 0.0) ==> r >= 0.0
    ensures (forall x :: x > 0.0 ==> sqrt(x) > 0.0) ==> (r == 0.0 <==> IsInOrPartOverlap(a, b))
    ensures RelativePos(a, b) == RelPos(true, false, false, false) ==> r == a.x0 - b.x1
    ensures RelativePos(a, b) == RelPos(false, true, false, false) ==> r == b.x0 - a.x1
    ensures RelativePos(a, b) == RelPos(false, false, true, false) ==> r == a.y0 - b.y1
    ensures RelativePos(a, b) == RelPos(false, false, false, true) ==> r == b.y0 - a.y1
  {
    var p := RelativePos(a, b);
    if p.top && p.left then
      PointDist(sqrt, a.x0, a.y1, b.x1, b.y0)
    else if p.left && p.bottom then
      PointDist(sqrt, a.x0, a.y0, b.x1, b.y1)
    else if p.bottom && p.right then
      PointDist(sqrt, a.x1, a.y0, b.x0, b.y1)
    else if p.right && p.top then
      PointDist(sqrt, a.x1, a.y1, b.x0, b.y0)
    else if p.left then a.x0 - b.x1
    else if p.right then b.x0 - a.x1
    else if p.bottom then a.y0 - b.y1
    else if p.top then b.y0 - a.y1
    else 0.0
  }

  /** For well-formed boxes the distance does not depend on argument order. */
  lemma BboxDistanceSymmetric(a: Box, b: Box, sqrt: real -> real)
    requires a.WellFormed() && b.WellFormed()
    ensures BboxDistance(a, b, sqrt) == BboxDistance(b, a, sqrt)
  {
    var p := RelativePos(a, b);
    if p.top && p.left {
      assert (a.x0 - b.x1) * (a.x0 - b.x1) == (b.x1 - a.x0) * (b.x1 - a.x0);
      assert (a.y1 - b.y0) * (a.y1 - b.y0) == (b.y0 - a.y1) * (b.y0 - a.y1);
    } else if p.left && p.bottom {
      assert (a.x0 - b.x1) * (a.x0 - b.x1) == (b.x1 - a.x0) * (b.x1 - a.x0);
      assert (a.y0 - b.y1) * (a.y0 - b.y1) == (b.y1 - a.y0) * (b.y1 - a.y0);
    } else if p.bottom && p.right {
      assert (a.x1 - b.x0) * (a.x1 - b.x0) == (b.x0 - a.x1) * (b.x0 - a.x1);
      assert (a.y0 - b.y1) * (a.y0 - b.y1) == (b.y1 - a.y0) * (b.y1 - a.y0);
    } else if p.right && p.top {
      assert (a.x1 - b.x0) * (a.x1 - b.x0) == (b.x0 - a.x1) * (b.x0 - a.x1);
      assert (a.y1 - b.y0) * (a.y1 - b.y0) == (b.y0 - a.y1) * (b.y0 - a.y1);
    }
  }

  /** `calculate_vertical_projection_overlap_ratio`: the share of `a`'s
      horizontal extent shared with `b`. */
  function VerticalProjectionOverlapRatio(a: Box, b: Box): (r: real)
    ensures 0.0 <= r <= 1.0
    ensures a.Width() == 0.0 ==> r == 0.0
    ensures a.x0 < a.x1 ==> (r == 1.0 <==> b.x0 <= a.x0 && a.x1 <= b.x1)
  {
    var left := MaxR(a.x0, b.x0);
    var right := MinR(a.x1, b.x1);
    if right < left then 0.0
    else if a.Width() == 0.0 then 0.0
    else
      DivUnit(right - left, a.Width());
      (right - left) / a.Width()
  }

  /** `__is_overlaps_y_exceeds_threshold`: the vertical overlap exceeds
      `thr` of the lower of the two heights (which the source divides by). */
  predicate OverlapsYExceedsThreshold(a: Box, b: Box, thr: real)
    requires MinR(a.Height(), b.Height()) != 0.0
  {
    MaxR(0.0, MinR(a.y1, b.y1) - MaxR(a.y0, b.y0)) / MinR(a.Height(), b.Height()) > thr
  }

  /** Between well-formed boxes the test is symmetric, holds for a band
      nested in the other (when `thr < 1`) and never for separated bands
      (when `thr >= 0`). */
  lemma OverlapsYExceedsThresholdFacts(a: Box, b: Box, thr: real)
    requires a.WellFormed() && b.WellFormed()
    ensures OverlapsYExceedsThreshold(a, b, thr) == OverlapsYExceedsThreshold(b, a, thr)
    ensures thr < 1.0 && b.y0 <= a.y0 && a.y1 <= b.y1 ==> OverlapsYExceedsThreshold(a, b, thr)
    ensures 0.0 <= thr && (a.y1 <= b.y0 || b.y1 <= a.y0) ==> !OverlapsYExceedsThreshold(a, b, thr)
  {
    var h := MinR(a.Height(), b.Height());
    if b.y0 <= a.y0 && a.y1 <= b.y1 {
      assert h == a.Height();
      assert MaxR(0.0, MinR(a.y1, b.y1) - MaxR(a.y0, b.y0)) == h;
      DivUnit(h, h);
    }
  }
}
