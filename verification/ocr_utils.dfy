/** Interval and box arithmetic around the OCR stage (`ocr_utils`): cutting
    formula regions out of detected text boxes, straightening tilted boxes,
    and moving boxes between page and crop coordinates. */
module OcrUtils {
  import opened Base
  import opened BoxBase

  // ---------------------------------------------------------------------
  // merge_intervals
  // ---------------------------------------------------------------------

  /** A closed interval `[lo, hi]` of x coordinates (empty when `lo > hi`). */
  datatype Interval = Interval(lo: real, hi: real)

  predicate Within(x: real, iv: Interval) {
    iv.lo <= x <= iv.hi
  }

  /** Some interval of the list holds `x`. */
  predicate Covered(ivs: seq<Interval>, x: real) {
    exists k :: 0 <= k < |ivs| && Within(x, ivs[k])
  }

  function Start(iv: Interval): real {
    iv.lo
  }

  /** Each interval ends strictly before the next one starts. */
  predicate Separated(ivs: seq<Interval>) {
    forall k :: 0 <= k < |ivs| - 1 ==> ivs[k].hi < ivs[k + 1].lo
  }

  /** The merging loop over intervals already sorted by start: an interval
      that starts after the last merged one ends is appended, otherwise it
      extends that one. */
  function MergeSorted(s: seq<Interval>): (r: seq<Interval>)
    requires SortedBy(s, Start)
    ensures |r| == 0 <==> |s| == 0
    ensures |s| > 0 ==> r[|r| - 1].lo <= s[|s| - 1].lo
    ensures Separated(r) && SortedBy(r, Start)
  {
    if |s| == 0 then []
    else
      var m := MergeSorted(s[..|s| - 1]);
      var v := s[|s| - 1];
      if |m| == 0 || m[|m| - 1].hi < v.lo then m + [v]
      else m[..|m| - 1] + [Interval(m[|m| - 1].lo, MaxR(m[|m| - 1].hi, v.hi))]
  }

  lemma CoveredAppend(a: seq<Interval>, b: seq<Interval>, x: real)
    ensures Covered(a + b, x) <==> Covered(a, x) || Covered(b, x)
  {
    if Covered(a + b, x) {
      var k :| 0 <= k < |a + b| && Within(x, (a + b)[k]);
      if k >= |a| {
        assert Within(x, b[k - |a|]);
      }
    }
    if Covered(b, x) {
      var k :| 0 <= k < |b| && Within(x, b[k]);
      assert (a + b)[|a| + k] == b[k];
    }
    if Covered(a, x) {
      var k :| 0 <= k < |a| && Within(x, a[k]);
      assert (a + b)[k] == a[k];
    }
  }

  lemma CoveredOne(v: Interval, x: real)
    ensures Covered([v], x) <==> Within(x, v)
  {
    if Within(x, v) {
      assert [v][0] == v;
    }
  }

  /** Merging keeps exactly the covered points. */
  lemma {:induction false} MergeSortedCovers(s: seq<Interval>, x: real)
    requires SortedBy(s, Start)
    ensures Covered(MergeSorted(s), x) <==> Covered(s, x)
  {
    if |s| > 0 {
      var init, v := s[..|s| - 1], s[|s| - 1];
      var m := MergeSorted(init);
      MergeSortedCovers(init, x);
      assert s == init + [v];
      CoveredAppend(init, [v], x);
      CoveredOne(v, x);
      if |m| == 0 || m[|m| - 1].hi < v.lo {
        CoveredAppend(m, [v], x);
      } else {
        var last := m[|m| - 1];
        var u := Interval(last.lo, MaxR(last.hi, v.hi));
        assert m == m[..|m| - 1] + [last];
        CoveredAppend(m[..|m| - 1], [last], x);
        CoveredAppend(m[..|m| - 1], [u], x);
        CoveredOne(last, x);
        CoveredOne(u, x);
        assert last.lo <= init[|init| - 1].lo <= v.lo;
      }
    }
  }

  lemma SameElementsCover(a: seq<Interval>, b: seq<Interval>, x: real)
    requires multiset(a) == multiset(b)
    ensures Covered(a, x) <==> Covered(b, x)
  {
    if Covered(a, x) {
      var k :| 0 <= k < |a| && Within(x, a[k]);
      assert a[k] in multiset(b);
      var j :| 0 <= j < |b| && b[j] == a[k];
    }
    if Covered(b, x) {
      var k :| 0 <= k < |b| && Within(x, b[k]);
      assert b[k] in multiset(a);
      var j :| 0 <= j < |a| && a[j] == b[k];
    }
  }

  /** `merge_intervals`: sorted by start, each interval ending before the
      next starts, covering exactly the points the input covers. */
  function MergeIntervals(ivs: seq<Interval>): (r: seq<Interval>)
    ensures |r| <= |ivs| && (|r| == 0 <==> |ivs| == 0)
    ensures SortedBy(r, Start) && Separated(r)
    ensures forall x :: Covered(r, x) <==> Covered(ivs, x)
  {
    var sorted := SortBy(ivs, Start);
    forall x ensures Covered(MergeSorted(sorted), x) <==> Covered(ivs, x) {
      MergeSortedCovers(sorted, x);
      SameElementsCover(sorted, ivs, x);
    }
    MergeSortedLength(sorted);
    MergeSorted(sorted)
  }

  lemma {:induction false} MergeSortedLength(s: seq<Interval>)
    requires SortedBy(s, Start)
    ensures |MergeSorted(s)| <= |s|
  {
    if |s| > 0 {
      MergeSortedLength(s[..|s| - 1]);
    }
  }

  // ---------------------------------------------------------------------
  // remove_intervals
  // ---------------------------------------------------------------------

  /** A whole number of pixels. */
  predicate IsWhole(x: real) {
    x == x.Floor as real
  }

  /** Between whole numbers there is a gap of one. */
  lemma WholeGap(x: int, a: real)
    requires IsWhole(a)
    ensures x as real < a ==> x as real <= a - 1.0
    ensures x as real > a ==> x as real >= a + 1.0
    ensures IsWhole(a + 1.0)
  {
    var n := a.Floor;
    assert a == n as real;
    assert a + 1.0 == (n + 1) as real;
    assert ((n + 1) as real).Floor == n + 1;
    if x as real < a {
      assert x < n;
      assert x as real <= (n - 1) as real;
    }
    if x as real > a {
      assert x > n;
      assert x as real >= (n + 1) as real;
    }
  }

  predicate AllWhole(ivs: seq<Interval>) {
    forall k :: 0 <= k < |ivs| ==> IsWhole(ivs[k].lo) && IsWhole(ivs[k].hi)
  }

  /** The loop of `remove_intervals` from the current start `lo`: a mask
      wholly after the range or before `lo` is skipped; otherwise the part
      before it is kept and `lo` moves past it; what remains at the end is
      kept. */
  function RemoveFrom(lo: real, hi: real, ms: seq<Interval>): (r: seq<Interval>)
    ensures forall k :: 0 <= k < |r| ==> lo <= r[k].lo && r[k].hi <= hi
    ensures forall i, j :: 0 <= i < j < |r| ==> r[i].lo < r[j].lo
    decreases |ms|
  {
    if |ms| == 0 then (if lo <= hi then [Interval(lo, hi)] else [])
    else
      var m := ms[0];
      if m.lo > hi || m.hi < lo then RemoveFrom(lo, hi, ms[1..])
      else
        var piece := if lo < m.lo then [Interval(lo, m.lo - 1.0)] else [];
        piece + RemoveFrom(MaxR(m.hi + 1.0, lo), hi, ms[1..])
  }

  lemma {:induction false} MergeKeepsWhole(s: seq<Interval>)
    requires SortedBy(s, Start) && AllWhole(s)
    ensures AllWhole(MergeSorted(s))
    decreases |s|
  {
    if |s| > 0 {
      var init, v := s[..|s| - 1], s[|s| - 1];
      assert AllWhole(init) by {
        forall k | 0 <= k < |init| ensures init[k] == s[k] {
        }
      }
      MergeKeepsWhole(init);
      var m := MergeSorted(init);
      assert IsWhole(v.lo) && IsWhole(v.hi);
      if |m| == 0 || m[|m| - 1].hi < v.lo {
        var r := m + [v];
        forall k | 0 <= k < |r| ensures IsWhole(r[k].lo) && IsWhole(r[k].hi) {
          if k < |m| {
            assert r[k] == m[k];
          }
        }
      } else {
        var w := Interval(m[|m| - 1].lo, MaxR(m[|m| - 1].hi, v.hi));
        assert IsWhole(w.lo) && IsWhole(w.hi);
        var r := m[..|m| - 1] + [w];
        forall k | 0 <= k < |r| ensures IsWhole(r[k].lo) && IsWhole(r[k].hi) {
          if k < |m| - 1 {
            assert r[k] == m[k];
          }
        }
      }
    }
  }

  /** For whole-pixel coordinates a pixel survives exactly when it lies in
      the range and under no mask (masks sorted by start). */
  lemma {:induction false} RemoveFromPoints(lo: real, hi: real, ms: seq<Interval>, x: int)
    requires SortedBy(ms, Start) && AllWhole(ms) && IsWhole(lo)
    ensures Covered(RemoveFrom(lo, hi, ms), x as real) <==> lo <= x as real <= hi && !Covered(ms, x as real)
    decreases |ms|
  {
    var p := x as real;
    if |ms| == 0 {
      CoveredOne(Interval(lo, hi), p);
    } else {
      var m, rest := ms[0], ms[1..];
      assert ms == [m] + rest;
      CoveredAppend([m], rest, p);
      CoveredOne(m, p);
      if m.lo > hi || m.hi < lo {
        assert SortedBy(rest, Start) && AllWhole(rest) by {
          forall k | 0 <= k < |rest| ensures rest[k] == ms[k + 1] {
          }
        }
        RemoveFromPoints(lo, hi, rest, x);
        assert RemoveFrom(lo, hi, ms) == RemoveFrom(lo, hi, rest);
        assert lo <= p <= hi ==> !Within(p, m);
      } else {
        var lo' := MaxR(m.hi + 1.0, lo);
        WholeGap(x, m.hi);
        assert IsWhole(lo');
        assert SortedBy(rest, Start) && AllWhole(rest) by {
          forall k | 0 <= k < |rest| ensures rest[k] == ms[k + 1] {
          }
        }
        RemoveFromPoints(lo', hi, rest, x);
        RemoveStep(lo, hi, m, rest, x);
      }
    }
  }

  /** One mask that meets the range: the part before it is kept, and the
      rest is decided from past its end. */
  lemma RemoveStep(lo: real, hi: real, m: Interval, rest: seq<Interval>, x: int)
    requires SortedBy([m] + rest, Start) && IsWhole(m.lo) && IsWhole(m.hi) && IsWhole(lo)
    requires m.lo <= hi && lo <= m.hi
    requires var lo' := MaxR(m.hi + 1.0, lo);
      Covered(RemoveFrom(lo', hi, rest), x as real) <==> lo' <= x as real <= hi && !Covered(rest, x as real)
    ensures var piece := if lo < m.lo then [Interval(lo, m.lo - 1.0)] else [];
      Covered(piece + RemoveFrom(MaxR(m.hi + 1.0, lo), hi, rest), x as real)
      <==> lo <= x as real <= hi && !Within(x as real, m) && !Covered(rest, x as real)
  {
    var p := x as real;
    var lo' := MaxR(m.hi + 1.0, lo);
    var piece := if lo < m.lo then [Interval(lo, m.lo - 1.0)] else [];
    WholeGap(x, m.lo);
    WholeGap(x, m.hi);
    CoveredAppend(piece, RemoveFrom(lo', hi, rest), p);
    if lo < m.lo {
      CoveredOne(Interval(lo, m.lo - 1.0), p);
    }
    if p < m.lo {
      forall k | 0 <= k < |rest| ensures !Within(p, rest[k]) {
        assert ([m] + rest)[k + 1] == rest[k];
        assert Start(([m] + rest)[0]) <= Start(([m] + rest)[k + 1]);
      }
    }
  }

  /** `remove_intervals`: the parts of `original` that no mask touches,
      in increasing order. */
  function RemoveIntervals(original: Interval, masks: seq<Interval>): (r: seq<Interval>)
    ensures forall k :: 0 <= k < |r| ==> original.lo <= r[k].lo && r[k].hi <= original.hi
    ensures forall i, j :: 0 <= i < j < |r| ==> r[i].lo < r[j].lo
  {
    RemoveFrom(original.lo, original.hi, MergeIntervals(masks))
  }

  /** With whole-pixel coordinates, a pixel is kept exactly when it lies in
      the original range and under none of the masks. */
  lemma RemoveIntervalsPoints(original: Interval, masks: seq<Interval>, x: int)
    requires IsWhole(original.lo) && AllWhole(masks)
    ensures Covered(RemoveIntervals(original, masks), x as real)
      <==> Within(x as real, original) && !Covered(masks, x as real)
  {
    var sorted := SortBy(masks, Start);
    forall k | 0 <= k < |sorted| ensures IsWhole(sorted[k].lo) && IsWhole(sorted[k].hi) {
      assert sorted[k] in multiset(masks);
    }
    MergeKeepsWhole(sorted);
    RemoveFromPoints(original.lo, original.hi, MergeIntervals(masks), x);
  }

  /** Without masks the whole range is kept (when it is not empty). */
  lemma RemoveNoMasks(original: Interval)
    ensures RemoveIntervals(original, []) == if original.lo <= original.hi then [original] else []
  {
  }

  // ---------------------------------------------------------------------
  // bbox_to_points / points_to_bbox / calculate_is_angle
  // ---------------------------------------------------------------------

  datatype Point = Point(x: real, y: real)

  /** A detected text box as four corners: top-left, top-right,
      bottom-right, bottom-left when the box is level. */
  datatype Quad = Quad(p1: Point, p2: Point, p3: Point, p4: Point)

  /** The corners of a level box: the top edge shares `y` and the sides
      share `x`. */
  predicate IsRect(q: Quad) {
    q.p1.y == q.p2.y && q.p2.x == q.p3.x && q.p3.y == q.p4.y && q.p4.x == q.p1.x
  }

  /** `points_to_bbox`: top-left from the first corner, right edge from the
      second and bottom edge from the third. */
  function PointsToBbox(q: Quad): Box {
    Box(q.p1.x, q.p1.y, q.p2.x, q.p3.y)
  }

  /** `bbox_to_points`: the four corners of a box, clockwise from the
      top-left. */
  function BboxToPoints(b: Box): (q: Quad)
    ensures IsRect(q)
  {
    Quad(Point(b.x0, b.y0), Point(b.x1, b.y0), Point(b.x1, b.y1), Point(b.x0, b.y1))
  }

  /** The two conversions are inverse on boxes and on level quads. */
  lemma PointsRoundTrip(b: Box, q: Quad)
    ensures PointsToBbox(BboxToPoints(b)) == b
    ensures IsRect(q) ==> BboxToPoints(PointsToBbox(q)) == q
  {
  }

  /** The mean of the two side heights. */
  function QuadHeight(q: Quad): real {
    ((q.p4.y - q.p1.y) + (q.p3.y - q.p2.y)) / 2.0
  }

  /** `calculate_is_angle`: a box is tilted when the drop from its first to
      its third corner is not within 20% of its mean side height. */
  predicate CalculateIsAngle(q: Quad) {
    var h := QuadHeight(q);
    !(0.8 * h <= q.p3.y - q.p1.y <= 1.2 * h)
  }

  /** The corners of a box are tilted only when the box is upside down. */
  lemma BoxNotAngled(b: Box)
    ensures CalculateIsAngle(BboxToPoints(b)) <==> b.y1 < b.y0
  {
    assert QuadHeight(BboxToPoints(b)) == b.y1 - b.y0;
  }

  /** A level quad with its top above its bottom is not tilted. */
  lemma RectNotAngled(q: Quad)
    requires IsRect(q)
    ensures CalculateIsAngle(q) <==> q.p3.y < q.p1.y
  {
    assert QuadHeight(q) == q.p3.y - q.p1.y;
  }

  // ---------------------------------------------------------------------
  // get_ocr_result_list
  // ---------------------------------------------------------------------

  /** The crop placement: where the crop was pasted (`pasteX`, `pasteY`),
      the page window it was cut from and the size of the pasted image. */
  datatype Useful = Useful(pasteX: real, pasteY: real, xmin: real, ymin: real,
                           xmax: real, ymax: real, newWidth: real, newHeight: real)

  /** The quad's centre: the mean of its corners. */
  function Centre(q: Quad): Point {
    Point((q.p1.x + q.p2.x + q.p3.x + q.p4.x) / 4.0, (q.p1.y + q.p2.y + q.p3.y + q.p4.y) / 4.0)
  }

  /** A tilted box replaced by the level box with the same centre, the
      width from its first to its third corner and its mean side height. */
  function Straighten(q: Quad): (r: Quad)
    ensures IsRect(r)
    ensures Centre(r) == Centre(q)
    ensures r.p2.x - r.p1.x == q.p3.x - q.p1.x
    ensures r.p4.y - r.p1.y == QuadHeight(q)
  {
    var c := Centre(q);
    var h := QuadHeight(q);
    var w := q.p3.x - q.p1.x;
    Quad(Point(c.x - w / 2.0, c.y - h / 2.0), Point(c.x + w / 2.0, c.y - h / 2.0),
         Point(c.x + w / 2.0, c.y + h / 2.0), Point(c.x - w / 2.0, c.y + h / 2.0))
  }

  /** A straightened box is level unless the original was upside down. */
  lemma StraightenLevel(q: Quad)
    ensures CalculateIsAngle(Straighten(q)) <==> QuadHeight(q) < 0.0
  {
    RectNotAngled(Straighten(q));
  }

  /** The quad as it goes out: tilted boxes are straightened. */
  function Level(q: Quad): Quad {
    if CalculateIsAngle(q) then Straighten(q) else q
  }

  /** A point of the pasted crop taken back to page coordinates. */
  function PointToPage(u: Useful, p: Point): Point {
    Point(p.x - u.pasteX + u.xmin, p.y - u.pasteY + u.ymin)
  }

  /** A page point moved into the pasted crop. */
  function PointToCrop(u: Useful, p: Point): (r: Point)
    ensures PointToPage(u, r) == p
  {
    Point(p.x - u.xmin + u.pasteX, p.y - u.ymin + u.pasteY)
  }

  function QuadToPage(u: Useful, q: Quad): Quad {
    Quad(PointToPage(u, q.p1), PointToPage(u, q.p2), PointToPage(u, q.p3), PointToPage(u, q.p4))
  }

  function QuadToCrop(u: Useful, q: Quad): (r: Quad)
    ensures QuadToPage(u, r) == q
  {
    Quad(PointToCrop(u, q.p1), PointToCrop(u, q.p2), PointToCrop(u, q.p3), PointToCrop(u, q.p4))
  }

  /** Moving to the page and back to the crop is the identity. */
  lemma CropRoundTrip(u: Useful, q: Quad)
    ensures QuadToCrop(u, QuadToPage(u, q)) == q
  {
    assert PointToCrop(u, PointToPage(u, q.p1)) == q.p1;
    assert PointToCrop(u, PointToPage(u, q.p2)) == q.p2;
    assert PointToCrop(u, PointToPage(u, q.p3)) == q.p3;
    assert PointToCrop(u, PointToPage(u, q.p4)) == q.p4;
  }

  /** A shift keeps a box level. */
  lemma QuadToPageRect(u: Useful, q: Quad)
    ensures IsRect(QuadToPage(u, q)) <==> IsRect(q)
  {
  }

  /** One entry of the OCR output: a recognised line (box, text and
      confidence) or a bare detected box. */
  datatype OcrItem = Recognised(quad: Quad, text: string, score: real) | Detected(quad: Quad)

  /** A line of the result: category 15, the eight corner coordinates,
      the confidence rounded to two decimals, and the text. */
  datatype OcrResult = OcrResult(categoryId: int, poly: seq<real>, score: real, text: string)

  /** Recognised lines below 0.6 confidence are dropped. */
  predicate Kept(it: OcrItem) {
    it.Detected? || it.score >= 0.6
  }

  /** `float(round(score, 2))`, with ties to even. */
  function Round2(x: real): real {
    RoundHalfEven(x * 100.0) as real / 100.0
  }

  lemma Round2Bounds(x: real)
    requires x >= 0.6
    ensures Round2(x) >= 0.6
  {
    RoundHalfEvenMonotone(60.0, x * 100.0);
    RoundHalfEvenInt(60);
  }

  function Poly(q: Quad): (r: seq<real>)
    ensures |r| == 8
  {
    [q.p1.x, q.p1.y, q.p2.x, q.p2.y, q.p3.x, q.p3.y, q.p4.x, q.p4.y]
  }

  /** The result line of a kept entry: a bare box has empty text and
      confidence 1. */
  function ResultOf(u: Useful, it: OcrItem): OcrResult {
    var text := if it.Recognised? then it.text else "";
    var score := if it.Recognised? then it.score else 1.0;
    OcrResult(15, Poly(QuadToPage(u, Level(it.quad))), Round2(score), text)
  }

  /** `get_ocr_result_list`: the loop over OCR entries, in order. */
  function GetOcrResultList(items: seq<OcrItem>, u: Useful): (r: seq<OcrResult>)
    ensures |r| == CountWhere(items, Kept)
    ensures forall k :: 0 <= k < |r| ==> r[k].categoryId == 15 && |r[k].poly| == 8 && r[k].score >= 0.6
  {
    if |items| == 0 then []
    else
      var rest := GetOcrResultList(items[..|items| - 1], u);
      var it := items[|items| - 1];
      if Kept(it) then
        var line := ResultOf(u, it);
        Round2Bounds(if it.Recognised? then it.score else 1.0);
        rest + [line]
      else rest
  }

  /** The loop agrees with filtering the entries and then converting each. */
  lemma {:induction false} OcrResultListIsFilterMap(items: seq<OcrItem>, u: Useful)
    ensures GetOcrResultList(items, u) == Map(Filter(items, Kept), it => ResultOf(u, it))
  {
    if |items| > 0 {
      OcrResultListIsFilterMap(items[..|items| - 1], u);
      var f := it => ResultOf(u, it);
      var kept := Filter(items[..|items| - 1], Kept);
      if Kept(items[|items| - 1]) {
        assert Map(kept + [items[|items| - 1]], f) == Map(kept, f) + [f(items[|items| - 1])];
      }
    }
  }

  /** The eight coordinates read back as corners. */
  function PolyQuad(p: seq<real>): Quad
    requires |p| == 8
  {
    Quad(Point(p[0], p[1]), Point(p[2], p[3]), Point(p[4], p[5]), Point(p[6], p[7]))
  }

  /** The output corners, moved back into the crop, are the detected
      corners, straightened when the box was tilted; a tilted box comes out
      level. */
  lemma OcrResultPoly(u: Useful, it: OcrItem)
    ensures QuadToCrop(u, PolyQuad(ResultOf(u, it).poly)) == Level(it.quad)
    ensures CalculateIsAngle(it.quad) ==> IsRect(PolyQuad(ResultOf(u, it).poly))
  {
    var q := QuadToPage(u, Level(it.quad));
    assert PolyQuad(Poly(q)) == q;
    CropRoundTrip(u, Level(it.quad));
  }

  // ---------------------------------------------------------------------
  // get_adjusted_mfdetrec_res
  // ---------------------------------------------------------------------

  /** A formula box of the page moved into the pasted crop. */
  function BoxToCrop(u: Useful, b: Box): Box {
    Box(b.x0 - u.xmin + u.pasteX, b.y0 - u.ymin + u.pasteY, b.x1 - u.xmin + u.pasteX, b.y1 - u.ymin + u.pasteY)
  }

  function BoxToPage(u: Useful, b: Box): Box {
    Box(b.x0 - u.pasteX + u.xmin, b.y0 - u.pasteY + u.ymin, b.x1 - u.pasteX + u.xmin, b.y1 - u.pasteY + u.ymin)
  }

  /** A crop box touches the pasted image: it neither ends left of or above
      the origin nor starts right of or below the image. */
  predicate InView(u: Useful, b: Box) {
    !(b.x1 < 0.0 || b.y1 < 0.0) && !(b.x0 > u.newWidth || b.y0 > u.newHeight)
  }

  predicate LandsInView(u: Useful, b: Box) {
    InView(u, BoxToCrop(u, b))
  }

  /** `get_adjusted_mfdetrec_res`: the formula boxes in crop coordinates,
      those outside the pasted image dropped. */
  function GetAdjustedMfdetrecRes(res: seq<Box>, u: Useful): (r: seq<Box>)
    ensures |r| == CountWhere(res, b => LandsInView(u, b))
    ensures forall k :: 0 <= k < |r| ==> InView(u, r[k])
  {
    if |res| == 0 then []
    else
      var rest := GetAdjustedMfdetrecRes(res[..|res| - 1], u);
      var b := BoxToCrop(u, res[|res| - 1]);
      if InView(u, b) then rest + [b] else rest
  }

  /** Taken back to page coordinates, the kept boxes are exactly the page
      boxes that land in view, in their order. */
  lemma {:induction false} AdjustedIsFilter(res: seq<Box>, u: Useful)
    ensures Map(GetAdjustedMfdetrecRes(res, u), b => BoxToPage(u, b)) == Filter(res, b => LandsInView(u, b))
  {
    if |res| > 0 {
      var init, b := res[..|res| - 1], res[|res| - 1];
      AdjustedIsFilter(init, u);
      var f := c => BoxToPage(u, c);
      var rest := GetAdjustedMfdetrecRes(init, u);
      assert BoxToPage(u, BoxToCrop(u, b)) == b;
      if LandsInView(u, b) {
        assert Map(rest + [BoxToCrop(u, b)], f) == Map(rest, f) + [b];
      }
    }
  }

  // ---------------------------------------------------------------------
  // merge_overlapping_spans
  // ---------------------------------------------------------------------

  function X0(b: Box): real {
    b.x0
  }

  /** Each box ends strictly left of where the next one starts. */
  predicate ApartX(bs: seq<Box>) {
    forall k :: 0 <= k < |bs| - 1 ==> bs[k].x1 < bs[k + 1].x0
  }

  /** The merging loop over boxes sorted by left edge: a box starting right
      of the last merged box's right edge is appended, otherwise the two are
      replaced by the box around both. */
  function MergeSpansSorted(s: seq<Box>): (r: seq<Box>)
    requires SortedBy(s, X0)
    ensures |r| <= |s|
    ensures |r| == 0 <==> |s| == 0
    ensures |s| > 0 ==> r[|r| - 1].x0 <= s[|s| - 1].x0
    ensures ApartX(r) && SortedBy(r, X0)
  {
    if |s| == 0 then []
    else
      var m := MergeSpansSorted(s[..|s| - 1]);
      var v := s[|s| - 1];
      if |m| == 0 || m[|m| - 1].x1 < v.x0 then m + [v]
      else m[..|m| - 1] + [UnionBox(m[|m| - 1], v)]
  }

  /** `merge_overlapping_spans`: boxes of one line that overlap
      horizontally (after sorting by left edge) become one box. */
  function MergeOverlappingSpans(spans: seq<Box>): (r: seq<Box>)
    ensures |r| <= |spans|
    ensures |r| == 0 <==> |spans| == 0
    ensures ApartX(r) && SortedBy(r, X0)
  {
    if |spans| == 0 then [] else MergeSpansSorted(SortBy(spans, X0))
  }

  /** Some merged box holds the box. */
  predicate InSome(b: Box, r: seq<Box>) {
    exists k :: 0 <= k < |r| && IsIn(b, r[k])
  }

  lemma {:induction false} MergeSpansSortedCovers(s: seq<Box>, i: nat)
    requires SortedBy(s, X0) && i < |s|
    ensures InSome(s[i], MergeSpansSorted(s))
    decreases |s|
  {
    var init := s[..|s| - 1];
    var m := MergeSpansSorted(init);
    var v := s[|s| - 1];
    var r := MergeSpansSorted(s);
    if i == |s| - 1 {
      if |m| == 0 || m[|m| - 1].x1 < v.x0 {
        assert r[|r| - 1] == v;
      } else {
        assert IsIn(v, r[|r| - 1]);
      }
    } else {
      assert s[i] == init[i];
      MergeSpansSortedCovers(init, i);
      var k :| 0 <= k < |m| && IsIn(s[i], m[k]);
      if |m| == 0 || m[|m| - 1].x1 < v.x0 {
        assert r[k] == m[k];
      } else if k < |m| - 1 {
        assert r[k] == m[k];
      } else {
        IsInOrder(s[i], m[k], r[|r| - 1]);
      }
    }
  }

  /** Every input box lies inside one of the merged boxes. */
  lemma MergeOverlappingSpansCovers(spans: seq<Box>, i: nat)
    requires i < |spans|
    ensures InSome(spans[i], MergeOverlappingSpans(spans))
  {
    var sorted := SortBy(spans, X0);
    assert spans[i] in multiset(sorted);
    var j :| 0 <= j < |sorted| && sorted[j] == spans[i];
    MergeSpansSortedCovers(sorted, j);
  }

  /** Each edge of a merged box is the same edge of some input box. */
  predicate EdgesFrom(b: Box, s: seq<Box>) {
    (exists i :: 0 <= i < |s| && b.x0 == s[i].x0) && (exists i :: 0 <= i < |s| && b.y0 == s[i].y0)
    && (exists i :: 0 <= i < |s| && b.x1 == s[i].x1) && (exists i :: 0 <= i < |s| && b.y1 == s[i].y1)
  }

  lemma EdgesFromGrow(b: Box, s: seq<Box>, t: seq<Box>)
    requires EdgesFrom(b, s) && multiset(s) <= multiset(t)
    ensures EdgesFrom(b, t)
  {
    var i0 :| 0 <= i0 < |s| && b.x0 == s[i0].x0;
    var i1 :| 0 <= i1 < |s| && b.y0 == s[i1].y0;
    var i2 :| 0 <= i2 < |s| && b.x1 == s[i2].x1;
    var i3 :| 0 <= i3 < |s| && b.y1 == s[i3].y1;
    assert s[i0] in multiset(t) && s[i1] in multiset(t) && s[i2] in multiset(t) && s[i3] in multiset(t);
  }

  lemma EdgesFromPrefix(b: Box, s: seq<Box>, v: Box)
    requires EdgesFrom(b, s)
    ensures EdgesFrom(b, s + [v])
  {
    var t := s + [v];
    var i0 :| 0 <= i0 < |s| && b.x0 == s[i0].x0;
    var i1 :| 0 <= i1 < |s| && b.y0 == s[i1].y0;
    var i2 :| 0 <= i2 < |s| && b.x1 == s[i2].x1;
    var i3 :| 0 <= i3 < |s| && b.y1 == s[i3].y1;
    assert t[i0] == s[i0] && t[i1] == s[i1] && t[i2] == s[i2] && t[i3] == s[i3];
  }

  lemma EdgesFromUnion(a: Box, b: Box, s: seq<Box>)
    requires EdgesFrom(a, s) && EdgesFrom(b, s)
    ensures EdgesFrom(UnionBox(a, b), s)
  {
  }

  /** One step of the merging loop keeps every edge an input edge. */
  lemma MergeSpansStepEdges(init: seq<Box>, v: Box, m: seq<Box>, r: seq<Box>)
    requires forall j :: 0 <= j < |m| ==> EdgesFrom(m[j], init)
    requires r == if |m| == 0 || m[|m| - 1].x1 < v.x0 then m + [v] else m[..|m| - 1] + [UnionBox(m[|m| - 1], v)]
    ensures forall k :: 0 <= k < |r| ==> EdgesFrom(r[k], init + [v])
  {
    var s := init + [v];
    assert EdgesFrom(v, s) by {
      assert s[|s| - 1] == v;
    }
    forall k | 0 <= k < |r| ensures EdgesFrom(r[k], s) {
      if k < |m| && (|m| == 0 || m[|m| - 1].x1 < v.x0 || k < |m| - 1) {
        assert r[k] == m[k];
        EdgesFromPrefix(m[k], init, v);
      } else if |m| == 0 || m[|m| - 1].x1 < v.x0 {
        assert r[k] == v;
      } else {
        EdgesFromPrefix(m[|m| - 1], init, v);
        EdgesFromUnion(m[|m| - 1], v, s);
      }
    }
  }

  lemma {:induction false} MergeSpansSortedEdges(s: seq<Box>)
    requires SortedBy(s, X0)
    ensures forall k :: 0 <= k < |MergeSpansSorted(s)| ==> EdgesFrom(MergeSpansSorted(s)[k], s)
    decreases |s|
  {
    if |s| > 0 {
      var init := s[..|s| - 1];
      MergeSpansSortedEdges(init);
      assert s == init + [s[|s| - 1]];
      MergeSpansStepEdges(init, s[|s| - 1], MergeSpansSorted(init), MergeSpansSorted(s));
    }
  }

  /** Merging never invents coordinates: every edge of a merged box is the
      same edge of an input box. */
  lemma MergeOverlappingSpansEdges(spans: seq<Box>, k: nat)
    requires k < |MergeOverlappingSpans(spans)|
    ensures EdgesFrom(MergeOverlappingSpans(spans)[k], spans)
  {
    var sorted := SortBy(spans, X0);
    MergeSpansSortedEdges(sorted);
    EdgesFromGrow(MergeOverlappingSpans(spans)[k], sorted, spans);
  }

  lemma {:induction false} MergeSpansSortedApart(s: seq<Box>)
    requires SortedBy(s, X0) && ApartX(s)
    ensures MergeSpansSorted(s) == s
    decreases |s|
  {
    if |s| > 0 {
      var init := s[..|s| - 1];
      MergeSpansSortedApart(init);
      assert s == init + [s[|s| - 1]];
    }
  }

  /** Boxes already apart are left as they are, so merging twice is merging
      once. */
  lemma MergeOverlappingSpansIdempotent(spans: seq<Box>)
    ensures MergeOverlappingSpans(MergeOverlappingSpans(spans)) == MergeOverlappingSpans(spans)
  {
    var r := MergeOverlappingSpans(spans);
    if |r| > 0 {
      SortBySorted(r, X0);
      MergeSpansSortedApart(r);
    }
  }

  // ---------------------------------------------------------------------
  // update_det_boxes
  // ---------------------------------------------------------------------

  /** The vertical overlap test divides by the lower of the two heights. */
  predicate ZeroMinHeight(tb: Box, f: Box) {
    MinR(tb.Height(), f.Height()) == 0.0
  }

  /** The formula's x-range masks the text box: their vertical overlap
      exceeds 0.8 of the lower height. */
  predicate Masks(tb: Box, f: Box)
    requires !ZeroMinHeight(tb, f)
  {
    OverlapsYExceedsThreshold(tb, f, 0.8)
  }

  /** The mask list of one level text box, built formula by formula;
      `None` when a formula makes the overlap test divide by zero, which
      raises `ZeroDivisionError`. */
  function MaskList(tb: Box, mfd: seq<Box>): (r: Option<seq<Interval>>)
    ensures r.None? <==> exists j :: 0 <= j < |mfd| && ZeroMinHeight(tb, mfd[j])
    ensures r.Some? ==> forall x :: Covered(r.value, x) <==> UnderFormula(tb, mfd, x)
  {
    if |mfd| == 0 then Some([])
    else
      var init, f := mfd[..|mfd| - 1], mfd[|mfd| - 1];
      assert forall j :: 0 <= j < |init| ==> init[j] == mfd[j];
      match MaskList(tb, init)
      case None => None
      case Some(ms) =>
        if ZeroMinHeight(tb, f) then None
        else if Masks(tb, f) then
          var r := ms + [Interval(f.x0, f.x1)];
          assert forall x :: Covered(r, x) <==> Covered(ms, x) || Within(x, Interval(f.x0, f.x1)) by {
            forall x ensures Covered(r, x) <==> Covered(ms, x) || Within(x, Interval(f.x0, f.x1)) {
              CoveredAppend(ms, [Interval(f.x0, f.x1)], x);
              CoveredOne(Interval(f.x0, f.x1), x);
            }
          }
          Some(r)
        else Some(ms)
  }

  /** A kept piece `[lo, hi]` of the text box's x-range as a level box with
      the text box's top and bottom. */
  function PieceQuad(tb: Box, iv: Interval): (q: Quad)
    ensures IsRect(q) && q.p1.y == tb.y0 && q.p3.y == tb.y1
  {
    BboxToPoints(Box(iv.lo, tb.y0, iv.hi, tb.y1))
  }

  function PieceQuads(tb: Box, ivs: seq<Interval>): (r: seq<Quad>)
    ensures |r| == |ivs| && forall k :: 0 <= k < |ivs| ==> r[k] == PieceQuad(tb, ivs[k])
  {
    if |ivs| == 0 then [] else [PieceQuad(tb, ivs[0])] + PieceQuads(tb, ivs[1..])
  }

  /** One level text box cut around the formulas that share its line. */
  function SplitBox(q: Quad, mfd: seq<Box>): (r: Option<seq<Quad>>)
    ensures r.None? <==> exists j :: 0 <= j < |mfd| && ZeroMinHeight(PointsToBbox(q), mfd[j])
    ensures r.Some? ==> forall k :: 0 <= k < |r.value| ==>
      IsRect(r.value[k]) && r.value[k].p1.y == q.p1.y && r.value[k].p3.y == q.p3.y
      && q.p1.x <= r.value[k].p1.x && r.value[k].p2.x <= q.p2.x
  {
    var tb := PointsToBbox(q);
    match MaskList(tb, mfd)
    case None => None
    case Some(ms) => Some(PieceQuads(tb, RemoveIntervals(Interval(tb.x0, tb.x1), ms)))
  }

  /** Some piece spans the column `x`. */
  predicate InPiece(ps: seq<Quad>, x: real) {
    exists k :: 0 <= k < |ps| && ps[k].p1.x <= x <= ps[k].p2.x
  }

  /** Some formula that masks the text box spans the column `x`. */
  predicate UnderFormula(tb: Box, mfd: seq<Box>, x: real) {
    exists j :: 0 <= j < |mfd| && !ZeroMinHeight(tb, mfd[j]) && Masks(tb, mfd[j])
      && Within(x, Interval(mfd[j].x0, mfd[j].x1))
  }

  lemma PiecesCovered(tb: Box, pieces: seq<Interval>, x: real)
    ensures InPiece(PieceQuads(tb, pieces), x) <==> Covered(pieces, x)
  {
    var ps := PieceQuads(tb, pieces);
    assert forall k :: 0 <= k < |ps| ==> ps[k].p1.x == pieces[k].lo && ps[k].p2.x == pieces[k].hi;
  }

  /** A pixel column is kept in some piece exactly when it lies in the text
      box and under no formula that masks it (whole-pixel coordinates). */
  lemma SplitBoxPoints(q: Quad, mfd: seq<Box>, x: int)
    requires SplitBox(q, mfd).Some?
    requires IsWhole(q.p1.x) && forall j :: 0 <= j < |mfd| ==> IsWhole(mfd[j].x0) && IsWhole(mfd[j].x1)
    ensures InPiece(SplitBox(q, mfd).value, x as real)
      <==> q.p1.x <= x as real <= q.p2.x && !UnderFormula(PointsToBbox(q), mfd, x as real)
  {
    var tb := PointsToBbox(q);
    var ms := MaskList(tb, mfd).value;
    assert AllWhole(ms) by {
      forall k | 0 <= k < |ms| ensures IsWhole(ms[k].lo) && IsWhole(ms[k].hi) {
        MaskListWhole(tb, mfd, k);
      }
    }
    RemoveIntervalsPoints(Interval(tb.x0, tb.x1), ms, x);
    PiecesCovered(tb, RemoveIntervals(Interval(tb.x0, tb.x1), ms), x as real);
  }

  lemma MaskListWhole(tb: Box, mfd: seq<Box>, k: nat)
    requires MaskList(tb, mfd).Some? && k < |MaskList(tb, mfd).value|
    requires forall j :: 0 <= j < |mfd| ==> IsWhole(mfd[j].x0) && IsWhole(mfd[j].x1)
    ensures IsWhole(MaskList(tb, mfd).value[k].lo) && IsWhole(MaskList(tb, mfd).value[k].hi)
    decreases |mfd|
  {
    var init := mfd[..|mfd| - 1];
    if k < |MaskList(tb, init).value| {
      MaskListWhole(tb, init, k);
    }
  }

  predicate NotAngled(q: Quad) {
    !CalculateIsAngle(q)
  }

  /** Some level text box and some formula have a zero lower height. */
  predicate DividesByZero(dt: seq<Quad>, mfd: seq<Box>) {
    exists i, j :: 0 <= i < |dt| && 0 <= j < |mfd| && NotAngled(dt[i]) && ZeroMinHeight(PointsToBbox(dt[i]), mfd[j])
  }

  /** The level boxes of the list, each cut around its formulas, in order. */
  function StraightBoxes(dt: seq<Quad>, mfd: seq<Box>): (r: Option<seq<Quad>>)
    ensures r.None? <==> DividesByZero(dt, mfd)
    ensures r.Some? ==> forall k :: 0 <= k < |r.value| ==> IsRect(r.value[k])
  {
    if |dt| == 0 then Some([])
    else
      var init, q := dt[..|dt| - 1], dt[|dt| - 1];
      assert forall i :: 0 <= i < |init| ==> init[i] == dt[i];
      match StraightBoxes(init, mfd)
      case None => None
      case Some(done) =>
        if CalculateIsAngle(q) then Some(done)
        else
          match SplitBox(q, mfd)
          case None => None
          case Some(ps) => Some(done + ps)
  }

  /** The output ends with the tilted boxes, and everything before them is
      a level box. */
  predicate TiltedLast(out: seq<Quad>, tilted: seq<Quad>) {
    |tilted| <= |out| && out[|out| - |tilted|..] == tilted
    && forall k :: 0 <= k < |out| - |tilted| ==> IsRect(out[k])
  }

  /** `update_det_boxes`: level text boxes are cut around the formulas on
      their line and tilted boxes follow, untouched, at the end; `None` when
      the overlap test divides by zero. */
  function UpdateDetBoxes(dt: seq<Quad>, mfd: seq<Box>): (r: Option<seq<Quad>>)
    ensures r.None? <==> DividesByZero(dt, mfd)
    ensures r.Some? ==> TiltedLast(r.value, Filter(dt, CalculateIsAngle))
  {
    match StraightBoxes(dt, mfd)
    case None => None
    case Some(ps) =>
      var tilted := Filter(dt, CalculateIsAngle);
      assert (ps + tilted)[|ps|..] == tilted;
      Some(ps + tilted)
  }

  /** A level box with its left edge not right of its right edge comes
      back unchanged when no formula touches it. */
  lemma SplitBoxNoFormulas(q: Quad)
    requires IsRect(q) && q.p1.x <= q.p2.x
    ensures SplitBox(q, []) == Some([q])
  {
    var tb := PointsToBbox(q);
    assert MaskList(tb, []) == Some([]);
    RemoveNoMasks(Interval(tb.x0, tb.x1));
    var ps := PieceQuads(tb, [Interval(tb.x0, tb.x1)]);
    assert |ps| == 1 && ps[0] == PieceQuad(tb, Interval(tb.x0, tb.x1));
    assert RemoveIntervals(Interval(tb.x0, tb.x1), []) == [Interval(tb.x0, tb.x1)];
    assert SplitBox(q, []) == Some(ps);
    PointsRoundTrip(tb, q);
    assert Box(tb.x0, tb.y0, tb.x1, tb.y1) == tb;
    assert ps == [q];
  }

  lemma {:induction false} StraightBoxesNoFormulas(dt: seq<Quad>)
    requires forall k :: 0 <= k < |dt| && NotAngled(dt[k]) ==> IsRect(dt[k]) && dt[k].p1.x <= dt[k].p2.x
    ensures StraightBoxes(dt, []) == Some(Filter(dt, NotAngled))
  {
    if |dt| > 0 {
      var init, q := dt[..|dt| - 1], dt[|dt| - 1];
      StraightBoxesNoFormulas(init);
      if NotAngled(q) {
        SplitBoxNoFormulas(q);
      }
    }
  }

  /** Without formulas nothing is cut: the level boxes (when they are
      rectangles) come first, then the tilted ones, so the result is a
      reordering of the input. */
  lemma UpdateDetBoxesNoFormulas(dt: seq<Quad>)
    requires forall k :: 0 <= k < |dt| && NotAngled(dt[k]) ==> IsRect(dt[k]) && dt[k].p1.x <= dt[k].p2.x
    ensures UpdateDetBoxes(dt, []) == Some(Filter(dt, NotAngled) + Filter(dt, CalculateIsAngle))
    ensures multiset(UpdateDetBoxes(dt, []).value) == multiset(dt)
  {
    StraightBoxesNoFormulas(dt);
    FilterUnion(dt, q => true, NotAngled, CalculateIsAngle);
    FilterAllTrue(dt, q => true);
  }
}
