/** The detection cleanup done when the page model is built (`MagicModel`):
    scaling to page coordinates, dropping degenerate and low-confidence
    detections, removing high-IoU duplicates and relabelling footnotes that
    belong to figures; and the conversion of detections into spans. */
module MagicModel {
  import opened Base
  import opened BoxBase
  import opened Layout

  /** A detection as the layout model reports it: a 4-value `bbox`, or
      else an 8-value `poly`, in image pixels. */
  datatype RawDet = RawDet(
    bbox: Option<Box>,
    poly: seq<real>,
    category: int,
    score: real,
    latex: Option<string>,
    html: Option<string>,
    text: Option<string>)

  /** A detection after `__fix_axis`: its `bbox` is in integer page units.
      `poly` stays in the record as in the source's dictionary. */
  datatype Det = Det(
    bbox: Box,
    poly: seq<real>,
    category: int,
    score: real,
    latex: Option<string>,
    html: Option<string>,
    text: Option<string>)

  /** `CategoryId.ImageFootnote`: the configuration module defining it is not
      part of this model; any id outside 0..9 behaves the same here. */
  const ImageFootnoteCategory: int := 101

  predicate HasCoords(d: RawDet) {
    d.bbox.Some? || |d.poly| == 8
  }

  /** The scaled box of one detection: each coordinate divided by the page's
      scale ratio and truncated by `int()`. */
  function ScaledBox(d: RawDet, hr: real, vr: real): Box
    requires hr != 0.0 && vr != 0.0
    requires HasCoords(d)
  {
    var x0 := if d.bbox.Some? then d.bbox.value.x0 else d.poly[0];
    var y0 := if d.bbox.Some? then d.bbox.value.y0 else d.poly[1];
    var x1 := if d.bbox.Some? then d.bbox.value.x1 else d.poly[4];
    var y1 := if d.bbox.Some? then d.bbox.value.y1 else d.poly[5];
    Box(Trunc(x0 / hr) as real, Trunc(y0 / vr) as real, Trunc(x1 / hr) as real, Trunc(y1 / vr) as real)
  }

  function Scale(d: RawDet, hr: real, vr: real): Det
    requires hr != 0.0 && vr != 0.0
    requires HasCoords(d)
  {
    Det(ScaledBox(d, hr, vr), d.poly, d.category, d.score, d.latex, d.html, d.text)
  }

  predicate Degenerate(d: Det) {
    d.bbox.x1 - d.bbox.x0 <= 0.0 || d.bbox.y1 - d.bbox.y0 <= 0.0
  }

  predicate NotDegenerate(d: Det) { !Degenerate(d) }

  /** `__fix_axis` for one page: scale every detection, then remove (by
      value) each one whose scaled box has no width or no height. */
  function FixAxis(raw: seq<RawDet>, hr: real, vr: real): (r: seq<Det>)
    requires hr != 0.0 && vr != 0.0
    requires forall d :: d in raw ==> HasCoords(d)
    ensures r == Filter(seq(|raw|, i requires 0 <= i < |raw| => Scale(raw[i], hr, vr)), NotDegenerate)
    ensures forall d :: d in r ==> d.bbox.WellFormed()
  {
    var scaled := seq(|raw|, i requires 0 <= i < |raw| => Scale(raw[i], hr, vr));
    RemoveAllFiltered(scaled, Degenerate, NotDegenerate);
    RemoveAll(scaled, Filter(scaled, Degenerate))
  }

  predicate LowConfidence(d: Det) { d.score <= 0.05 }
  predicate Confident(d: Det) { !LowConfidence(d) }

  /** `__fix_by_remove_low_confidence`: remove (by value) every detection
      scoring at most 0.05. */
  function RemoveLowConfidence(dets: seq<Det>): (r: seq<Det>)
    ensures r == Filter(dets, Confident)
    ensures forall d :: d in r ==> d.score > 0.05
  {
    RemoveAllFiltered(dets, LowConfidence, Confident);
    RemoveAll(dets, Filter(dets, LowConfidence))
  }

  predicate InCat09(d: Det) { 0 <= d.category <= 9 }

  /** Detections entering the IoU tests have boxes of positive area. */
  predicate AllWellFormed(dets: seq<Det>) {
    forall d :: d in dets ==> d.bbox.WellFormed()
  }

  /** The detection the pair `(d1, d2)` condemns, if any: the lower-scoring
      one, `d2` when the scores are equal. */
  function HighIouPick(d1: Det, d2: Det): Option<Det> {
    if d1 != d2 && InCat09(d1) && InCat09(d2) && IouAbove(d1.bbox, d2.bbox, 0.9) then
      Some(if d1.score < d2.score then d1 else d2)
    else None
  }

  /** `__fix_by_remove_high_iou_and_low_confidence`: collect the condemned
      detections over all ordered pairs, then remove them by value. */
  function RemoveHighIou(dets: seq<Det>): (r: seq<Det>)
    ensures multiset(r) <= multiset(dets)
    ensures forall d :: d in r ==> d in dets
  {
    var r := RemoveAll(dets, PairNeed(dets, HighIouPick, |dets|));
    assert forall d :: d in r ==> d in dets by {
      forall d | d in r ensures d in dets { assert d in multiset(r); }
    }
    r
  }

  /** `e` beats `d`: distinct detections of categories 0..9 whose IoU exceeds
      0.9, `d` scoring no higher. */
  predicate Beats(e: Det, d: Det) {
    d != e && InCat09(d) && InCat09(e) && IouAbove(d.bbox, e.bbox, 0.9) && d.score <= e.score
  }

  lemma PickBeaten(d1: Det, d2: Det)
    requires d1.bbox.WellFormed() && d2.bbox.WellFormed()
    requires HighIouPick(d1, d2).Some?
    ensures HighIouPick(d1, d2).value == d1 ==> Beats(d2, d1)
    ensures HighIouPick(d1, d2).value == d2 ==> Beats(d1, d2)
  {
    IouAboveSymmetric(d1.bbox, d2.bbox, 0.9);
  }

  lemma BeatenPicked(e: Det, x: Det)
    requires e.bbox.WellFormed() && x.bbox.WellFormed()
    requires Beats(e, x)
    ensures HighIouPick(x, e) == Some(x) || HighIouPick(e, x) == Some(x)
  {
    IouAboveSymmetric(x.bbox, e.bbox, 0.9);
  }

  /** A detection is condemned by some pair exactly when another detection
      beats it. */
  lemma PickedIffBeaten(dets: seq<Det>, x: Det)
    requires AllWellFormed(dets)
    requires x in dets
    ensures Picked(dets, HighIouPick, |dets|, x) <==> exists e :: e in dets && Beats(e, x)
  {
    if Picked(dets, HighIouPick, |dets|, x) {
      PickedBeaten(dets, x);
    }
    if exists e :: e in dets && Beats(e, x) {
      BeatenIsPicked(dets, x);
    }
  }

  lemma PickedBeaten(dets: seq<Det>, x: Det)
    requires AllWellFormed(dets)
    requires Picked(dets, HighIouPick, |dets|, x)
    ensures exists e :: e in dets && Beats(e, x)
  {
    var a, k :| 0 <= a < |dets| && 0 <= k < |dets| && HighIouPick(dets[a], dets[k]) == Some(x);
    PickBeaten(dets[a], dets[k]);
    if x == dets[a] {
      assert dets[k] in dets && Beats(dets[k], x);
    } else {
      assert dets[a] in dets && Beats(dets[a], x);
    }
  }

  lemma BeatenIsPicked(dets: seq<Det>, x: Det)
    requires AllWellFormed(dets)
    requires x in dets && exists e :: e in dets && Beats(e, x)
    ensures Picked(dets, HighIouPick, |dets|, x)
  {
    var e :| e in dets && Beats(e, x);
    var a :| 0 <= a < |dets| && dets[a] == x;
    var k :| 0 <= k < |dets| && dets[k] == e;
    BeatenPicked(e, x);
    if HighIouPick(x, e) == Some(x) {
      assert HighIouPick(dets[a], dets[k]) == Some(x);
    } else {
      assert HighIouPick(dets[k], dets[a]) == Some(x);
    }
  }

  /** On a duplicate-free page the pass removes exactly the detections beaten
      by another one. */
  lemma RemoveHighIouSpec(dets: seq<Det>)
    requires AllWellFormed(dets)
    requires Distinct(dets)
    ensures forall d :: d in RemoveHighIou(dets) <==> d in dets && !(exists e :: e in dets && Beats(e, d))
  {
    var need := PairNeed(dets, HighIouPick, |dets|);
    RemoveAllDistinct(dets, need);
    forall d | d in dets
      ensures d in need <==> exists e :: e in dets && Beats(e, d)
    {
      PairNeedMembers(dets, HighIouPick, |dets|, d);
      PickedIffBeaten(dets, d);
    }
  }

  /** With repeated detections, one copy of each beaten detection's value
      is removed and everything else keeps its multiplicity. */
  lemma RemoveHighIouCounts(dets: seq<Det>)
    requires AllWellFormed(dets)
    ensures forall d :: (multiset(RemoveHighIou(dets))[d]
                         == multiset(dets)[d] - (if d in dets && exists e :: e in dets && Beats(e, d) then 1 else 0))
  {
    PairNeedCounts(dets, HighIouPick);
    forall d ensures Picked(dets, HighIouPick, |dets|, d) <==> d in dets && exists e :: e in dets && Beats(e, d) {
      if d in dets {
        PickedIffBeaten(dets, d);
      }
    }
  }

  /** The three consequences the pass is meant to have: a strictly lower
      score loses, equal scores lose together, and detections outside
      categories 0..9 are never touched. */
  lemma RemoveHighIouOutcomes(dets: seq<Det>, d: Det, e: Det)
    requires AllWellFormed(dets)
    requires Distinct(dets)
    requires d in dets && e in dets
    ensures !InCat09(d) ==> d in RemoveHighIou(dets)
    ensures Beats(e, d) && d.score < e.score ==> d !in RemoveHighIou(dets)
    ensures Beats(e, d) && d.score == e.score ==> d !in RemoveHighIou(dets) && e !in RemoveHighIou(dets)
  {
    RemoveHighIouSpec(dets);
    if Beats(e, d) && d.score == e.score {
      IouAboveSymmetric(d.bbox, e.bbox, 0.9);
      assert Beats(d, e);
    }
  }

  // ---------------------------------------------------------------------
  // Footnote relabelling
  // ---------------------------------------------------------------------

  /** The two side lengths `_bbox_distance` compares: heights for a
      left/right relation, widths otherwise. */
  function SideLengths(a: Box, b: Box): (r: (real, real))
    ensures r.0 == a.Height() || r.0 == a.Width()
  {
    var p := RelativePos(a, b);
    if p.left || p.right then (a.Height(), b.Height()) else (a.Width(), b.Width())
  }

  /** `_bbox_distance` divides by `a`'s side when `b`'s side is longer. */
  predicate ModelDistanceDefined(a: Box, b: Box) {
    RelativePos(a, b).FlagCount() > 1 || SideLengths(a, b).1 <= SideLengths(a, b).0 || SideLengths(a, b).0 != 0.0
  }

  lemma ModelDistanceDefinedWellFormed(cands: seq<Det>, fn: Det)
    requires forall c :: c in cands ==> c.bbox.WellFormed()
    ensures forall c :: c in cands ==> ModelDistanceDefined(c.bbox, fn.bbox)
  {
  }

  /** `MagicModel._bbox_distance`: infinite for diagonal neighbours and
      when `b`'s compared side is more than 30% longer than `a`'s, else
      `bbox_distance`. */
  function ModelDistance(a: Box, b: Box, sqrt: real -> real): (r: Dist)
    requires ModelDistanceDefined(a, b)
    ensures RelativePos(a, b).FlagCount() > 1 ==> r == Inf
    ensures (RelativePos(a, b).FlagCount() <= 1 && SideLengths(a, b).1 > SideLengths(a, b).0
             && (SideLengths(a, b).1 - SideLengths(a, b).0) / SideLengths(a, b).0 > 0.3) ==> r == Inf
    ensures r.Fin? ==> r.v == BboxDistance(a, b, sqrt)
    ensures IsInOrPartOverlap(a, b) && SideLengths(a, b).1 <= SideLengths(a, b).0 ==> r == Fin(0.0)
  {
    var p := RelativePos(a, b);
    if p.FlagCount() > 1 then Inf
    else
      var (l1, l2) := SideLengths(a, b);
      if l2 > l1 && (l2 - l1) / l1 > 0.3 then Inf
      else Fin(BboxDistance(a, b, sqrt))
  }

  /** Python's `min(a, b)`: `a` unless `b` is strictly smaller. */
  function DMin(a: Dist, b: Dist): (r: Dist)
    ensures r == a || r == b
    ensures !a.Less(r) && !b.Less(r)
  {
    if b.Less(a) then b else a
  }

  predicate FootnoteCandidate(fn: Det, c: Det) {
    RelativePos(fn.bbox, c.bbox).FlagCount() <= 1
  }

  /** The `dis_figure_footnote[i]` / `dis_table_footnote[i]` entry: the
      least `_bbox_distance` from a candidate to footnote `fn`, over the
      candidates not diagonal to it; absent when there is none. */
  function Nearest(fn: Det, cands: seq<Det>, sqrt: real -> real): Option<Dist>
    requires forall c :: c in cands ==> ModelDistanceDefined(c.bbox, fn.bbox)
  {
    if |cands| == 0 then None
    else
      var init := cands[..|cands| - 1];
      var c := cands[|cands| - 1];
      assert forall x :: x in init ==> x in cands;
      var prev := Nearest(fn, init, sqrt);
      if !FootnoteCandidate(fn, c) then prev
      else
        Some(DMin(ModelDistance(c.bbox, fn.bbox, sqrt), if prev.Some? then prev.value else Inf))
  }

  /** The entry is absent exactly when no candidate qualifies; otherwise it
      is some qualifying candidate's distance and no qualifying candidate is
      strictly nearer. */
  lemma {:induction false} NearestSpec(fn: Det, cands: seq<Det>, sqrt: real -> real)
    requires forall c :: c in cands ==> ModelDistanceDefined(c.bbox, fn.bbox)
    ensures var r := Nearest(fn, cands, sqrt);
      (r.None? <==> forall c :: c in cands ==> !FootnoteCandidate(fn, c))
      && (r.Some? ==> exists c :: c in cands && FootnoteCandidate(fn, c) && r.value == ModelDistance(c.bbox, fn.bbox, sqrt))
      && (r.Some? ==> forall c :: c in cands && FootnoteCandidate(fn, c) ==> !ModelDistance(c.bbox, fn.bbox, sqrt).Less(r.value))
  {
    if |cands| > 0 {
      var init := cands[..|cands| - 1];
      var c := cands[|cands| - 1];
      assert forall x :: x in cands <==> x in init || x == c;
      NearestSpec(fn, init, sqrt);
    }
  }

  function OfCategory(dets: seq<Det>, c: int): seq<Det> {
    Filter(dets, (d: Det) => d.category == c)
  }

  /** Whether `__fix_footnote` relabels footnote `fn`: it has a figure
      candidate, and the nearest table (infinitely far when absent) is
      strictly farther than the nearest figure. */
  predicate RelabelFootnote(dets: seq<Det>, fn: Det, sqrt: real -> real)
    requires AllWellFormed(dets)
  {
    ModelDistanceDefinedWellFormed(OfCategory(dets, 3), fn);
    ModelDistanceDefinedWellFormed(OfCategory(dets, 5), fn);
    var fig := Nearest(fn, OfCategory(dets, 3), sqrt);
    var tab := Nearest(fn, OfCategory(dets, 5), sqrt);
    fn.category == 7 && fig.Some? && fig.value.Less(if tab.Some? then tab.value else Inf)
  }

  /** One detection after `__fix_footnote`. */
  function FixOne(dets: seq<Det>, fn: Det, sqrt: real -> real): Det
    requires AllWellFormed(dets)
  {
    if RelabelFootnote(dets, fn, sqrt) then fn.(category := ImageFootnoteCategory) else fn
  }

  /** `__fix_footnote`: category-7 detections closer to a figure than to any
      table become image footnotes; nothing else changes. */
  function FixFootnote(dets: seq<Det>, sqrt: real -> real): (r: seq<Det>)
    requires AllWellFormed(dets)
    ensures |r| == |dets|
    ensures forall k :: 0 <= k < |r| ==> r[k] == FixOne(dets, dets[k], sqrt)
  {
    seq(|dets|, k requires 0 <= k < |dets| => FixOne(dets, dets[k], sqrt))
  }

  /** A detection is relabelled exactly when it is a category-7 footnote with
      a figure candidate at a finite distance strictly nearer than every
      table candidate; only its category changes. */
  lemma FixOneSpec(dets: seq<Det>, fn: Det, sqrt: real -> real)
    requires AllWellFormed(dets)
    ensures FixOne(dets, fn, sqrt).bbox == fn.bbox && FixOne(dets, fn, sqrt).score == fn.score
    ensures FixOne(dets, fn, sqrt) != fn ==>
      fn.category == 7 && FixOne(dets, fn, sqrt).category == ImageFootnoteCategory
      && (exists f :: f in dets && f.category == 3 && FootnoteCandidate(fn, f)
            && ModelDistance(f.bbox, fn.bbox, sqrt).Fin?
            && (forall t :: t in dets && t.category == 5 && FootnoteCandidate(fn, t) ==>
                  ModelDistance(f.bbox, fn.bbox, sqrt).Less(ModelDistance(t.bbox, fn.bbox, sqrt))))
    ensures fn.category == 7
      && (exists f :: f in dets && f.category == 3 && FootnoteCandidate(fn, f)
            && ModelDistance(f.bbox, fn.bbox, sqrt).Fin?
            && (forall t :: t in dets && t.category == 5 && FootnoteCandidate(fn, t) ==>
                  ModelDistance(f.bbox, fn.bbox, sqrt).Less(ModelDistance(t.bbox, fn.bbox, sqrt))))
      ==> FixOne(dets, fn, sqrt) != fn
    ensures RelabelFootnote(dets, fn, sqrt) <==> FixOne(dets, fn, sqrt) != fn
  {
    if fn.category == 7
      && (exists f :: f in dets && f.category == 3 && FootnoteCandidate(fn, f)
            && ModelDistance(f.bbox, fn.bbox, sqrt).Fin?
            && (forall t :: t in dets && t.category == 5 && FootnoteCandidate(fn, t) ==>
                  ModelDistance(f.bbox, fn.bbox, sqrt).Less(ModelDistance(t.bbox, fn.bbox, sqrt)))) {
      var f :| f in dets && f.category == 3 && FootnoteCandidate(fn, f)
            && ModelDistance(f.bbox, fn.bbox, sqrt).Fin?
            && (forall t :: t in dets && t.category == 5 && FootnoteCandidate(fn, t) ==>
                  ModelDistance(f.bbox, fn.bbox, sqrt).Less(ModelDistance(t.bbox, fn.bbox, sqrt)));
      var figs := OfCategory(dets, 3);
      var tabs := OfCategory(dets, 5);
      ModelDistanceDefinedWellFormed(figs, fn);
      ModelDistanceDefinedWellFormed(tabs, fn);
      NearestSpec(fn, figs, sqrt);
      NearestSpec(fn, tabs, sqrt);
      assert f in figs;
      var fig := Nearest(fn, figs, sqrt);
      var tab := Nearest(fn, tabs, sqrt);
      if tab.Some? {
        var t :| t in tabs && FootnoteCandidate(fn, t) && tab.value == ModelDistance(t.bbox, fn.bbox, sqrt);
        assert t in dets && t.category == 5;
      }
      assert RelabelFootnote(dets, fn, sqrt);
    }
    if RelabelFootnote(dets, fn, sqrt) {
      var figs := OfCategory(dets, 3);
      var tabs := OfCategory(dets, 5);
      ModelDistanceDefinedWellFormed(figs, fn);
      ModelDistanceDefinedWellFormed(tabs, fn);
      var fig := Nearest(fn, figs, sqrt);
      var tab := Nearest(fn, tabs, sqrt);
      NearestSpec(fn, figs, sqrt);
      NearestSpec(fn, tabs, sqrt);
      var f :| f in figs && FootnoteCandidate(fn, f) && fig.value == ModelDistance(f.bbox, fn.bbox, sqrt);
      forall t | t in dets && t.category == 5 && FootnoteCandidate(fn, t)
        ensures ModelDistance(f.bbox, fn.bbox, sqrt).Less(ModelDistance(t.bbox, fn.bbox, sqrt))
      {
        assert t in tabs;
        LessNotLess(fig.value, tab.value, ModelDistance(t.bbox, fn.bbox, sqrt));
      }
    }
  }

  lemma FixFootnoteChangesOnlyFootnotes(dets: seq<Det>, sqrt: real -> real, k: nat)
    requires AllWellFormed(dets)
    requires k < |dets|
    ensures var r, fn := FixFootnote(dets, sqrt)[k], dets[k];
      r.bbox == fn.bbox && r.score == fn.score
      && (r != fn ==>
            fn.category == 7 && r.category == ImageFootnoteCategory
            && (exists f :: f in dets && f.category == 3 && FootnoteCandidate(fn, f)
                  && (forall t :: t in dets && t.category == 5 && FootnoteCandidate(fn, t) ==>
                        ModelDistance(f.bbox, fn.bbox, sqrt).Less(ModelDistance(t.bbox, fn.bbox, sqrt)))))
  {
    assert FixFootnote(dets, sqrt)[k] == FixOne(dets, dets[k], sqrt);
    FixOneSpec(dets, dets[k], sqrt);
  }

  lemma FixFootnoteKeeps(dets: seq<Det>, sqrt: real -> real)
    requires AllWellFormed(dets)
    ensures forall d :: d in FixFootnote(dets, sqrt) ==> d.bbox.WellFormed()
    ensures (forall d :: d in dets ==> d.score > 0.05) ==> forall d :: d in FixFootnote(dets, sqrt) ==> d.score > 0.05
  {
    var r := FixFootnote(dets, sqrt);
    forall d | d in r ensures exists e :: e in dets && e.bbox == d.bbox && e.score == d.score {
      var k :| 0 <= k < |r| && r[k] == d;
      assert r[k] == FixOne(dets, dets[k], sqrt);
      assert dets[k] in dets;
    }
  }

  lemma LessNotLess(a: Dist, b: Dist, c: Dist)
    requires a.Less(b) && !c.Less(b)
    ensures a.Less(c)
  {
  }

  /** The detections the page model keeps: `__fix_axis`, the confidence
      and IoU passes, then `__fix_footnote`. */
  function BuildPage(raw: seq<RawDet>, hr: real, vr: real, sqrt: real -> real): (r: seq<Det>)
    requires hr != 0.0 && vr != 0.0
    requires forall d :: d in raw ==> HasCoords(d)
    ensures forall d :: d in r ==> d.bbox.WellFormed() && d.score > 0.05
  {
    var c := RemoveHighIou(RemoveLowConfidence(FixAxis(raw, hr, vr)));
    FixFootnoteKeeps(c, sqrt);
    FixFootnote(c, sqrt)
  }

  // ---------------------------------------------------------------------
  // Spans from detections
  // ---------------------------------------------------------------------

  predicate SpanCategory(c: int) {
    c in {3, 5, 13, 14, 15}
  }

  /** The source looks up `latex` of equations and `text` of OCR lines
      unconditionally. */
  predicate SpanFieldsPresent(d: Det) {
    (d.category in {13, 14} ==> d.latex.Some?) && (d.category == 15 ==> d.text.Some?)
  }

  /** The span `get_all_spans` builds from a detection of a span category. */
  function DetToSpan(d: Det): (s: Span)
    requires SpanCategory(d.category) && SpanFieldsPresent(d)
    ensures s.bbox == d.bbox && s.score == d.score
    ensures d.category == 3 <==> s.kind == ContentType.Image
    ensures d.category == 5 <==> s.kind == ContentType.Table
    ensures d.category == 13 <==> s.kind == ContentType.InlineEquation
    ensures d.category == 14 <==> s.kind == ContentType.InterlineEquation
    ensures d.category == 15 <==> s.kind == ContentType.Text
  {
    var base := Span(d.bbox, ContentType.Image, d.score, None, None, None, None, false, false);
    if d.category == 3 then base
    else if d.category == 5 then
      if d.latex.Some? && d.latex.value != "" then base.(kind := ContentType.Table, latex := d.latex)
      else if d.html.Some? && d.html.value != "" then base.(kind := ContentType.Table, html := d.html)
      else base.(kind := ContentType.Table)
    else if d.category == 13 then base.(kind := ContentType.InlineEquation, content := d.latex)
    else if d.category == 14 then base.(kind := ContentType.InterlineEquation, content := d.latex)
    else base.(kind := ContentType.Text, content := d.text)
  }

  function SpansOf(dets: seq<Det>): seq<Span>
    requires forall d :: d in dets ==> SpanFieldsPresent(d)
  {
    if |dets| == 0 then []
    else
      var d := dets[|dets| - 1];
      SpansOf(dets[..|dets| - 1]) + (if SpanCategory(d.category) then [DetToSpan(d)] else [])
  }

  lemma {:induction false} SpansOfMembers(dets: seq<Det>, s: Span)
    requires forall d :: d in dets ==> SpanFieldsPresent(d)
    ensures s in SpansOf(dets) <==> exists d :: d in dets && SpanCategory(d.category) && DetToSpan(d) == s
  {
    if |dets| > 0 {
      SpansOfMembers(dets[..|dets| - 1], s);
      assert forall x :: x in dets <==> x in dets[..|dets| - 1] || x == dets[|dets| - 1];
    }
  }

  /** `get_all_spans`: one span per detection of categories 3, 5, 13, 14
      and 15, exact duplicates removed. */
  function GetAllSpans(dets: seq<Det>): (r: seq<Span>)
    requires forall d :: d in dets ==> SpanFieldsPresent(d)
    ensures Distinct(r)
    ensures forall s :: s in r <==> exists d :: d in dets && SpanCategory(d.category) && DetToSpan(d) == s
  {
    var all := SpansOf(dets);
    forall s ensures s in all <==> exists d :: d in dets && SpanCategory(d.category) && DetToSpan(d) == s {
      SpansOfMembers(dets, s);
    }
    Dedup(all)
  }
}
