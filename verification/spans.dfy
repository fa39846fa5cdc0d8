/** Span dedup, placement of spans into blocks and line formation
    (`OCRProcessor` in preprocessor/optimized_code.py and its functional
    twin preprocessor/ocr_dict_merge.py). */
module SpanOps {
  import opened Base
  import opened BoxBase
  import opened Layout
  import opened Conflict

  // ---------------------------------------------------------------------
  // Span dedup
  // ---------------------------------------------------------------------

  /** The span a pair with IoU above 0.9 condemns: the lower-scoring one,
      the second of the pair on equal scores. */
  function LowConfidenceChoice(a: Span, b: Span): (r: Option<Span>)
    ensures r.Some? <==> IouAbove(a.bbox, b.bbox, 0.9)
    ensures r.Some? && a != b ==> (r.value == a <==> a.score < b.score)
    ensures r.Some? ==> (r.value == a || r.value == b)
  {
    if IouAbove(a.bbox, b.bbox, 0.9) then Some(if a.score < b.score then a else b) else None
  }

  /** The `dropped_spans` list `remove_overlaps_low_confidence_spans` collects. */
  function LowConfidenceDropped(spans: seq<Span>): seq<Span> {
    GuardedNeed(spans, LowConfidenceChoice, |spans|)
  }

  /** Marks each dropped span with the `SPAN_OVERLAP` tag. */
  function TagOverlap(s: seq<Span>): (r: seq<Span>)
    ensures |r| == |s|
    ensures forall k :: 0 <= k < |s| ==> r[k] == s[k].(overlapTag := true)
  {
    if |s| == 0 then [] else TagOverlap(s[..|s| - 1]) + [s[|s| - 1].(overlapTag := true)]
  }

  /** The collected spans are spans of the input, each once, and removing
      them by value leaves the rest of the input. */
  lemma DroppedPartition(spans: seq<Span>, dropped: seq<Span>)
    requires Distinct(dropped)
    requires forall x :: x in dropped ==> x in spans
    ensures multiset(RemoveAll(spans, dropped)) + multiset(dropped) == multiset(spans)
    ensures |RemoveAll(spans, dropped)| + |dropped| == |spans|
  {
    DistinctSubMultiset(dropped, spans);
    RemoveAllPresent(spans, dropped);
  }

  /** `remove_overlaps_low_confidence_spans`: gives the kept spans and the
      dropped spans, the latter tagged. Together they are the input. */
  function RemoveOverlapsLowConfidenceSpans(spans: seq<Span>): (r: (seq<Span>, seq<Span>))
    ensures multiset(r.0) + multiset(LowConfidenceDropped(spans)) == multiset(spans)
    ensures |r.0| + |r.1| == |spans|
    ensures |r.1| == |LowConfidenceDropped(spans)|
    ensures forall k :: 0 <= k < |r.1| ==>
      r.1[k] == LowConfidenceDropped(spans)[k].(overlapTag := true)
  {
    var dropped := LowConfidenceDropped(spans);
    LowConfidenceDroppedFromInput(spans);
    DroppedPartition(spans, dropped);
    (RemoveAll(spans, dropped), TagOverlap(dropped))
  }

  lemma LowConfidenceDroppedFromInput(spans: seq<Span>)
    ensures Distinct(LowConfidenceDropped(spans))
    ensures forall x :: x in LowConfidenceDropped(spans) ==> x in spans
  {
    forall x | x in LowConfidenceDropped(spans) ensures x in spans {
      GuardedNeedMembers(spans, LowConfidenceChoice, |spans|, x);
    }
    if |spans| > 0 {
      GuardedNeedMembers(spans, LowConfidenceChoice, |spans|, spans[0]);
    }
  }

  /** No two different spans that both survive overlap by IoU above 0.9:
      one of any such pair is dropped. */
  lemma LowConfidenceSeparates(spans: seq<Span>, p: nat, q: nat)
    requires p < |spans| && q < |spans| && spans[p] != spans[q]
    requires IouAbove(spans[p].bbox, spans[q].bbox, 0.9)
    ensures spans[p] in LowConfidenceDropped(spans) || spans[q] in LowConfidenceDropped(spans)
  {
    if spans[p] !in LowConfidenceDropped(spans) && spans[q] !in LowConfidenceDropped(spans) {
      GuardedNeedCloses(spans, LowConfidenceChoice, p, q);
    }
  }

  /** Everything dropped is a span that lost a high-IoU comparison against
      some other span: it scored lower, or equal as the second of the pair. */
  lemma LowConfidenceDroppedLost(spans: seq<Span>, x: Span)
    requires x in LowConfidenceDropped(spans)
    ensures exists y :: (y in spans && y != x &&
      (LowConfidenceChoice(y, x) == Some(x) || LowConfidenceChoice(x, y) == Some(x)))
  {
    GuardedNeedMembers(spans, LowConfidenceChoice, |spans|, x);
    var a, k :| 0 <= a < |spans| && 0 <= k < |spans| && spans[a] != spans[k]
      && LowConfidenceChoice(spans[a], spans[k]) == Some(x);
    if spans[a] == x {
      assert LowConfidenceChoice(x, spans[k]) == Some(x);
    } else {
      assert LowConfidenceChoice(spans[a], x) == Some(x);
    }
  }

  /** For a single overlapping pair of different spans exactly one survives:
      the higher-scoring one, the first on equal scores. */
  lemma LowConfidencePair(a: Span, b: Span)
    requires a != b && IouAbove(a.bbox, b.bbox, 0.9)
    ensures LowConfidenceDropped([a, b]) == [if a.score < b.score then a else b]
    ensures RemoveOverlapsLowConfidenceSpans([a, b]).0 == [if a.score < b.score then b else a]
  {
    var s := [a, b];
    var lower := if a.score < b.score then a else b;
    assert GuardedRow(s, LowConfidenceChoice, 0, 1, []) == [];
    assert GuardedRow(s, LowConfidenceChoice, 0, 2, []) == [lower];
    assert GuardedNeed(s, LowConfidenceChoice, 1) == [lower];
    assert GuardedRow(s, LowConfidenceChoice, 1, 1, [lower]) == [lower];
    assert GuardedRow(s, LowConfidenceChoice, 1, 2, [lower]) == [lower];
    assert RemoveAll(s, [lower]) == RemoveFirst(s, lower);
  }

  /** `next(span for span in spans if span['bbox'] == box)`. */
  function FirstWithBbox(spans: seq<Span>, b: Box): (r: Option<Span>)
    ensures r.Some? ==> r.value in spans && r.value.bbox == b
    ensures r.None? <==> forall k :: 0 <= k < |spans| ==> spans[k].bbox != b
    ensures r.None? ==> forall x :: x in spans ==> x.bbox != b
  {
    if |spans| == 0 then None
    else if spans[0].bbox == b then Some(spans[0])
    else
      assert forall k :: 1 <= k < |spans| ==> spans[k] == spans[1..][k - 1];
      FirstWithBbox(spans[1..], b)
  }

  /** The span a pair condemns in `remove_overlaps_min_spans`: the first span
      of the list whose box is the smaller box of a pair overlapping by more
      than 0.65 of it. */
  function MinSpanChoice(spans: seq<Span>, a: Span, b: Span): (r: Option<Span>)
    ensures r.Some? ==> OverlapRatioToMinBox(a.bbox, b.bbox) > 0.65
    ensures OverlapRatioToMinBox(a.bbox, b.bbox) > 0.65 && a in spans && b in spans ==> r.Some?
    ensures r.Some? ==> r.value in spans
    ensures r.Some? ==> r.value.bbox == MinBoxIfOverlapByRatio(a.bbox, b.bbox, 0.65).value
  {
    match MinBoxIfOverlapByRatio(a.bbox, b.bbox, 0.65)
    case None => None
    case Some(m) =>
      FirstWithBbox(spans, m)
  }

  function MinSpanChooser(spans: seq<Span>): (Span, Span) -> Option<Span> {
    (a: Span, b: Span) => MinSpanChoice(spans, a, b)
  }

  /** The `dropped_spans` list `remove_overlaps_min_spans` collects. */
  function MinSpansDropped(spans: seq<Span>): seq<Span> {
    GuardedNeed(spans, MinSpanChooser(spans), |spans|)
  }

  /** `remove_overlaps_min_spans`: the kept spans and the tagged dropped ones,
      which together are the input. */
  function RemoveOverlapsMinSpans(spans: seq<Span>): (r: (seq<Span>, seq<Span>))
    ensures multiset(r.0) + multiset(MinSpansDropped(spans)) == multiset(spans)
    ensures |r.0| + |r.1| == |spans|
    ensures |r.1| == |MinSpansDropped(spans)|
    ensures forall k :: 0 <= k < |r.1| ==>
      r.1[k] == MinSpansDropped(spans)[k].(overlapTag := true)
  {
    var dropped := MinSpansDropped(spans);
    MinSpansDroppedFromInput(spans);
    DroppedPartition(spans, dropped);
    (RemoveAll(spans, dropped), TagOverlap(dropped))
  }

  lemma MinSpansDroppedFromInput(spans: seq<Span>)
    ensures Distinct(MinSpansDropped(spans))
    ensures forall x :: x in MinSpansDropped(spans) ==> x in spans
  {
    var choose := MinSpanChooser(spans);
    forall x | x in MinSpansDropped(spans) ensures x in spans {
      GuardedNeedMembers(spans, choose, |spans|, x);
    }
    if |spans| > 0 {
      GuardedNeedMembers(spans, choose, |spans|, spans[0]);
    }
  }

  /** Of two different surviving spans overlapping by more than 0.65 of the
      smaller box, a span with that smaller box was dropped; when boxes are
      unique in the list, this is the smaller span itself. */
  lemma MinSpansSeparates(spans: seq<Span>, p: nat, q: nat)
    requires p < |spans| && q < |spans| && spans[p] != spans[q]
    requires OverlapRatioToMinBox(spans[p].bbox, spans[q].bbox) > 0.65
    requires spans[p] !in MinSpansDropped(spans) && spans[q] !in MinSpansDropped(spans)
    ensures exists x :: (x in MinSpansDropped(spans) &&
      x.bbox == (if spans[p].bbox.Area() <= spans[q].bbox.Area() then spans[p].bbox else spans[q].bbox))
  {
    var choose := MinSpanChooser(spans);
    assert choose(spans[p], spans[q]) == MinSpanChoice(spans, spans[p], spans[q]);
    GuardedNeedCloses(spans, choose, p, q);
  }

  // ---------------------------------------------------------------------
  // Line formation
  // ---------------------------------------------------------------------

  function SpanX0(x: Span): real { x.bbox.x0 }
  function SpanY0(x: Span): real { x.bbox.y0 }

  predicate HasSpecial(line: seq<Span>) {
    exists x :: x in line && IsSpecialSpan(x.kind)
  }

  /** The y-overlap test between two spans. A zero smaller height is where
      the source raises `ZeroDivisionError`; `GroupChecked` stops there, so
      the `false` this gives for it is never used by a successful run. */
  predicate YJoins(a: Box, b: Box, thr: real) {
    MinR(a.Height(), b.Height()) != 0.0 && OverlapsYExceedsThreshold(a, b, thr)
  }

  /** Whether span `x` opens a new line after the current line `cur`: it is
      special, the line holds a special span, or `x` does not overlap the
      line's last span vertically by more than `thr`. */
  predicate StartsNewLine(cur: seq<Span>, x: Span, thr: real)
    requires |cur| > 0
  {
    IsSpecialSpan(x.kind) || HasSpecial(cur) || !YJoins(x.bbox, cur[|cur| - 1].bbox, thr)
  }

  /** One iteration of the line loop: span `x` joins the last line or
      opens a new one. */
  function Extend(prev: seq<seq<Span>>, x: Span, thr: real): (r: seq<seq<Span>>)
    requires forall i :: 0 <= i < |prev| ==> |prev[i]| > 0
    ensures |r| > 0 && forall i :: 0 <= i < |r| ==> |r[i]| > 0
    ensures Flatten(r) == Flatten(prev) + [x]
  {
    if |prev| == 0 then [[x]]
    else
      var cur := prev[|prev| - 1];
      if StartsNewLine(cur, x, thr) then
        FlattenSnoc(prev, [x]);
        prev + [[x]]
      else
        var init := prev[..|prev| - 1];
        assert prev == init + [cur];
        FlattenSnoc(init, cur);
        FlattenSnoc(init, cur + [x]);
        init + [cur + [x]]
  }

  /** The greedy line loop over spans already sorted by y0. */
  function Group(t: seq<Span>, thr: real): (r: seq<seq<Span>>)
    ensures |r| == 0 <==> |t| == 0
    ensures forall i :: 0 <= i < |r| ==> |r[i]| > 0
    ensures Flatten(r) == t
  {
    if |t| == 0 then []
    else
      assert t == t[..|t| - 1] + [t[|t| - 1]];
      Extend(Group(t[..|t| - 1], thr), t[|t| - 1], thr)
  }

  /** Whether placing span `x` after the line `cur` reaches the division of
      `__is_overlaps_y_exceeds_threshold` with a zero smaller height: both
      `x` and the line are free of special spans, so the y-overlap test
      runs, and one of the two compared spans has height 0. */
  predicate ZeroDivision(cur: seq<Span>, x: Span)
    requires |cur| > 0
  {
    !IsSpecialSpan(x.kind) && !HasSpecial(cur)
    && MinR(x.bbox.Height(), cur[|cur| - 1].bbox.Height()) == 0.0
  }

  /** The line loop as the source runs it: it stops (None) at the first
      span whose y-overlap test divides by zero. */
  function GroupChecked(t: seq<Span>, thr: real): (r: Option<seq<seq<Span>>>)
    ensures r.Some? ==> r.value == Group(t, thr)
  {
    if |t| == 0 then Some([])
    else
      match GroupChecked(t[..|t| - 1], thr)
      case None => None
      case Some(p) =>
        if |p| > 0 && ZeroDivision(p[|p| - 1], t[|t| - 1]) then None
        else Some(Extend(p, t[|t| - 1], thr))
  }

  /** Span `k` of the y0-sorted list is compared with span `k - 1` and one
      of the two has height 0. */
  predicate DividesAt(t: seq<Span>, k: int) {
    0 < k < |t| && !IsSpecialSpan(t[k].kind) && !IsSpecialSpan(t[k - 1].kind)
    && MinR(t[k].bbox.Height(), t[k - 1].bbox.Height()) == 0.0
  }

  /** Some neighbouring pair of plain spans has a zero-height member. */
  predicate DividesByZero(t: seq<Span>) {
    exists k :: 0 < k < |t| && DividesAt(t, k)
  }

  /** The last line the loop has built ends with the last span, and holds a
      special span exactly when that span is special. */
  lemma LastLine(t: seq<Span>, thr: real)
    requires |t| > 0
    ensures var g := Group(t, thr);
      |g| > 0 && g[|g| - 1][|g[|g| - 1]| - 1] == t[|t| - 1]
      && (HasSpecial(g[|g| - 1]) <==> IsSpecialSpan(t[|t| - 1].kind))
  {
    var x := t[|t| - 1];
    var prev := Group(t[..|t| - 1], thr);
    assert Group(t, thr) == Extend(prev, x, thr);
    if |prev| > 0 {
      var cur := prev[|prev| - 1];
      if !StartsNewLine(cur, x, thr) {
        var line := cur + [x];
        assert !HasSpecial(line) by {
          forall y | y in line ensures !IsSpecialSpan(y.kind) {
            assert y in cur || y == x;
          }
        }
      }
    }
  }

  /** The checked loop fails on a prefix exactly when that prefix has a
      zero-height compared pair. */
  lemma DividesPrefix(t: seq<Span>)
    requires |t| > 0
    ensures DividesByZero(t) <==> DividesByZero(t[..|t| - 1]) || DividesAt(t, |t| - 1)
  {
    var p := t[..|t| - 1];
    if DividesByZero(t) {
      var k :| 0 < k < |t| && DividesAt(t, k);
      if k < |t| - 1 {
        assert p[k] == t[k] && p[k - 1] == t[k - 1];
        assert DividesAt(p, k);
      }
    }
    if DividesByZero(p) {
      var k :| 0 < k < |p| && DividesAt(p, k);
      assert p[k] == t[k] && p[k - 1] == t[k - 1];
      assert DividesAt(t, k);
    }
  }

  /** The loop raises exactly when two neighbouring plain spans of the
      y0-sorted list include one of height 0: the last span of the current
      line is always the previous span, and a special span is alone. */
  lemma {:induction false} GroupCheckedFails(t: seq<Span>, thr: real)
    ensures GroupChecked(t, thr).None? <==> DividesByZero(t)
  {
    if |t| > 0 {
      var p := t[..|t| - 1];
      GroupCheckedFails(p, thr);
      DividesPrefix(t);
      if |p| > 0 {
        LastLine(p, thr);
        var g := Group(p, thr);
        assert p[|p| - 1] == t[|t| - 2];
        assert ZeroDivision(g[|g| - 1], t[|t| - 1]) <==> DividesAt(t, |t| - 1);
      } else {
        assert !DividesAt(t, |t| - 1);
      }
    }
  }

  /** The declarative description of a line split: lines are non-empty; a
      span stays on its predecessor's line exactly when it does not start a
      new line after the part of the line before it. */
  ghost predicate WellGrouped(r: seq<seq<Span>>, thr: real) {
    (forall i :: 0 <= i < |r| ==> |r[i]| > 0)
    && (forall i, k :: 0 <= i < |r| && 0 < k < |r[i]| ==> !StartsNewLine(r[i][..k], r[i][k], thr))
    && (forall i, j :: 0 <= i < j < |r| && j == i + 1 ==> |r[i]| > 0 && |r[j]| > 0 && StartsNewLine(r[i], r[j][0], thr))
  }

  /** One iteration keeps a split well grouped. */
  lemma ExtendWellGrouped(prev: seq<seq<Span>>, x: Span, thr: real)
    requires WellGrouped(prev, thr)
    ensures WellGrouped(Extend(prev, x, thr), thr)
  {
    if |prev| == 0 {
      assert Extend(prev, x, thr) == [[x]];
    } else {
      var cur := prev[|prev| - 1];
      var p := prev[..|prev| - 1];
      assert prev == p + [cur];
      if StartsNewLine(cur, x, thr) {
        assert Extend(prev, x, thr) == prev + [[x]];
        OpenWellGrouped(prev, x, thr);
      } else {
        assert Extend(prev, x, thr) == p + [cur + [x]];
        JoinWellGrouped(p, cur, x, thr);
      }
    }
  }

  /** A span that starts a new line opens one. */
  lemma OpenWellGrouped(prev: seq<seq<Span>>, x: Span, thr: real)
    requires WellGrouped(prev, thr) && |prev| > 0 && StartsNewLine(prev[|prev| - 1], x, thr)
    ensures WellGrouped(prev + [[x]], thr)
  {
    var r := prev + [[x]];
    assert forall i :: 0 <= i < |prev| ==> r[i] == prev[i];
  }

  /** A span that does not start a new line joins the last one. */
  lemma JoinWellGrouped(p: seq<seq<Span>>, cur: seq<Span>, x: Span, thr: real)
    requires |cur| > 0 && WellGrouped(p + [cur], thr) && !StartsNewLine(cur, x, thr)
    ensures WellGrouped(p + [cur + [x]], thr)
  {
    var prev := p + [cur];
    var line := cur + [x];
    var r := p + [line];
    assert forall i :: 0 <= i < |p| ==> r[i] == prev[i];
    assert line[..|cur|] == cur;
    forall k | 0 < k < |line| ensures !StartsNewLine(line[..k], line[k], thr) {
      if k < |cur| {
        assert line[..k] == cur[..k] && line[k] == cur[k];
        assert prev[|p|] == cur;
      }
    }
    forall i, j | 0 <= i < j < |r| && j == i + 1 ensures StartsNewLine(r[i], r[j][0], thr) {
      assert r[i] == prev[i] && r[j][0] == prev[j][0];
    }
  }

  lemma {:induction false} GroupWellGrouped(t: seq<Span>, thr: real)
    ensures WellGrouped(Group(t, thr), thr)
  {
    if |t| > 0 {
      GroupWellGrouped(t[..|t| - 1], thr);
      ExtendWellGrouped(Group(t[..|t| - 1], thr), t[|t| - 1], thr);
    }
  }

  /** A line of two or more spans holds no special span. */
  lemma WellGroupedPlain(r: seq<seq<Span>>, thr: real, i: nat)
    requires WellGrouped(r, thr) && i < |r| && |r[i]| > 1
    ensures forall k :: 0 <= k < |r[i]| ==> !IsSpecialSpan(r[i][k].kind)
  {
    var line := r[i];
    assert !StartsNewLine(line[..1], line[1], thr);
    assert line[0] in line[..1];
    forall k | 0 < k < |line| ensures !IsSpecialSpan(line[k].kind) {
      assert !StartsNewLine(line[..k], line[k], thr);
    }
  }

  /** A special span (interline equation, image, table) is alone on its line. */
  lemma WellGroupedSpecialAlone(r: seq<seq<Span>>, thr: real, i: nat, k: nat)
    requires WellGrouped(r, thr)
    requires i < |r| && k < |r[i]| && IsSpecialSpan(r[i][k].kind)
    ensures |r[i]| == 1
  {
    if |r[i]| > 1 {
      WellGroupedPlain(r, thr, i);
    }
  }

  lemma WellGroupedInit(r: seq<seq<Span>>, thr: real)
    requires WellGrouped(r, thr) && |r| > 0
    ensures WellGrouped(r[..|r| - 1], thr)
  {
    var a := r[..|r| - 1];
    assert forall i :: 0 <= i < |a| ==> a[i] == r[i];
  }

  lemma WellGroupedTrim(r: seq<seq<Span>>, thr: real)
    requires WellGrouped(r, thr) && |r| > 0 && |r[|r| - 1]| > 1
    ensures WellGrouped(r[..|r| - 1] + [r[|r| - 1][..|r[|r| - 1]| - 1]], thr)
  {
    var last := r[|r| - 1];
    LastSplit(r);
    ShortenLastWellGrouped(r[..|r| - 1], last, last[..|last| - 1], thr);
  }

  /** A non-empty prefix of the last line may stand in for it. */
  lemma ShortenLastWellGrouped(p: seq<seq<Span>>, cur: seq<Span>, line: seq<Span>, thr: real)
    requires WellGrouped(p + [cur], thr)
    requires 0 < |line| <= |cur| && line == cur[..|line|]
    ensures WellGrouped(p + [line], thr)
  {
    var prev := p + [cur];
    var a := p + [line];
    assert forall i :: 0 <= i < |p| ==> a[i] == prev[i];
    assert prev[|p|] == cur && a[|p|] == line;
    forall k | 0 < k < |line| ensures !StartsNewLine(line[..k], line[k], thr) {
      assert line[..k] == cur[..k] && line[k] == cur[k];
    }
    forall i | 0 < i < |a| ensures StartsNewLine(a[i - 1], a[i][0], thr) {
      assert a[i - 1] == prev[i - 1] && a[i][0] == prev[i][0];
    }
  }

  /** A well-grouped split without its last span. */
  function Peel(r: seq<seq<Span>>): seq<seq<Span>>
    requires |r| > 0 && |r[|r| - 1]| > 0
  {
    var last := r[|r| - 1];
    if |last| == 1 then r[..|r| - 1] else r[..|r| - 1] + [last[..|last| - 1]]
  }

  lemma PeelSingle(r: seq<seq<Span>>, thr: real)
    requires WellGrouped(r, thr) && |r| > 0 && |r[|r| - 1]| == 1
    ensures WellGrouped(Peel(r), thr)
    ensures Flatten(r) == Flatten(Peel(r)) + r[|r| - 1]
    ensures r == Extend(Peel(r), r[|r| - 1][0], thr)
  {
    var p := r[..|r| - 1];
    WellGroupedInit(r, thr);
    assert r == p + [r[|r| - 1]];
    FlattenSnoc(p, r[|r| - 1]);
    assert r[|r| - 1] == [r[|r| - 1][0]];
    if |p| > 0 {
      assert StartsNewLine(r[|r| - 2], r[|r| - 1][0], thr);
    }
  }

  lemma PeelLonger(r: seq<seq<Span>>, thr: real)
    requires WellGrouped(r, thr) && |r| > 0 && |r[|r| - 1]| > 1
    ensures WellGrouped(Peel(r), thr)
    ensures Flatten(r) == Flatten(Peel(r)) + [r[|r| - 1][|r[|r| - 1]| - 1]]
    ensures r == Extend(Peel(r), r[|r| - 1][|r[|r| - 1]| - 1], thr)
  {
    var last := r[|r| - 1];
    var x := last[|last| - 1];
    var p := r[..|r| - 1];
    var l' := last[..|last| - 1];
    WellGroupedTrim(r, thr);
    assert r == p + [last];
    LastSplit(last);
    FlattenSnoc(p, last);
    FlattenSnoc(p, l');
    assert !StartsNewLine(last[..|last| - 1], last[|last| - 1], thr);
    assert (p + [l'])[..|p|] == p;
  }

  /** Line formation inverts flattening on well-grouped splits. */
  lemma {:induction false} GroupFlatten(r: seq<seq<Span>>, thr: real)
    requires WellGrouped(r, thr)
    ensures Group(Flatten(r), thr) == r
    decreases |Flatten(r)|
  {
    if |r| > 0 {
      var t := Flatten(r);
      var last := r[|r| - 1];
      if |last| == 1 {
        PeelSingle(r, thr);
      } else {
        PeelLonger(r, thr);
      }
      GroupFlatten(Peel(r), thr);
      assert t[..|t| - 1] == Flatten(Peel(r));
    }
  }

  /** The split is determined by the spans: two well-grouped splits of the
      same sequence are equal. With `GroupWellGrouped` this makes
      `WellGrouped` an independent definition of the line loop. */
  lemma WellGroupedUnique(a: seq<seq<Span>>, b: seq<seq<Span>>, thr: real)
    requires WellGrouped(a, thr) && WellGrouped(b, thr)
    requires Flatten(a) == Flatten(b)
    ensures a == b
  {
    GroupFlatten(a, thr);
    GroupFlatten(b, thr);
  }

  lemma SortedMembers(spans: seq<Span>, key: Span -> real)
    ensures forall x :: x in SortBy(spans, key) <==> x in spans
  {
    var t := SortBy(spans, key);
    forall x ensures x in t <==> x in spans {
      assert x in t <==> x in multiset(t);
      assert x in spans <==> x in multiset(spans);
    }
  }

  /** `merge_spans_to_line`: the spans sorted by y0 (stably), cut into
      lines; None where the y-overlap test divides by zero. */
  function MergeSpansToLine(spans: seq<Span>, thr: real): (r: Option<seq<seq<Span>>>)
    ensures r.None? <==> DividesByZero(SortBy(spans, SpanY0))
    ensures |spans| == 0 ==> r == Some([])
    ensures r.Some? ==> Flatten(r.value) == SortBy(spans, SpanY0)
    ensures r.Some? ==> WellGrouped(r.value, thr)
  {
    GroupCheckedFails(SortBy(spans, SpanY0), thr);
    GroupWellGrouped(SortBy(spans, SpanY0), thr);
    GroupChecked(SortBy(spans, SpanY0), thr)
  }

  /** Interline equations, images and tables end up alone on their line. */
  lemma MergeSpansSpecialAlone(spans: seq<Span>, thr: real, i: nat, k: nat)
    requires MergeSpansToLine(spans, thr).Some?
    requires i < |MergeSpansToLine(spans, thr).value| && k < |MergeSpansToLine(spans, thr).value[i]|
    requires IsSpecialSpan(MergeSpansToLine(spans, thr).value[i][k].kind)
    ensures |MergeSpansToLine(spans, thr).value[i]| == 1
  {
    WellGroupedSpecialAlone(MergeSpansToLine(spans, thr).value, thr, i, k);
  }

  /** Line formation is exactly the unique well-grouped split of the
      y0-sorted spans, unless a compared pair has a zero-height member. */
  lemma MergeSpansCharacterized(spans: seq<Span>, thr: real, lines: seq<seq<Span>>)
    requires WellGrouped(lines, thr) && Flatten(lines) == SortBy(spans, SpanY0)
    ensures MergeSpansToLine(spans, thr) ==
      if DividesByZero(SortBy(spans, SpanY0)) then None else Some(lines)
  {
    if MergeSpansToLine(spans, thr).Some? {
      WellGroupedUnique(MergeSpansToLine(spans, thr).value, lines, thr);
    }
  }

  /** A lone span forms its own line whatever its height: the y-overlap
      test never runs. */
  lemma MergeSpansSingle(x: Span, thr: real)
    ensures MergeSpansToLine([x], thr) == Some([[x]])
  {
    var t := SortBy([x], SpanY0);
    assert multiset(t) == multiset([x]);
    assert |t| == 1 && t[0] in multiset(t);
    assert t == [x];
    assert !DividesAt(t, 0);
    assert Group(t, thr) == [[x]] by {
      assert t[..0] == [];
    }
  }

  function Boxes(spans: seq<Span>): (r: seq<Box>)
    ensures |r| == |spans|
    ensures forall k :: 0 <= k < |spans| ==> r[k] == spans[k].bbox
  {
    if |spans| == 0 then [] else Boxes(spans[..|spans| - 1]) + [spans[|spans| - 1].bbox]
  }

  /** One line of `line_sort_spans_by_left_to_right`: spans in x0 order and
      the line box `[min x0, min y0, max x1, max y1]` of its spans. */
  function SortLine(line: seq<Span>): Line
    requires |line| > 0
  {
    var sorted := SortBy(line, SpanX0);
    LineOf(Hull(Boxes(sorted)), sorted)
  }

  /** The sorted line keeps its spans, in x0 order, and its box is the
      tightest box around them. */
  lemma SortLineSpec(line: seq<Span>)
    requires |line| > 0
    ensures SortedBy(SortLine(line).spans, SpanX0) && multiset(SortLine(line).spans) == multiset(line)
    ensures forall x :: x in line ==> IsIn(x.bbox, SortLine(line).bbox)
    ensures exists x :: x in line && x.bbox.x0 == SortLine(line).bbox.x0
    ensures exists x :: x in line && x.bbox.y0 == SortLine(line).bbox.y0
    ensures exists x :: x in line && x.bbox.x1 == SortLine(line).bbox.x1
    ensures exists x :: x in line && x.bbox.y1 == SortLine(line).bbox.y1
    ensures SortLine(line).index.None? && !SortLine(line).listStart && !SortLine(line).listEnd
  {
    var sorted := SortBy(line, SpanX0);
    SortedMembers(line, SpanX0);
    var bs := Boxes(sorted);
    var h := Hull(bs);
    forall x | x in line ensures IsIn(x.bbox, h) {
      var k :| 0 <= k < |sorted| && sorted[k] == x;
      assert bs[k] == x.bbox;
    }
    HullWitness(line, sorted);
  }

  /** Each side of the line box is the side of one of the line's spans. */
  lemma HullWitness(line: seq<Span>, sorted: seq<Span>)
    requires |sorted| > 0 && forall x :: x in sorted <==> x in line
    ensures exists x :: x in line && x.bbox.x0 == Hull(Boxes(sorted)).x0
    ensures exists x :: x in line && x.bbox.y0 == Hull(Boxes(sorted)).y0
    ensures exists x :: x in line && x.bbox.x1 == Hull(Boxes(sorted)).x1
    ensures exists x :: x in line && x.bbox.y1 == Hull(Boxes(sorted)).y1
  {
    var bs := Boxes(sorted);
    var h := Hull(bs);
    var k0 :| 0 <= k0 < |bs| && h.x0 == bs[k0].x0;
    var k1 :| 0 <= k1 < |bs| && h.y0 == bs[k1].y0;
    var k2 :| 0 <= k2 < |bs| && h.x1 == bs[k2].x1;
    var k3 :| 0 <= k3 < |bs| && h.y1 == bs[k3].y1;
    assert sorted[k0] in sorted && sorted[k1] in sorted && sorted[k2] in sorted && sorted[k3] in sorted;
  }

  /** `line_sort_spans_by_left_to_right`. */
  function LineSortSpansByLeftToRight(lines: seq<seq<Span>>): (r: seq<Line>)
    requires forall i :: 0 <= i < |lines| ==> |lines[i]| > 0
    ensures |r| == |lines|
  {
    if |lines| == 0 then []
    else LineSortSpansByLeftToRight(lines[..|lines| - 1]) + [SortLine(lines[|lines| - 1])]
  }

  /** Line `i` of the result is line `i` of the input, sorted. */
  lemma {:induction false} LineSortAt(lines: seq<seq<Span>>, i: nat)
    requires forall i :: 0 <= i < |lines| ==> |lines[i]| > 0
    requires i < |lines|
    ensures LineSortSpansByLeftToRight(lines)[i] == SortLine(lines[i])
  {
    if i < |lines| - 1 {
      LineSortAt(lines[..|lines| - 1], i);
    }
  }

  /** Every resulting line is non-empty and in x0 order. */
  lemma LineSortSorted(lines: seq<seq<Span>>)
    requires forall i :: 0 <= i < |lines| ==> |lines[i]| > 0
    ensures forall i :: 0 <= i < |lines| ==> (SortedBy(LineSortSpansByLeftToRight(lines)[i].spans, SpanX0)
      && |LineSortSpansByLeftToRight(lines)[i].spans| > 0)
  {
    forall i | 0 <= i < |lines| ensures SortedBy(LineSortSpansByLeftToRight(lines)[i].spans, SpanX0)
      && |LineSortSpansByLeftToRight(lines)[i].spans| > 0 {
      LineSortAt(lines, i);
      SortLineSpec(lines[i]);
      var l := SortLine(lines[i]);
      assert |l.spans| == |multiset(l.spans)| == |multiset(lines[i])| == |lines[i]|;
    }
  }

  /** All spans of a list of lines, in order. */
  function LineSpans(lines: seq<Line>): seq<Span> {
    if |lines| == 0 then [] else LineSpans(lines[..|lines| - 1]) + lines[|lines| - 1].spans
  }

  lemma LineSpansSnoc(ls: seq<Line>, l: Line)
    ensures LineSpans(ls + [l]) == LineSpans(ls) + l.spans
  {
    assert (ls + [l])[..|ls|] == ls;
  }

  /** Sorting within lines keeps every span, with its multiplicity. */
  lemma {:induction false} LineSortKeepsSpans(lines: seq<seq<Span>>)
    requires forall i :: 0 <= i < |lines| ==> |lines[i]| > 0
    ensures multiset(LineSpans(LineSortSpansByLeftToRight(lines))) == multiset(Flatten(lines))
  {
    if |lines| > 0 {
      var init := lines[..|lines| - 1];
      var last := lines[|lines| - 1];
      LineSortKeepsSpans(init);
      var ri := LineSortSpansByLeftToRight(init);
      var l := SortLine(last);
      assert LineSortSpansByLeftToRight(lines) == ri + [l];
      LineSpansSnoc(ri, l);
      LastSplit(lines);
      FlattenSnoc(init, last);
      assert multiset(l.spans) == multiset(last) by { SortLineSpec(last); }
    }
  }

  // ---------------------------------------------------------------------
  // Span placement
  // ---------------------------------------------------------------------

  /** A block takes a span when more than `radio` of the span's area lies in it. */
  predicate Hosts(b: PreBlock, x: Span, radio: real) {
    OverlapRatioInFirst(x.bbox, b.bbox) > radio
  }

  function HostedBy(b: PreBlock, radio: real): Span -> bool {
    x => Hosts(b, x, radio)
  }

  function NotHostedBy(b: PreBlock, radio: real): Span -> bool {
    x => !Hosts(b, x, radio)
  }

  /** The first block that takes the span, if any. */
  function FirstHost(blocks: seq<PreBlock>, x: Span, radio: real): (r: Option<nat>)
    ensures r.Some? ==> r.value < |blocks|
  {
    if |blocks| == 0 then None
    else if Hosts(blocks[0], x, radio) then Some(0)
    else
      var rest := FirstHost(blocks[1..], x, radio);
      if rest.Some? then Some(rest.value + 1) else None
  }

  /** `FirstHost` finds the first hosting block, and none when no block hosts. */
  lemma {:induction false} FirstHostSpec(blocks: seq<PreBlock>, x: Span, radio: real)
    ensures FirstHost(blocks, x, radio).Some? ==>
      Hosts(blocks[FirstHost(blocks, x, radio).value], x, radio)
      && forall j :: 0 <= j < FirstHost(blocks, x, radio).value ==> !Hosts(blocks[j], x, radio)
    ensures FirstHost(blocks, x, radio).None? <==> forall j :: 0 <= j < |blocks| ==> !Hosts(blocks[j], x, radio)
  {
    if |blocks| > 0 && !Hosts(blocks[0], x, radio) {
      FirstHostSpec(blocks[1..], x, radio);
      assert forall j :: 1 <= j < |blocks| ==> blocks[j] == blocks[1..][j - 1];
    }
  }

  /** The `block_dict` of a block and its spans: `group_id` only for the six
      image/table kinds. */
  function Filled(b: PreBlock, spans: seq<Span>): FilledBlock {
    FilledBlock(b.kind, b.bbox, if IsGroupKind(b.kind) then b.groupId else None, spans)
  }

  function AllPlaced(bs: seq<FilledBlock>): seq<Span> {
    if |bs| == 0 then [] else bs[0].spans + AllPlaced(bs[1..])
  }

  lemma {:induction false} FilterSplit<T(!new)>(s: seq<T>, p: T -> bool, q: T -> bool)
    requires forall x :: q(x) == !p(x)
    ensures multiset(Filter(s, p)) + multiset(Filter(s, q)) == multiset(s)
  {
    if |s| > 0 {
      FilterSplit(s[..|s| - 1], p, q);
      assert s == s[..|s| - 1] + [s[|s| - 1]];
    }
  }

  /** `fill_spans_in_blocks`: each block in turn takes every remaining span
      it hosts; what no block took is returned. Placed and leftover spans
      together are the input. */
  function FillSpansInBlocks(blocks: seq<PreBlock>, spans: seq<Span>, radio: real): (r: (seq<FilledBlock>, seq<Span>))
    ensures |r.0| == |blocks|
    ensures forall k :: 0 <= k < |blocks| ==>
      r.0[k].kind == blocks[k].kind && r.0[k].bbox == blocks[k].bbox
      && r.0[k].groupId == (if IsGroupKind(blocks[k].kind) then blocks[k].groupId else None)
    decreases |blocks|
  {
    if |blocks| == 0 then ([], spans)
    else
      var b := blocks[0];
      var placed := Filter(spans, HostedBy(b, radio));
      var rest := FillSpansInBlocks(blocks[1..], RemoveAll(spans, placed), radio);
      var out := [Filled(b, placed)] + rest.0;
      assert out[1..] == rest.0;
      assert forall k :: 1 <= k < |blocks| ==> blocks[k] == blocks[1..][k - 1] && out[k] == rest.0[k - 1];
      (out, rest.1)
  }

  /** Placed and leftover spans together are the input. */
  lemma {:induction false} FillSpansPartition(blocks: seq<PreBlock>, spans: seq<Span>, radio: real)
    ensures multiset(AllPlaced(FillSpansInBlocks(blocks, spans, radio).0))
      + multiset(FillSpansInBlocks(blocks, spans, radio).1) == multiset(spans)
    decreases |blocks|
  {
    if |blocks| > 0 {
      var b := blocks[0];
      var placed := Filter(spans, HostedBy(b, radio));
      var rem := RemoveAll(spans, placed);
      RemoveAllFiltered(spans, HostedBy(b, radio), NotHostedBy(b, radio));
      FilterSplit(spans, HostedBy(b, radio), NotHostedBy(b, radio));
      FillSpansPartition(blocks[1..], rem, radio);
      var r := FillSpansInBlocks(blocks, spans, radio);
      assert r.0[0].spans == placed && r.0[1..] == FillSpansInBlocks(blocks[1..], rem, radio).0;
      assert AllPlaced(r.0) == placed + AllPlaced(r.0[1..]);
    }
  }

  function FirstHostIs(blocks: seq<PreBlock>, radio: real, k: nat): Span -> bool {
    x => FirstHost(blocks, x, radio) == Some(k)
  }

  function Unhosted(blocks: seq<PreBlock>, radio: real): Span -> bool {
    x => FirstHost(blocks, x, radio).None?
  }

  /** The reference description of placement: block `k` holds exactly the
      spans whose first host is `k`, in input order. */
  lemma {:induction false} FillSpansPlaced(blocks: seq<PreBlock>, spans: seq<Span>, radio: real, k: nat)
    requires k < |blocks|
    ensures FillSpansInBlocks(blocks, spans, radio).0[k].spans == Filter(spans, FirstHostIs(blocks, radio, k))
    decreases k
  {
    if k == 0 {
      FillSpansPlacedFirst(blocks, spans, radio);
    } else {
      var rem := Filter(spans, NotHostedBy(blocks[0], radio));
      FillSpansPlaced(blocks[1..], rem, radio, k - 1);
      FillSpansPlacedLater(blocks, spans, radio, k);
    }
  }

  lemma FillSpansPlacedFirst(blocks: seq<PreBlock>, spans: seq<Span>, radio: real)
    requires 0 < |blocks|
    ensures FillSpansInBlocks(blocks, spans, radio).0[0].spans == Filter(spans, FirstHostIs(blocks, radio, 0))
  {
    FilterCongruent(spans, HostedBy(blocks[0], radio), FirstHostIs(blocks, radio, 0));
  }

  lemma FillSpansPlacedLater(blocks: seq<PreBlock>, spans: seq<Span>, radio: real, k: nat)
    requires 0 < k < |blocks|
    requires FillSpansInBlocks(blocks[1..], Filter(spans, NotHostedBy(blocks[0], radio)), radio).0[k - 1].spans
      == Filter(Filter(spans, NotHostedBy(blocks[0], radio)), FirstHostIs(blocks[1..], radio, k - 1))
    ensures FillSpansInBlocks(blocks, spans, radio).0[k].spans == Filter(spans, FirstHostIs(blocks, radio, k))
  {
    FillSpansShift(blocks, spans, radio, k);
    FirstHostShift(blocks, spans, radio, k);
  }

  lemma FillSpansShift(blocks: seq<PreBlock>, spans: seq<Span>, radio: real, k: nat)
    requires 0 < k < |blocks|
    ensures FillSpansInBlocks(blocks, spans, radio).0[k]
      == FillSpansInBlocks(blocks[1..], Filter(spans, NotHostedBy(blocks[0], radio)), radio).0[k - 1]
  {
    RemoveAllFiltered(spans, HostedBy(blocks[0], radio), NotHostedBy(blocks[0], radio));
  }

  /** The first host is block `k > 0` exactly when the first block does not
      host and the first host among the rest is `k - 1`. */
  lemma FirstHostTail(blocks: seq<PreBlock>, x: Span, radio: real, k: nat)
    requires 0 < k < |blocks|
    ensures FirstHost(blocks, x, radio) == Some(k)
      <==> !Hosts(blocks[0], x, radio) && FirstHost(blocks[1..], x, radio) == Some(k - 1)
  {
  }

  lemma FirstHostShift(blocks: seq<PreBlock>, spans: seq<Span>, radio: real, k: nat)
    requires 0 < k < |blocks|
    ensures Filter(Filter(spans, NotHostedBy(blocks[0], radio)), FirstHostIs(blocks[1..], radio, k - 1))
      == Filter(spans, FirstHostIs(blocks, radio, k))
  {
    var b := blocks[0];
    var tail := blocks[1..];
    var both := (x: Span) => !Hosts(b, x, radio) && FirstHost(tail, x, radio) == Some(k - 1);
    forall x ensures both(x) == (NotHostedBy(b, radio)(x) && FirstHostIs(tail, radio, k - 1)(x)) {
    }
    FilterFilter(spans, NotHostedBy(b, radio), FirstHostIs(tail, radio, k - 1), both);
    forall x | x in spans ensures both(x) == FirstHostIs(blocks, radio, k)(x) {
      FirstHostTail(blocks, x, radio, k);
    }
    FilterCongruent(spans, both, FirstHostIs(blocks, radio, k));
  }

  /** The leftovers are exactly the spans no block hosts, in input order. */
  lemma {:induction false} FillSpansLeftover(blocks: seq<PreBlock>, spans: seq<Span>, radio: real)
    ensures FillSpansInBlocks(blocks, spans, radio).1 == Filter(spans, Unhosted(blocks, radio))
    decreases |blocks|
  {
    if |blocks| == 0 {
      FilterAllTrue(spans, Unhosted(blocks, radio));
    } else {
      var b := blocks[0];
      var tail := blocks[1..];
      RemoveAllFiltered(spans, HostedBy(b, radio), NotHostedBy(b, radio));
      var rem := Filter(spans, NotHostedBy(b, radio));
      FillSpansLeftover(tail, rem, radio);
      var both := (x: Span) => !Hosts(b, x, radio) && FirstHost(tail, x, radio).None?;
      FilterFilter(spans, NotHostedBy(b, radio), Unhosted(tail, radio), both);
      FilterCongruent(spans, both, Unhosted(blocks, radio));
    }
  }

  /** No span lands in two blocks, and a placed span is hosted by its block
      and by no earlier one. */
  lemma FillSpansExclusive(blocks: seq<PreBlock>, spans: seq<Span>, radio: real, j: nat, k: nat, x: Span)
    requires j < |blocks| && k < |blocks|
    requires x in FillSpansInBlocks(blocks, spans, radio).0[k].spans
    ensures Hosts(blocks[k], x, radio)
    ensures j < k ==> !Hosts(blocks[j], x, radio)
    ensures j != k ==> x !in FillSpansInBlocks(blocks, spans, radio).0[j].spans
    ensures x !in FillSpansInBlocks(blocks, spans, radio).1
  {
    FillSpansPlaced(blocks, spans, radio, k);
    FillSpansPlaced(blocks, spans, radio, j);
    FillSpansLeftover(blocks, spans, radio);
    FirstHostSpec(blocks, x, radio);
  }

  // ---------------------------------------------------------------------
  // Block fixing
  // ---------------------------------------------------------------------

  /** An interline equation inside a text block becomes an inline one. */
  function ToInline(x: Span): Span {
    if x.kind == ContentType.InterlineEquation then x.(kind := ContentType.InlineEquation) else x
  }

  function InlineAll(spans: seq<Span>): (r: seq<Span>)
    ensures |r| == |spans|
    ensures forall k :: 0 <= k < |spans| ==> r[k] == ToInline(spans[k])
  {
    if |spans| == 0 then [] else InlineAll(spans[..|spans| - 1]) + [ToInline(spans[|spans| - 1])]
  }

  /** Line formation with the default 0.6 threshold, then the x0 sort. */
  function FormLines(spans: seq<Span>): (r: Option<seq<Line>>)
    ensures r.None? <==> DividesByZero(SortBy(spans, SpanY0))
    ensures r.Some? ==> multiset(LineSpans(r.value)) == multiset(spans)
    ensures r.Some? ==> forall i :: 0 <= i < |r.value| ==>
      SortedBy(r.value[i].spans, SpanX0) && |r.value[i].spans| > 0
  {
    match MergeSpansToLine(spans, 0.6)
    case None => None
    case Some(lines) =>
      LineSortKeepsSpans(lines);
      LineSortSorted(lines);
      Some(LineSortSpansByLeftToRight(lines))
  }

  predicate IsTextFamily(t: BlockType) {
    t in {BlockType.Text, BlockType.Title, BlockType.ImageCaption, BlockType.ImageFootnote,
          BlockType.TableCaption, BlockType.TableFootnote}
  }

  predicate IsBodyFamily(t: BlockType) {
    t in {BlockType.InterlineEquation, BlockType.ImageBody, BlockType.TableBody}
  }

  lemma NoInterline(spans: seq<Span>, t: seq<Span>)
    requires multiset(t) == multiset(InlineAll(spans))
    ensures forall x :: x in t ==> x.kind != ContentType.InterlineEquation
  {
    forall x | x in t ensures x.kind != ContentType.InterlineEquation {
      assert x in multiset(InlineAll(spans));
      var k :| 0 <= k < |spans| && InlineAll(spans)[k] == x;
    }
  }

  /** Whether a text block's line formation, after the equation
      conversion, divides by zero. */
  predicate TextUnformable(b: FilledBlock) {
    DividesByZero(SortBy(InlineAll(b.spans), SpanY0))
  }

  /** `fix_text_block`: interline equations become inline, then lines
      form; None where line formation divides by zero. */
  function FixTextBlock(b: FilledBlock): (r: Option<Block>)
    ensures r.None? <==> TextUnformable(b)
    ensures r.Some? ==> r.value.kind == b.kind && r.value.bbox == b.bbox && r.value.groupId == b.groupId
    ensures r.Some? ==> multiset(LineSpans(r.value.lines)) == multiset(InlineAll(b.spans))
    ensures r.Some? ==> forall x :: x in LineSpans(r.value.lines) ==> x.kind != ContentType.InterlineEquation
  {
    match FormLines(InlineAll(b.spans))
    case None => None
    case Some(lines) =>
      NoInterline(b.spans, LineSpans(lines));
      Some(NewBlock(b.kind, b.bbox, b.groupId, lines))
  }

  /** `fix_interline_block`: lines form from the spans as they are. */
  function FixInterlineBlock(b: FilledBlock): (r: Option<Block>)
    ensures r.None? <==> DividesByZero(SortBy(b.spans, SpanY0))
    ensures r.Some? ==> r.value.kind == b.kind && r.value.bbox == b.bbox && r.value.groupId == b.groupId
    ensures r.Some? ==> multiset(LineSpans(r.value.lines)) == multiset(b.spans)
  {
    match FormLines(b.spans)
    case None => None
    case Some(lines) => Some(NewBlock(b.kind, b.bbox, b.groupId, lines))
  }

  predicate Routed(b: FilledBlock) {
    IsTextFamily(b.kind) || IsBodyFamily(b.kind)
  }

  /** Whether a routed block's line formation divides by zero. */
  predicate Unformable(b: FilledBlock) {
    if IsTextFamily(b.kind) then TextUnformable(b)
    else DividesByZero(SortBy(b.spans, SpanY0))
  }

  /** The routing of `fix_block_spans_v2` for a block it keeps. */
  function FixBlock(b: FilledBlock): (r: Option<Block>)
    ensures r.None? <==> Unformable(b)
  {
    if IsTextFamily(b.kind) then FixTextBlock(b) else FixInterlineBlock(b)
  }

  /** `fix_block_spans_v2`: text-family blocks through `fix_text_block`,
      equation/image/table bodies through `fix_interline_block`, every other
      kind dropped; order kept. It raises exactly when some routed block's
      line formation divides by zero. */
  function FixBlockSpans(blocks: seq<FilledBlock>): (r: Option<seq<Block>>)
    ensures r.None? <==> exists b :: b in blocks && Routed(b) && Unformable(b)
    ensures r.Some? ==> |r.value| == |Filter(blocks, Routed)|
    ensures r.Some? ==> forall i :: 0 <= i < |r.value| ==>
      FixBlock(Filter(blocks, Routed)[i]) == Some(r.value[i])
  {
    FilterAllSome(blocks, Routed, FixBlock);
    AllSome(Filter(blocks, Routed), FixBlock)
  }

  /** Every output block is of one of the nine routed kinds, and each text
      family block lost its interline equations. */
  lemma FixBlockSpansKinds(blocks: seq<FilledBlock>, i: nat)
    requires FixBlockSpans(blocks).Some? && i < |FixBlockSpans(blocks).value|
    ensures IsTextFamily(FixBlockSpans(blocks).value[i].kind) || IsBodyFamily(FixBlockSpans(blocks).value[i].kind)
    ensures IsTextFamily(FixBlockSpans(blocks).value[i].kind) ==>
      forall x :: x in LineSpans(FixBlockSpans(blocks).value[i].lines) ==> x.kind != ContentType.InterlineEquation
  {
    var src := Filter(blocks, Routed)[i];
    assert src in Filter(blocks, Routed);
  }

  /** `fix_discarded_block`: every discarded block through `fix_text_block`;
      it raises exactly when one of them divides by zero. */
  function FixDiscardedBlock(blocks: seq<FilledBlock>): (r: Option<seq<Block>>)
    ensures r.None? <==> exists i :: 0 <= i < |blocks| && TextUnformable(blocks[i])
    ensures r.Some? ==> |r.value| == |blocks|
    ensures r.Some? ==> forall i :: 0 <= i < |r.value| ==>
      r.value[i].kind == blocks[i].kind && r.value[i].bbox == blocks[i].bbox
      && multiset(LineSpans(r.value[i].lines)) == multiset(InlineAll(blocks[i].spans))
  {
    AllSome(blocks, FixTextBlock)
  }
}
