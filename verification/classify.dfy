/** The text-or-scan decision for a whole PDF (`pdf_classify_by_type`):
    several independent criteria computed from per-page statistics, and a
    PDF counts as text only when every criterion says so. */
module Classify {
  import opened Base
  import opened BoxBase
  import opened Commons

  /** Pages at most looked at by the metadata scan (`scan_max_page`). */
  const ScanMaxPage: int := 50
  /** Fewest images on a page that makes it look like junk (`junk_limit_min`). */
  const JunkLimitMin: real := 10.0
  const TextLenThreshold: int := 100
  const AvgTextLenThreshold: int := 100
  /** `merge_images` defaults. */
  const MaxOffset: real := 5.0
  const MaxGap: real := 2.0

  /** One image of a page: its rectangle and the PDF object id it draws. */
  datatype Img = Img(box: Box, objId: int)

  // ---------------------------------------------------------------------
  // merge_images
  // ---------------------------------------------------------------------

  predicate HasBox(p: seq<Img>, b: Box) {
    exists k :: 0 <= k < |p| && p[k].box == b
  }

  /** The first image of each rectangle, in page order. */
  function Dedup(p: seq<Img>): (r: seq<Img>)
    ensures |r| <= |p|
    ensures forall b :: HasBox(r, b) <==> HasBox(p, b)
    ensures forall i, j :: 0 <= i < j < |r| ==> r[i].box != r[j].box
    ensures forall k :: 0 <= k < |r| ==> r[k] in p
  {
    if |p| == 0 then []
    else
      var init, v := p[..|p| - 1], p[|p| - 1];
      var r := Dedup(init);
      assert forall k :: 0 <= k < |init| ==> init[k] == p[k];
      assert forall b :: HasBox(p, b) <==> HasBox(init, b) || v.box == b by {
        forall b | HasBox(p, b) ensures HasBox(init, b) || v.box == b {
          var k :| 0 <= k < |p| && p[k].box == b;
          if k < |init| {
            assert init[k].box == b;
          }
        }
      }
      if HasBox(r, v.box) then r
      else
        var r' := r + [v];
        assert r'[|r|] == v;
        assert forall b :: HasBox(r', b) <==> HasBox(r, b) || v.box == b by {
          forall b | HasBox(r', b) ensures HasBox(r, b) || v.box == b {
            var k :| 0 <= k < |r'| && r'[k].box == b;
            if k < |r| {
              assert r[k].box == b;
            }
          }
          forall b | HasBox(r, b) ensures HasBox(r', b) {
            var k :| 0 <= k < |r| && r[k].box == b;
            assert r'[k].box == b;
          }
        }
        r'
  }

  function Y0(m: Img): real {
    m.box.y0
  }

  function X0(m: Img): real {
    m.box.x0
  }

  /** `sort(key=(y0, x0))`: a stable sort by `x0` followed by a stable
      sort by `y0`, which orders by the pair. */
  function SortPage(p: seq<Img>): (r: seq<Img>)
    ensures SortedBy(r, Y0)
    ensures multiset(r) == multiset(p) && |r| == |p|
  {
    SortBy(SortBy(p, X0), Y0)
  }

  function Abs(x: real): real {
    if x < 0.0 then -x else x
  }

  /** The image spans at least 90% of the page width. */
  predicate FullWidth(m: Img, w: real) {
    Abs(m.box.x1 - m.box.x0) >= w * 0.9
  }

  predicate FullHeight(m: Img, h: real) {
    Abs(m.box.y1 - m.box.y0) >= h * 0.9
  }

  /** The image continues `last` downwards: same left and right edges up to
      the offset, starting where `last` ends up to the gap. */
  predicate Below(last: Img, m: Img) {
    var a, b := last.box, m.box;
    a.x0 - MaxOffset <= b.x0 <= a.x0 + MaxOffset && a.x1 - MaxOffset <= b.x1 <= a.x1 + MaxOffset
    && a.y1 - MaxGap <= b.y0 <= a.y1 + MaxGap
  }

  /** The image continues `last` to the right. */
  predicate RightOf(last: Img, m: Img) {
    var a, b := last.box, m.box;
    a.y0 - MaxOffset <= b.y0 <= a.y0 + MaxOffset && a.y1 - MaxOffset <= b.y1 <= a.y1 + MaxOffset
    && a.x1 - MaxGap <= b.x0 <= a.x1 + MaxGap
  }

  /** A full-width image stacked under the last one, or a full-height image
      next to it, joins the last one. */
  predicate Joins(last: Img, m: Img, w: real, h: real) {
    (FullWidth(m, w) && Below(last, m)) || (FullHeight(m, h) && RightOf(last, m))
  }

  /** The merging loop of one page: a joining image and the last merged one
      are replaced by the box around both, carrying the new image's id. */
  function MergeRun(s: seq<Img>, w: real, h: real): (r: seq<Img>)
    requires |s| > 0
    ensures 1 <= |r| <= |s|
    ensures r[|r| - 1].objId == s[|s| - 1].objId
  {
    if |s| == 1 then [s[0]]
    else
      var m := MergeRun(s[..|s| - 1], w, h);
      var v := s[|s| - 1];
      if Joins(m[|m| - 1], v, w, h) then m[..|m| - 1] + [Img(UnionBox(v.box, m[|m| - 1].box), v.objId)]
      else m + [v]
  }

  /** Some merged image holds the rectangle. */
  predicate InSome(b: Box, r: seq<Img>) {
    exists k :: 0 <= k < |r| && IsIn(b, r[k].box)
  }

  lemma MergeStepCovers(init: seq<Img>, v: Img, m: seq<Img>, r: seq<Img>, w: real, h: real)
    requires |m| > 0
    requires forall i :: 0 <= i < |init| ==> InSome(init[i].box, m)
    requires r == if Joins(m[|m| - 1], v, w, h) then m[..|m| - 1] + [Img(UnionBox(v.box, m[|m| - 1].box), v.objId)] else m + [v]
    ensures forall i :: 0 <= i < |init| + 1 ==> InSome((init + [v])[i].box, r)
  {
    var s := init + [v];
    forall i | 0 <= i < |s| ensures InSome(s[i].box, r) {
      if i == |init| {
        assert s[i] == v;
        assert IsIn(v.box, r[|r| - 1].box);
      } else {
        assert s[i] == init[i];
        var k :| 0 <= k < |m| && IsIn(init[i].box, m[k].box);
        if Joins(m[|m| - 1], v, w, h) && k == |m| - 1 {
          IsInOrder(init[i].box, m[k].box, r[|r| - 1].box);
        } else {
          assert r[k] == m[k];
        }
      }
    }
  }

  /** Every image of the run lies inside one of the merged images. */
  lemma {:induction false} MergeRunCovers(s: seq<Img>, w: real, h: real)
    requires |s| > 0
    ensures forall i :: 0 <= i < |s| ==> InSome(s[i].box, MergeRun(s, w, h))
    decreases |s|
  {
    if |s| == 1 {
      assert IsIn(s[0].box, MergeRun(s, w, h)[0].box);
    } else {
      var init := s[..|s| - 1];
      MergeRunCovers(init, w, h);
      assert s == init + [s[|s| - 1]];
      MergeStepCovers(init, s[|s| - 1], MergeRun(init, w, h), MergeRun(s, w, h), w, h);
    }
  }

  /** With no full-width and no full-height image nothing merges. */
  lemma {:induction false} MergeRunNoneFull(s: seq<Img>, w: real, h: real)
    requires |s| > 0
    requires forall k :: 0 <= k < |s| ==> !FullWidth(s[k], w) && !FullHeight(s[k], h)
    ensures MergeRun(s, w, h) == s
    decreases |s|
  {
    if |s| > 1 {
      MergeRunNoneFull(s[..|s| - 1], w, h);
      assert s == s[..|s| - 1] + [s[|s| - 1]];
    }
  }

  /** One page of `merge_images`: duplicates dropped, sorted, merged. */
  function MergePage(p: seq<Img>, w: real, h: real): (r: seq<Img>)
    requires |p| > 0
    ensures 1 <= |r| <= |p|
  {
    var d := Dedup(p);
    assert HasBox(p, p[0].box);
    var sorted := SortPage(d);
    MergeRun(sorted, w, h)
  }

  /** Every image of the page lies inside one of the page's merged images. */
  lemma MergePageCovers(p: seq<Img>, w: real, h: real, i: nat)
    requires i < |p|
    ensures InSome(p[i].box, MergePage(p, w, h))
  {
    var d := Dedup(p);
    assert HasBox(p, p[i].box);
    var j :| 0 <= j < |d| && d[j].box == p[i].box;
    var sorted := SortPage(d);
    assert d[j] in multiset(sorted);
    var k :| 0 <= k < |sorted| && sorted[k] == d[j];
    MergeRunCovers(sorted, w, h);
  }

  predicate NonEmpty(p: seq<Img>) {
    |p| > 0
  }

  /** `merge_images`: pages without images are left out; the others are
      merged one by one. */
  function MergeImages(pages: seq<seq<Img>>, w: real, h: real): (r: seq<seq<Img>>)
    ensures |r| == CountWhere(pages, NonEmpty)
    ensures forall k :: 0 <= k < |r| ==> |r[k]| > 0
  {
    if |pages| == 0 then []
    else
      var rest := MergeImages(pages[..|pages| - 1], w, h);
      var p := pages[|pages| - 1];
      if |p| > 0 then rest + [MergePage(p, w, h)] else rest
  }

  /** A page merged on its own; a page without images stays empty. */
  function MergeAny(p: seq<Img>, w: real, h: real): seq<Img> {
    if |p| > 0 then MergePage(p, w, h) else []
  }

  /** Each page merged on its own. */
  function PagesMerged(pages: seq<seq<Img>>, w: real, h: real): (r: seq<seq<Img>>)
    ensures |r| == |pages|
    ensures forall k :: 0 <= k < |pages| ==> r[k] == MergeAny(pages[k], w, h)
  {
    if |pages| == 0 then []
    else PagesMerged(pages[..|pages| - 1], w, h) + [MergeAny(pages[|pages| - 1], w, h)]
  }

  lemma PagesMergedSnoc(f: seq<seq<Img>>, p: seq<Img>, w: real, h: real)
    requires |p| > 0
    ensures PagesMerged(f + [p], w, h) == PagesMerged(f, w, h) + [MergePage(p, w, h)]
  {
    assert (f + [p])[..|f|] == f;
  }

  /** The result lists, in order, the merged pages of the pages that have
      images. */
  lemma {:induction false} MergeImagesPages(pages: seq<seq<Img>>, w: real, h: real)
    ensures MergeImages(pages, w, h) == PagesMerged(Filter(pages, NonEmpty), w, h)
  {
    if |pages| > 0 {
      var init, p := pages[..|pages| - 1], pages[|pages| - 1];
      MergeImagesPages(init, w, h);
      var f := Filter(init, NonEmpty);
      if |p| > 0 {
        assert Filter(pages, NonEmpty) == f + [p];
        assert MergeImages(pages, w, h) == MergeImages(init, w, h) + [MergePage(p, w, h)];
        PagesMergedSnoc(f, p, w, h);
      } else {
        assert Filter(pages, NonEmpty) == f;
        assert MergeImages(pages, w, h) == MergeImages(init, w, h);
      }
    }
  }

  // ---------------------------------------------------------------------
  // classify_by_area
  // ---------------------------------------------------------------------

  function Ids(p: seq<Img>): (r: seq<int>)
    ensures |r| == |p| && forall k :: 0 <= k < |p| ==> r[k] == p[k].objId
  {
    if |p| == 0 then [] else Ids(p[..|p| - 1]) + [p[|p| - 1].objId]
  }

  /** Every image's object id, page after page. */
  function AllIds(pages: seq<seq<Img>>): seq<int> {
    if |pages| == 0 then [] else AllIds(pages[..|pages| - 1]) + Ids(pages[|pages| - 1])
  }

  /** The images of the page whose object id occurs fewer than twice in
      `counts`. */
  function KeepRare(p: seq<Img>, counts: multiset<int>): (r: seq<Img>)
    ensures forall k :: 0 <= k < |r| ==> r[k] in p && counts[r[k].objId] < 2
  {
    if |p| == 0 then []
    else
      var rest := KeepRare(p[..|p| - 1], counts);
      var v := p[|p| - 1];
      if counts[v.objId] < 2 then rest + [v] else rest
  }

  function KeepRarePages(pages: seq<seq<Img>>, counts: multiset<int>): (r: seq<seq<Img>>)
    ensures |r| == |pages|
    ensures forall k :: 0 <= k < |r| ==> r[k] == KeepRare(pages[k], counts)
  {
    if |pages| == 0 then []
    else KeepRarePages(pages[..|pages| - 1], counts) + [KeepRare(pages[|pages| - 1], counts)]
  }

  /** The images whose object id is drawn only once in the whole PDF;
      repeated ones (logos, watermarks) are ignored. */
  function KeepUnique(pages: seq<seq<Img>>): seq<seq<Img>> {
    KeepRarePages(pages, multiset(AllIds(pages)))
  }

  function Areas(p: seq<Img>): (r: seq<real>)
    ensures |r| == |p| && forall k :: 0 <= k < |p| ==> r[k] == p[k].box.Area()
  {
    if |p| == 0 then [] else Areas(p[..|p| - 1]) + [p[|p| - 1].box.Area()]
  }

  /** The page's largest image covers more than half the page. */
  predicate LargeImagePage(p: seq<Img>, pageArea: real)
    requires pageArea != 0.0
  {
    MyMax(Areas(p)) / pageArea > 0.5
  }

  function LargeCount(pages: seq<seq<Img>>, pageArea: real): (n: nat)
    requires pageArea != 0.0
    ensures n <= |pages|
  {
    if |pages| == 0 then 0
    else LargeCount(pages[..|pages| - 1], pageArea) + (if LargeImagePage(pages[|pages| - 1], pageArea) then 1 else 0)
  }

  function MinInt(a: int, b: int): int {
    if a <= b then a else b
  }

  /** `classify_by_area`: text unless at least half of the (at most 50)
      pages carry an image covering more than half the page. `None` when the
      page area is zero and some image is left to measure, where the source
      divides by zero. */
  function ClassifyByArea(totalPage: int, w: real, h: real, pages: seq<seq<Img>>): (r: Option<bool>)
    ensures r.None? <==> w * h == 0.0 && CountWhere(KeepUnique(pages), NonEmpty) > 0
  {
    var merged := MergeImages(KeepUnique(pages), w, h);
    if |merged| == 0 then Some(0.0 < 0.5 * MinInt(totalPage, ScanMaxPage) as real)
    else if w * h == 0.0 then None
    else Some(LargeCount(merged, w * h) as real < 0.5 * MinInt(totalPage, ScanMaxPage) as real)
  }

  /** A page counts as covered when some image on it, on a page of positive
      area, is larger than half the page. */
  lemma LargeImagePageIff(p: seq<Img>, pageArea: real)
    requires pageArea > 0.0
    ensures LargeImagePage(p, pageArea) <==> exists k :: 0 <= k < |p| && p[k].box.Area() > 0.5 * pageArea
  {
    var areas := Areas(p);
    var m := MyMax(areas);
    assert m / pageArea > 0.5 <==> m > 0.5 * pageArea;
    if |p| > 0 {
      var j :| 0 <= j < |areas| && areas[j] == m;
      forall k | 0 <= k < |p| ensures p[k].box.Area() <= m {
        assert areas[k] in areas;
      }
    }
  }

  /** Beyond the scan limit the page count no longer matters. */
  lemma ClassifyByAreaCapped(totalPage: int, w: real, h: real, pages: seq<seq<Img>>)
    requires totalPage >= ScanMaxPage
    ensures ClassifyByArea(totalPage, w, h, pages) == ClassifyByArea(ScanMaxPage, w, h, pages)
  {
  }

  lemma {:induction false} KeepRareCount(p: seq<Img>, counts: multiset<int>, id: int)
    ensures multiset(Ids(KeepRare(p, counts)))[id] == if counts[id] < 2 then multiset(Ids(p))[id] else 0
  {
    if |p| > 0 {
      var init, v := p[..|p| - 1], p[|p| - 1];
      KeepRareCount(init, counts, id);
      assert Ids(p) == Ids(init) + [v.objId];
      var rest := KeepRare(init, counts);
      if counts[v.objId] < 2 {
        assert Ids(rest + [v]) == Ids(rest) + [v.objId];
      }
    }
  }

  lemma {:induction false} KeepRarePagesCount(pages: seq<seq<Img>>, counts: multiset<int>, id: int)
    ensures multiset(AllIds(KeepRarePages(pages, counts)))[id] == if counts[id] < 2 then multiset(AllIds(pages))[id] else 0
  {
    if |pages| > 0 {
      var init := pages[..|pages| - 1];
      KeepRarePagesCount(init, counts, id);
      KeepRareCount(pages[|pages| - 1], counts, id);
      var r := KeepRarePages(pages, counts);
      assert r[..|r| - 1] == KeepRarePages(init, counts);
    }
  }

  lemma {:induction false} KeepRareAll(p: seq<Img>, counts: multiset<int>)
    requires forall k :: 0 <= k < |p| ==> counts[p[k].objId] < 2
    ensures KeepRare(p, counts) == p
  {
    if |p| > 0 {
      KeepRareAll(p[..|p| - 1], counts);
      assert p == p[..|p| - 1] + [p[|p| - 1]];
    }
  }

  /** Dropping the repeated images twice drops nothing more: after the
      first pass every object id left occurs once. */
  lemma KeepUniqueIdempotent(pages: seq<seq<Img>>)
    ensures KeepUnique(KeepUnique(pages)) == KeepUnique(pages)
  {
    var counts := multiset(AllIds(pages));
    var kept := KeepUnique(pages);
    var counts' := multiset(AllIds(kept));
    assert kept == KeepRarePages(pages, counts);
    forall k | 0 <= k < |kept| ensures KeepRare(kept[k], counts') == kept[k] {
      assert kept[k] == KeepRare(pages[k], counts);
      forall j | 0 <= j < |kept[k]| ensures counts'[kept[k][j].objId] < 2 {
        var id := kept[k][j].objId;
        assert counts[id] < 2;
        KeepRarePagesCount(pages, counts, id);
      }
      KeepRareAll(kept[k], counts');
    }
    assert KeepUnique(kept) == KeepRarePages(kept, counts');
  }

  /** Images whose object id repeats never influence the area criterion:
      removing them first changes nothing. */
  lemma RepeatedImagesIgnored(totalPage: int, w: real, h: real, pages: seq<seq<Img>>)
    ensures ClassifyByArea(totalPage, w, h, KeepUnique(pages)) == ClassifyByArea(totalPage, w, h, pages)
  {
    KeepUniqueIdempotent(pages);
  }

  /** Comparing a quotient with a constant is comparing the dividend with
      the constant times the (positive) divisor. */
  lemma DivCompare(a: real, t: real, c: real)
    requires t > 0.0
    ensures a / t < c <==> a < c * t
    ensures a / t > c <==> a > c * t
  {
    var q := a / t;
    assert q * t == a;
    assert (c - q) * t == c * t - a;
    assert (q - c) * t == a - c * t;
    if q < c {
      MulPos(c - q, t);
    } else if q > c {
      MulPos(q - c, t);
    }
  }

  // ---------------------------------------------------------------------
  // classify_by_text_len
  // ---------------------------------------------------------------------

  /** How many pages are sampled: a tenth of them, but every page when that
      is fewer than five. */
  function SampleSize(totalPage: nat): (n: nat)
    ensures totalPage < 50 ==> n == totalPage
    ensures totalPage >= 50 ==> n == totalPage / 10
  {
    var c := Trunc(totalPage as real * 0.1);
    assert c == totalPage / 10 by {
      var q, m := totalPage / 10, totalPage % 10;
      assert totalPage == 10 * q + m;
      assert totalPage as real == 10.0 * q as real + m as real;
      assert totalPage as real * 0.1 == q as real + m as real * 0.1;
      assert 0.0 <= m as real * 0.1 < 1.0;
    }
    if c < 5 then totalPage else c
  }

  /** `classify_by_text_len` over the page indices the random choice
      produced: text when some sampled page has more than 100 characters;
      `None` when an index is past the list. */
  function ClassifyByTextLen(textLens: seq<int>, sample: seq<nat>): (r: Option<bool>)
    ensures r.None? <==> exists k :: 0 <= k < |sample| && sample[k] >= |textLens|
    ensures r.Some? ==> (r.value <==> exists k :: 0 <= k < |sample| && textLens[sample[k]] > TextLenThreshold)
  {
    if exists k :: 0 <= k < |sample| && sample[k] >= |textLens| then None
    else Some(exists k :: 0 <= k < |sample| && textLens[sample[k]] > TextLenThreshold)
  }

  /** When every page is sampled the criterion is deterministic: some page
      has more than 100 characters. */
  lemma TextLenAllPages(textLens: seq<int>, sample: seq<nat>)
    requires |textLens| < 50 && |sample| == SampleSize(|textLens|)
    requires forall k :: 0 <= k < |sample| ==> sample[k] == k
    ensures ClassifyByTextLen(textLens, sample)
      == Some(exists i :: 0 <= i < |textLens| && textLens[i] > TextLenThreshold)
  {
    if exists i :: 0 <= i < |textLens| && textLens[i] > TextLenThreshold {
      var i :| 0 <= i < |textLens| && textLens[i] > TextLenThreshold;
      assert sample[i] == i;
    }
  }

  // ---------------------------------------------------------------------
  // classify_by_avg_words
  // ---------------------------------------------------------------------

  function IntSum(s: seq<int>): int {
    if |s| == 0 then 0 else IntSum(s[..|s| - 1]) + s[|s| - 1]
  }

  /** `classify_by_avg_words`: the rounded mean page length exceeds 100;
      false for no pages. */
  function ClassifyByAvgWords(textLens: seq<int>): bool {
    if |textLens| == 0 then false
    else RoundHalfEven(IntSum(textLens) as real / |textLens| as real) > AvgTextLenThreshold
  }

  /** `round(x) > 100` exactly when `x > 100.5`: 100.5 itself rounds to the
      even 100. */
  lemma RoundAbove(x: real)
    ensures RoundHalfEven(x) > 100 <==> x > 100.5
  {
    var f := x.Floor;
    assert f as real <= x < f as real + 1.0;
    if x > 100.5 {
      assert f >= 100;
    } else {
      assert f <= 100;
      if f == 100 {
        assert 100 % 2 == 0;
      }
    }
  }

  /** The mean rule in whole numbers: twice the total exceeds 201 per page. */
  lemma AvgWordsIff(textLens: seq<int>)
    ensures ClassifyByAvgWords(textLens) <==> |textLens| > 0 && 2 * IntSum(textLens) > 201 * |textLens|
  {
    if |textLens| > 0 {
      var n := |textLens| as real;
      var mean := IntSum(textLens) as real / n;
      RoundAbove(mean);
      DivCompare(IntSum(textLens) as real, n, 100.5);
    }
  }

  // ---------------------------------------------------------------------
  // classify_by_img_num
  // ---------------------------------------------------------------------

  function Reals(s: seq<nat>): (r: seq<real>)
    ensures |r| == |s| && forall k :: 0 <= k < |s| ==> r[k] == s[k] as real
  {
    if |s| == 0 then [] else Reals(s[..|s| - 1]) + [s[|s| - 1] as real]
  }

  /** The largest 80% of the per-page image counts. */
  function TopCounts(imgNums: seq<nat>): seq<real> {
    GetTopPercentList(Reals(imgNums), 0.8)
  }

  /** `classify_by_img_num`: a scan when at most one page has image data,
      the largest 80% of the image counts are all the same number, and the
      largest count reaches the junk limit. */
  function ClassifyByImgNum(pages: seq<seq<Img>>, imgNums: seq<nat>): bool {
    var top := TopCounts(imgNums);
    !(CountWhere(pages, NonEmpty) <= 1 && |(set x | x in top)| == 1 && MyMax(Reals(imgNums)) >= JunkLimitMin)
  }

  lemma SingletonSet(top: seq<real>)
    ensures |(set x | x in top)| == 1 <==> |top| > 0 && forall k :: 0 <= k < |top| ==> top[k] == top[0]
  {
    var st := set x | x in top;
    if |top| > 0 && forall k :: 0 <= k < |top| ==> top[k] == top[0] {
      assert st == {top[0]};
    }
    if |st| == 1 {
      assert top[0] in st;
      assert |st - {top[0]}| == 0;
      assert st - {top[0]} == {};
      forall k | 0 <= k < |top| ensures top[k] == top[0] {
        assert top[k] in st;
      }
    }
  }

  /** The first of the top list is the largest value of the list. */
  lemma TopFirstIsMax(xs: seq<real>)
    requires |GetTopPercentList(xs, 0.8)| > 0
    ensures GetTopPercentList(xs, 0.8)[0] == MyMax(xs)
  {
    var top := GetTopPercentList(xs, 0.8);
    var m := MyMax(xs);
    assert top[0] in multiset(top);
    assert top[0] in multiset(xs);
    assert top[0] in xs;
    TopPercentIsTop(xs, 0.8);
    if m in multiset(top) {
      assert m in top;
      var j :| 0 <= j < |top| && top[j] == m;
      assert j == 0 || top[0] >= top[j];
    } else {
      assert m in multiset(xs) - multiset(top);
      assert top[0] in top;
    }
  }

  /** The largest count is the first of the top list, so the criterion
      becomes: a scan when at most one page has images and the top 80% of
      counts are one value of at least 10. */
  lemma ImgNumIff(pages: seq<seq<Img>>, imgNums: seq<nat>)
    ensures var top := TopCounts(imgNums);
      ClassifyByImgNum(pages, imgNums) <==>
        !(CountWhere(pages, NonEmpty) <= 1 && |top| > 0
          && (forall k :: 0 <= k < |top| ==> top[k] == top[0]) && top[0] >= JunkLimitMin)
  {
    var top := TopCounts(imgNums);
    SingletonSet(top);
    if |top| > 0 {
      TopFirstIsMax(Reals(imgNums));
    }
  }

  // ---------------------------------------------------------------------
  // classify_by_text_layout
  // ---------------------------------------------------------------------

  function CountOf(s: seq<string>, t: string): (n: nat)
    ensures n <= |s|
  {
    if |s| == 0 then 0 else CountOf(s[..|s| - 1], t) + (if s[|s| - 1] == t then 1 else 0)
  }

  /** `classify_by_text_layout`: text when under half of the pages with a
      known direction are vertical; false when none is known. */
  function ClassifyByTextLayout(layouts: seq<string>): bool {
    var v := CountOf(layouts, "vertical");
    var hz := CountOf(layouts, "horizontal");
    if v + hz == 0 then false else (v as real / (v + hz) as real) < 0.5
  }

  /** Fewer vertical than horizontal pages, and nothing else. */
  lemma TextLayoutIff(layouts: seq<string>)
    ensures ClassifyByTextLayout(layouts) <==> CountOf(layouts, "vertical") < CountOf(layouts, "horizontal")
  {
    var v := CountOf(layouts, "vertical");
    var hz := CountOf(layouts, "horizontal");
    if v + hz > 0 {
      DivCompare(v as real, (v + hz) as real, 0.5);
    }
  }

  // ---------------------------------------------------------------------
  // classify_by_img_narrow_strips
  // ---------------------------------------------------------------------

  /** A thin band across (or down) the page: at least 90% of the page in
      one direction and four times longer than wide. */
  predicate NarrowStrip(m: Img, w: real, h: real) {
    var width, height := m.box.x1 - m.box.x0, m.box.y1 - m.box.y0;
    (width >= w * 0.9 && width >= height * 4.0) || (height >= h * 0.9 && height >= width * 4.0)
  }

  function StripCount(p: seq<Img>, w: real, h: real): (n: nat)
    ensures n <= |p|
  {
    if |p| == 0 then 0 else StripCount(p[..|p| - 1], w, h) + (if NarrowStrip(p[|p| - 1], w, h) then 1 else 0)
  }

  /** A page of at least five strips that make up at least 80% of its
      images. */
  predicate StripPage(p: seq<Img>, w: real, h: real) {
    |p| > 0 && var n := StripCount(p, w, h);
    n >= 5 && n as real / |p| as real >= 0.8
  }

  function StripPages(pages: seq<seq<Img>>, w: real, h: real): (n: nat)
    ensures n <= |pages|
  {
    if |pages| == 0 then 0
    else StripPages(pages[..|pages| - 1], w, h) + (if StripPage(pages[|pages| - 1], w, h) then 1 else 0)
  }

  /** `classify_by_img_narrow_strips`: text when under half the pages are
      strip pages; `None` for an empty page list, where the source divides
      by zero. */
  function ClassifyByImgNarrowStrips(w: real, h: real, pages: seq<seq<Img>>): (r: Option<bool>)
    ensures r.None? <==> |pages| == 0
  {
    if |pages| == 0 then None
    else Some(StripPages(pages, w, h) as real / |pages| as real < 0.5)
  }

  /** A strip page in whole numbers: at least five strips and
      `5 * strips >= 4 * images`. */
  lemma StripPageIff(p: seq<Img>, w: real, h: real)
    ensures StripPage(p, w, h) <==> |p| > 0 && StripCount(p, w, h) >= 5 && 5 * StripCount(p, w, h) >= 4 * |p|
  {
    if |p| > 0 {
      var n := StripCount(p, w, h);
      DivCompare(n as real, |p| as real, 0.8);
      assert n as real / |p| as real >= 0.8 <==> n as real >= 0.8 * |p| as real;
    }
  }

  /** The PDF is text when twice the strip pages are fewer than the pages. */
  lemma NarrowStripsIff(w: real, h: real, pages: seq<seq<Img>>)
    requires |pages| > 0
    ensures ClassifyByImgNarrowStrips(w, h, pages).value <==> 2 * StripPages(pages, w, h) < |pages|
  {
    DivCompare(StripPages(pages, w, h) as real, |pages| as real, 0.5);
  }

  // ---------------------------------------------------------------------
  // classify
  // ---------------------------------------------------------------------

  /** The verdict of every criterion. */
  datatype Criteria = Criteria(byImageArea: bool, byTextLen: bool, byAvgWords: bool, byImgNum: bool,
                               byTextLayout: bool, byImgNarrowStrips: bool, byInvalidChars: bool)
  {
    predicate All() {
      byImageArea && byTextLen && byAvgWords && byImgNum && byTextLayout && byImgNarrowStrips && byInvalidChars
    }
  }

  /** `classify`: the criteria in the order the source evaluates them; text
      only when all agree. `None` when a criterion raises. The text-length
      sample is the source's random choice, given as `sample`. */
  function ClassifyPdf(totalPage: int, w: real, h: real, pages: seq<seq<Img>>, textLens: seq<int>,
                       imgNums: seq<nat>, layouts: seq<string>, invalidChars: bool, sample: seq<nat>)
    : (r: Option<(bool, Criteria)>)
    ensures r.Some? ==> (r.value.0 <==> r.value.1.All())
    ensures r.None? <==> (ClassifyByArea(totalPage, w, h, pages).None?
                          || ClassifyByTextLen(textLens, sample).None? || |pages| == 0)
  {
    match ClassifyByArea(totalPage, w, h, pages)
    case None => None
    case Some(area) =>
      match ClassifyByTextLen(textLens, sample)
      case None => None
      case Some(textLen) =>
        match ClassifyByImgNarrowStrips(w, h, pages)
        case None => None
        case Some(strips) =>
          var c := Criteria(area, textLen, ClassifyByAvgWords(textLens), ClassifyByImgNum(pages, imgNums),
                            ClassifyByTextLayout(layouts), strips, invalidChars);
          Some((c.All(), c))
  }

  /** Any criterion against text makes the PDF a scan, however many are
      for it: invalid characters alone decide it, and so does a PDF
      without page lengths (its mean length is not above 100). */
  lemma ClassifyPdfScan(totalPage: int, w: real, h: real, pages: seq<seq<Img>>, textLens: seq<int>,
                        imgNums: seq<nat>, layouts: seq<string>, sample: seq<nat>)
    requires ClassifyPdf(totalPage, w, h, pages, textLens, imgNums, layouts, false, sample).Some?
    ensures !ClassifyPdf(totalPage, w, h, pages, textLens, imgNums, layouts, false, sample).value.0
    ensures var r := ClassifyPdf(totalPage, w, h, pages, [], imgNums, layouts, true, sample);
      r.Some? ==> !r.value.0
  {
  }
}
