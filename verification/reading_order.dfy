/** Reading order of one page: virtual lines for blocks that have none
    (`insert_lines_into_block`), the line list handed to the layoutreader
    model and its 200-line gate (`sort_lines_by_model`), the typical line
    height (`get_line_height`) and the block and line ranks derived from the
    model's order or, past the gate, from XY-cut (`cal_block_index`). */
module ReadingOrder {
  import opened Base
  import opened BoxBase
  import opened Layout
  import SpanOps
  import XyCut

  // ---------------------------------------------------------------------
  // Virtual lines
  // ---------------------------------------------------------------------

  /** The drawing loop: `n` bands of height `lh` stacked downwards from `y`,
      each spanning `x0..x1` (no band when `n` is not positive). */
  function Bands(x0: real, x1: real, y: real, lh: real, n: int): (r: seq<Box>)
    ensures |r| == if n > 0 then n else 0
    ensures forall i :: 0 <= i < |r| ==>
      r[i] == Box(x0, y + (i as real) * lh, x1, y + (i as real) * lh + lh)
    decreases n
  {
    if n <= 0 then []
    else
      var rest := Bands(x0, x1, y + lh, lh, n - 1);
      var r := [Box(x0, y, x1, y + lh)] + rest;
      assert forall i :: 1 <= i < |r| ==> r[i] == rest[i - 1];
      assert forall i :: 1 <= i < |r| ==>
        r[i] == Box(x0, y + (i as real) * lh, x1, y + (i as real) * lh + lh) by {
        forall i | 1 <= i < |r|
          ensures r[i] == Box(x0, y + (i as real) * lh, x1, y + (i as real) * lh + lh)
        {
          NextBand(i - 1, lh);
        }
      }
      r
  }

  lemma NextBand(i: int, lh: real)
    ensures (i as real) * lh + lh == ((i + 1) as real) * lh
  {
  }

  /** `insert_lines_into_block`: a block taller than three lines is cut into
      bands; a possible column (tall, a quarter to half the page wide) or a
      third-of-page block into line-height bands, a wide block into three,
      a narrow stout one into two, a narrow tall one not at all. A zero line
      height or width where the source divides by it raises
      ZeroDivisionError (None here). */
  function InsertLinesIntoBlock(b: Box, lh: real, pageW: real, pageH: real): (r: Option<seq<Box>>)
    ensures b.y1 - b.y0 <= lh * 3.0 ==> r == Some([b])
    ensures r.Some? ==> forall i :: 0 <= i < |r.value| ==> r.value[i].x0 == b.x0 && r.value[i].x1 == b.x1
    ensures r.Some? && |r.value| > 0 ==> r.value[0].y0 == b.y0
    ensures r.Some? ==> forall i :: 0 <= i < |r.value| - 1 ==> r.value[i].y1 == r.value[i + 1].y0
    ensures lh != 0.0 && b.x1 != b.x0 ==> r.Some?
  {
    var h := b.y1 - b.y0;
    var w := b.x1 - b.x0;
    if lh * 3.0 < h then
      if h > pageH * 0.25 && pageW * 0.5 > w > pageW * 0.25 then
        if lh == 0.0 then None else Some(Bands(b.x0, b.x1, b.y0, lh, Trunc(h / lh) + 1))
      else if w > pageW * 0.4 then
        Some(Bands(b.x0, b.x1, b.y0, h / 3.0, 3))
      else if w > pageW * 0.25 then
        if lh == 0.0 then None else Some(Bands(b.x0, b.x1, b.y0, lh, Trunc(h / lh) + 1))
      else if w == 0.0 then None
      else if h / w > 1.2 then Some([b])
      else Some(Bands(b.x0, b.x1, b.y0, h / 2.0, 2))
    else Some([b])
  }

  /** The band shapes of the three splitting cases: a possible column, or a
      block a quarter to 0.4 of the page wide, into `int(h / lh) + 1` bands
      one line height tall (none when that count is not positive, as for
      `range`); a narrow tall block not at all; a narrow stout
      block into two equal bands that end on its bottom edge. */
  lemma InsertLinesShape(b: Box, lh: real, pageW: real, pageH: real)
    ensures var h, w, r := b.y1 - b.y0, b.x1 - b.x0, InsertLinesIntoBlock(b, lh, pageW, pageH);
      lh * 3.0 < h && lh != 0.0
      && ((h > pageH * 0.25 && pageW * 0.5 > w > pageW * 0.25) || (!(w > pageW * 0.4) && w > pageW * 0.25))
      ==> r.Some? && |r.value| == (if Trunc(h / lh) + 1 > 0 then Trunc(h / lh) + 1 else 0)
          && forall i :: 0 <= i < |r.value| ==> r.value[i].y1 - r.value[i].y0 == lh
    ensures var h, w, r := b.y1 - b.y0, b.x1 - b.x0, InsertLinesIntoBlock(b, lh, pageW, pageH);
      lh * 3.0 < h && !(h > pageH * 0.25 && pageW * 0.5 > w > pageW * 0.25) && !(w > pageW * 0.4)
      && !(w > pageW * 0.25) && w != 0.0
      ==> r.Some? && (h / w > 1.2 ==> r.value == [b])
          && (h / w <= 1.2 ==> |r.value| == 2 && r.value[0].y1 - r.value[0].y0 == r.value[1].y1 - r.value[1].y0
                               && r.value[1].y1 == b.y1)
  {
    var h, w := b.y1 - b.y0, b.x1 - b.x0;
    var r := InsertLinesIntoBlock(b, lh, pageW, pageH);
    if lh * 3.0 < h && !(h > pageH * 0.25 && pageW * 0.5 > w > pageW * 0.25) && !(w > pageW * 0.4)
       && !(w > pageW * 0.25) && w != 0.0 && h / w <= 1.2 {
      assert r.value[1].y1 == b.y0 + 1.0 * (h / 2.0) + h / 2.0;
    }
  }

  lemma TruncBandsCover(h: real, lh: real)
    requires lh > 0.0 && lh * 3.0 < h
    ensures Trunc(h / lh) + 1 >= 4
    ensures ((Trunc(h / lh) + 1) as real) * lh > h
  {
    var q := h / lh;
    QuotientAbove(h, lh);
    var t := Trunc(q);
    assert t as real + 1.0 > q > 3.0;
    assert t > 2;
    var n := t + 1;
    assert n as real > q;
    StrictMul(q, n as real, lh);
  }

  lemma QuotientAbove(h: real, lh: real)
    requires lh > 0.0 && lh * 3.0 < h
    ensures h / lh > 3.0 && (h / lh) * lh == h
  {
    var q := h / lh;
    if q <= 3.0 {
      MulMono(q, lh, 3.0, lh);
    }
  }

  /** With a positive line height the bands reach the block's bottom edge,
      and a wide block taller than three lines that is not a possible column
      is cut into exactly three bands ending on that edge. */
  lemma InsertLinesCover(b: Box, lh: real, pageW: real, pageH: real)
    requires lh > 0.0 && b.x1 != b.x0
    ensures var bands := InsertLinesIntoBlock(b, lh, pageW, pageH).value;
      |bands| > 0 && bands[|bands| - 1].y1 >= b.y1
    ensures var bands := InsertLinesIntoBlock(b, lh, pageW, pageH).value;
      (lh * 3.0 < b.y1 - b.y0 && b.x1 - b.x0 > pageW * 0.4
       && !(b.y1 - b.y0 > pageH * 0.25 && pageW * 0.5 > b.x1 - b.x0))
      ==> |bands| == 3 && bands[2].y1 == b.y1
  {
    var h := b.y1 - b.y0;
    var w := b.x1 - b.x0;
    var bands := InsertLinesIntoBlock(b, lh, pageW, pageH).value;
    if lh * 3.0 < h {
      if (h > pageH * 0.25 && pageW * 0.5 > w > pageW * 0.25)
        || (!(w > pageW * 0.4) && w > pageW * 0.25) {
        TruncBandsCover(h, lh);
        var n := Trunc(h / lh) + 1;
        assert bands[n - 1].y1 == b.y0 + ((n - 1) as real) * lh + lh;
        assert ((n - 1) as real) * lh + lh == (n as real) * lh;
      } else if w > pageW * 0.4 {
        assert bands[2].y1 == b.y0 + 2.0 * (h / 3.0) + h / 3.0;
      } else if h / w <= 1.2 {
        assert bands[1].y1 == b.y0 + 1.0 * (h / 2.0) + h / 2.0;
      }
    }
  }

  // ---------------------------------------------------------------------
  // The line list handed to layoutreader
  // ---------------------------------------------------------------------

  /** Kinds whose lines layoutreader orders directly. */
  predicate IsLineSorted(t: BlockType) {
    SpanOps.IsTextFamily(t) || t == BlockType.InterlineEquation
  }

  /** Image and table bodies, whose own lines are set aside for bands. */
  predicate IsBody(t: BlockType) {
    t == BlockType.ImageBody || t == BlockType.TableBody
  }

  function LineBox(l: Line): Box { l.bbox }

  /** A virtual line: `{'bbox': band, 'spans': []}`. */
  function VirtualLine(b: Box): Line { LineOf(b, []) }

  /** The boxes one block contributes to the page line list. */
  function Listed(b: Block): seq<Box> {
    if IsLineSorted(b.kind) || IsBody(b.kind) then Map(b.lines, LineBox) else []
  }

  /** The page line list of already prepared blocks, in block order. */
  function PageLines(blocks: seq<Block>): seq<Box> {
    if |blocks| == 0 then [] else Listed(blocks[0]) + PageLines(blocks[1..])
  }

  /** One block's pass of the collection loop: a listed block without lines
      receives virtual lines; a body keeps its lines as `real_lines` and
      receives virtual lines; other kinds are left alone. */
  function PrepareBlock(b: Block, lh: real, pageW: real, pageH: real): (r: Option<Block>)
    ensures r.Some? ==> r.value.kind == b.kind && r.value.bbox == b.bbox
    ensures r.Some? && IsBody(b.kind) ==> r.value.realLines == Some(b.lines)
    ensures r.Some? && IsLineSorted(b.kind) && |b.lines| > 0 ==> r.value == b
    ensures r.Some? && !IsLineSorted(b.kind) && !IsBody(b.kind) ==> r.value == b
    ensures lh != 0.0 && b.bbox.x1 != b.bbox.x0 ==> r.Some?
  {
    if IsLineSorted(b.kind) then
      if |b.lines| == 0 then
        match InsertLinesIntoBlock(b.bbox, lh, pageW, pageH)
        case None => None
        case Some(bands) => Some(b.(lines := Map(bands, VirtualLine)))
      else Some(b)
    else if IsBody(b.kind) then
      match InsertLinesIntoBlock(b.bbox, lh, pageW, pageH)
      case None => None
      case Some(bands) => Some(b.(realLines := Some(b.lines), lines := Map(bands, VirtualLine)))
    else Some(b)
  }

  /** The collection loop of `sort_lines_by_model` over all blocks. */
  function PrepareBlocks(blocks: seq<Block>, lh: real, pageW: real, pageH: real): (r: Option<seq<Block>>)
    ensures r.Some? <==> forall i :: 0 <= i < |blocks| ==> PrepareBlock(blocks[i], lh, pageW, pageH).Some?
    ensures r.Some? ==> (|r.value| == |blocks|
      && forall i :: 0 <= i < |blocks| ==> PrepareBlock(blocks[i], lh, pageW, pageH) == Some(r.value[i]))
  {
    AllSome(blocks, (b: Block) => PrepareBlock(b, lh, pageW, pageH))
  }

  function ClampLow(v: real): real { if v < 0.0 then 0.0 else v }
  function ClampHigh(v: real, page: real): real { if v > page then page else v }

  /** `round(v * scale)`, with `scale = 1000.0 / page` worked out once per
      axis by the caller. */
  function Scaled(v: real, scale: real): int {
    RoundHalfEven(v * scale)
  }

  /** The clamping to the page, `round(v * scale)`, and the assertion that the
      result lies in 0..1000 (None when it fails). */
  function ScaleBox(b: Box, pageW: real, pageH: real): (r: Option<XyCut.IBox>)
    requires pageW != 0.0 && pageH != 0.0
    ensures r.Some? ==> 0 <= r.value.x0 <= r.value.x1 <= 1000 && 0 <= r.value.y0 <= r.value.y1 <= 1000
  {
    var sx, sy := 1000.0 / pageW, 1000.0 / pageH;
    var l := Scaled(ClampLow(b.x0), sx);
    var t := Scaled(ClampLow(b.y0), sy);
    var rr := Scaled(ClampHigh(b.x1, pageW), sx);
    var bo := Scaled(ClampHigh(b.y1, pageH), sy);
    if 1000 >= rr >= l >= 0 && 1000 >= bo >= t >= 0 then Some(XyCut.IBox(l, t, rr, bo)) else None
  }

  lemma ScaledMonotone(lo: real, hi: real, scale: real)
    requires lo <= hi && scale > 0.0
    ensures Scaled(lo, scale) <= Scaled(hi, scale)
  {
    MulLe(lo, hi, scale);
    RoundHalfEvenMonotone(lo * scale, hi * scale);
  }

  lemma MulLe(lo: real, hi: real, k: real)
    requires lo <= hi && k > 0.0
    ensures lo * k <= hi * k
  {
    MulMono(0.0, k, hi - lo, k);
    assert hi * k - lo * k == (hi - lo) * k;
  }

  /** Zero maps to 0 and the page's own extent to 1000. */
  lemma ScaledEnds(page: real, scale: real)
    requires page > 0.0 && scale == 1000.0 / page
    ensures scale > 0.0
    ensures Scaled(0.0, scale) == 0 && Scaled(page, scale) == 1000
  {
    assert page * scale == 1000.0;
    RoundHalfEvenInt(0);
    RoundHalfEvenInt(1000);
  }

  lemma ScaledAxis(lo: real, hi: real, page: real, scale: real)
    requires 0.0 <= lo <= hi <= page && page > 0.0 && scale == 1000.0 / page
    ensures 0 <= Scaled(lo, scale) <= Scaled(hi, scale) <= 1000
  {
    ScaledEnds(page, scale);
    ScaledMonotone(0.0, lo, scale);
    ScaledMonotone(lo, hi, scale);
    ScaledMonotone(hi, page, scale);
  }

  /** The assertion never fires for a well-formed box that meets the page. */
  lemma ScaleBoxOnPage(b: Box, pageW: real, pageH: real)
    requires pageW > 0.0 && pageH > 0.0
    requires b.x0 <= b.x1 && b.y0 <= b.y1
    requires b.x0 <= pageW && 0.0 <= b.x1 && b.y0 <= pageH && 0.0 <= b.y1
    ensures ScaleBox(b, pageW, pageH).Some?
  {
    ScaledAxis(ClampLow(b.x0), ClampHigh(b.x1, pageW), pageW, 1000.0 / pageW);
    ScaledAxis(ClampLow(b.y0), ClampHigh(b.y1, pageH), pageH, 1000.0 / pageH);
  }

  /** Every box of the list scaled, or None at the first failed assertion. */
  function ScaleAll(list: seq<Box>, pageW: real, pageH: real): (r: Option<seq<XyCut.IBox>>)
    requires pageW != 0.0 && pageH != 0.0
    ensures r.Some? <==> forall i :: 0 <= i < |list| ==> ScaleBox(list[i], pageW, pageH).Some?
    ensures r.Some? ==> (|r.value| == |list|
      && forall i :: 0 <= i < |list| ==> ScaleBox(list[i], pageW, pageH) == Some(r.value[i]))
  {
    AllSome(list, (b: Box) => ScaleBox(b, pageW, pageH))
  }

  /** A permutation of `0..n-1`, as layoutreader's `parse_logits` gives. */
  predicate IsOrder(o: seq<nat>, n: nat) {
    multiset(o) == multiset(Range(n))
  }

  /** What `sort_lines_by_model` leaves behind: the prepared blocks (they are
      changed in place even when the model is not consulted) and, unless the
      page has more than 200 lines, the line boxes in the model's order. */
  datatype SortOutcome =
    | SortFailed
    | TooManyLines(blocks: seq<Block>)
    | LinesSorted(blocks: seq<Block>, order: seq<Box>)

  function Pick(list: seq<Box>, o: seq<nat>): (r: seq<Box>)
    requires forall k :: 0 <= k < |o| ==> o[k] < |list|
    ensures |r| == |o|
    ensures forall k :: 0 <= k < |o| ==> r[k] == list[o[k]]
  {
    seq(|o|, k requires 0 <= k < |o| => list[o[k]])
  }

  lemma OrderInRange(o: seq<nat>, n: nat)
    requires IsOrder(o, n)
    ensures |o| == n
    ensures forall k :: 0 <= k < |o| ==> o[k] < n
  {
    assert |multiset(o)| == |multiset(Range(n))|;
    forall k | 0 <= k < |o| ensures o[k] < n {
      assert o[k] in multiset(Range(n));
    }
  }

  /** `sort_lines_by_model`. `oracle` stands for the layoutreader model:
      given the scaled boxes it gives a reading order of them. A page
      whose size is zero raises ZeroDivisionError, a line box whose scaled
      coordinates leave 0..1000 trips the assertion, and a block the bands
      cannot be computed for raises ZeroDivisionError: all SortFailed. */
  function SortLinesByModel(blocks: seq<Block>, pageW: real, pageH: real, lh: real,
                            oracle: seq<XyCut.IBox> -> seq<nat>): (r: SortOutcome)
    requires forall bs :: IsOrder(oracle(bs), |bs|)
    ensures r.TooManyLines? ==> |PageLines(r.blocks)| > 200
    ensures r.LinesSorted? ==> |PageLines(r.blocks)| <= 200
    ensures r.LinesSorted? ==> multiset(r.order) == multiset(PageLines(r.blocks))
    ensures !r.SortFailed? ==> PrepareBlocks(blocks, lh, pageW, pageH) == Some(r.blocks)
  {
    match PrepareBlocks(blocks, lh, pageW, pageH)
    case None => SortFailed
    case Some(prepared) =>
      var list := PageLines(prepared);
      if |list| > 200 then TooManyLines(prepared)
      else if pageW == 0.0 || pageH == 0.0 then SortFailed
      else
        match ScaleAll(list, pageW, pageH)
        case None => SortFailed
        case Some(boxes) =>
          var o := oracle(boxes);
          OrderInRange(o, |list|);
          PickPermutes(list, o);
          LinesSorted(prepared, Pick(list, o))
  }

  /** Picking every position once yields a permutation of the list. */
  lemma PickPermutes(list: seq<Box>, o: seq<nat>)
    requires IsOrder(o, |list|)
    requires forall k :: 0 <= k < |o| ==> o[k] < |list|
    ensures multiset(Pick(list, o)) == multiset(list)
  {
    var f := At(list);
    MapSubMultiset(o, Range(|list|), f);
    MapSubMultiset(Range(|list|), o, f);
    assert Map(o, f) == Pick(list, o);
    assert Map(Range(|list|), f) == list;
  }

  /** Reads a position of the list (a default box past its end, which the
      callers never reach). */
  function At(list: seq<Box>): nat -> Box {
    (k: nat) => if k < |list| then list[k] else Box(0.0, 0.0, 0.0, 0.0)
  }

  // ---------------------------------------------------------------------
  // Line height
  // ---------------------------------------------------------------------

  /** `int(y1 - y0)` of a line. */
  function LineHeight(l: Line): real { Trunc(l.bbox.y1 - l.bbox.y0) as real }

  function HeightsOf(b: Block): seq<real> {
    if SpanOps.IsTextFamily(b.kind) then Map(b.lines, LineHeight) else []
  }

  /** The heights of all lines of text-family blocks, in page order. */
  function LineHeights(blocks: seq<Block>): seq<real> {
    if |blocks| == 0 then [] else HeightsOf(blocks[0]) + LineHeights(blocks[1..])
  }

  /** `get_line_height`: the median truncated height of the text lines, or
      10 on a page without any. */
  function GetLineHeight(blocks: seq<Block>): (r: real)
    ensures |LineHeights(blocks)| == 0 ==> r == 10.0
    ensures |LineHeights(blocks)| > 0 ==> r == MiddleOf(SortBy(LineHeights(blocks), Id))
    ensures |LineHeights(blocks)| > 0 ==>
      (exists j :: 0 <= j < |LineHeights(blocks)| && LineHeights(blocks)[j] <= r)
      && (exists j :: 0 <= j < |LineHeights(blocks)| && r <= LineHeights(blocks)[j])
  {
    var hs := LineHeights(blocks);
    if |hs| > 0 then
      MedianBounds(hs);
      MedianOfSorted(hs, SortBy(hs, Id));
      Median(hs)
    else 10.0
  }

  /** When every text line has the same truncated height, that is the
      line height. */
  lemma GetLineHeightUniform(blocks: seq<Block>, h: real)
    requires |LineHeights(blocks)| > 0
    requires forall j :: 0 <= j < |LineHeights(blocks)| ==> LineHeights(blocks)[j] == h
    ensures GetLineHeight(blocks) == h
  {
    MedianConstant(LineHeights(blocks), h);
  }

  // ---------------------------------------------------------------------
  // Ranks from the layoutreader order
  // ---------------------------------------------------------------------

  /** The position of each line's box in the order (`sorted_bboxes.index`),
      or None when one is missing (ValueError). */
  function Positions(lines: seq<Line>, order: seq<Box>): (r: Option<seq<nat>>)
    ensures r.Some? <==> forall i :: 0 <= i < |lines| ==> lines[i].bbox in order
    ensures r.Some? ==> (|r.value| == |lines|
      && forall i :: 0 <= i < |lines| ==> IndexOf(order, lines[i].bbox) == Some(r.value[i]))
  {
    AllSome(lines, (l: Line) => IndexOf(order, l.bbox))
  }

  function AsReal(k: nat): real { k as real }

  function Ranked(lines: seq<Line>, ps: seq<nat>): (r: seq<Line>)
    requires |ps| == |lines|
    ensures |r| == |lines|
    ensures forall i :: 0 <= i < |lines| ==> r[i] == lines[i].(index := Some(ps[i]))
  {
    seq(|lines|, i requires 0 <= i < |lines| => lines[i].(index := Some(ps[i])))
  }

  /** A body's saved lines back in place of its virtual ones (KeyError, None
      here, if none were saved); other blocks as they are. */
  function RestoreBody(b: Block): (r: Option<Block>)
    ensures r.Some? <==> !IsBody(b.kind) || b.realLines.Some?
    ensures r.Some? && IsBody(b.kind) ==> r.value == b.(lines := b.realLines.value, realLines := None)
    ensures r.Some? && !IsBody(b.kind) ==> r.value == b
  {
    if IsBody(b.kind) then
      if b.realLines.None? then None else Some(b.(lines := b.realLines.value, realLines := None))
    else Some(b)
  }

  /** The ranking of one block from the model's order: a block without lines
      takes the position of its own box, otherwise each line takes the
      position of its box and the block the median of those; a body then
      gets its saved lines back. */
  function RankBlock(b: Block, order: seq<Box>): (r: Option<Block>)
    ensures r.Some? ==> r.value.kind == b.kind && r.value.bbox == b.bbox && r.value.index.Some?
    ensures r.Some? && |b.lines| == 0 ==>
      IndexOf(order, b.bbox).Some? && r.value.index == Some(IndexOf(order, b.bbox).value as real)
    ensures r.Some? && |b.lines| > 0 ==> (Positions(b.lines, order).Some?
      && r.value.index == Some(Median(Map(Positions(b.lines, order).value, AsReal))))
    ensures r.Some? && !IsBody(b.kind) ==> (|r.value.lines| == |b.lines|
      && forall i :: 0 <= i < |b.lines| ==>
           r.value.lines[i].bbox == b.lines[i].bbox && r.value.lines[i].index.Some?
           && IndexOf(order, b.lines[i].bbox).Some?
           && IndexOf(order, b.lines[i].bbox).value == r.value.lines[i].index.value)
    ensures r.Some? && IsBody(b.kind) ==> b.realLines.Some? && r.value.lines == b.realLines.value
    ensures ((forall i :: 0 <= i < |b.lines| ==> b.lines[i].bbox in order)
      && (|b.lines| == 0 ==> b.bbox in order)
      && (IsBody(b.kind) ==> b.realLines.Some?)) ==> r.Some?
  {
    var ranked :=
      if |b.lines| == 0 then
        match IndexOf(order, b.bbox)
        case None => None
        case Some(k) => Some(b.(index := Some(k as real)))
      else
        match Positions(b.lines, order)
        case None => None
        case Some(ps) => Some(b.(lines := Ranked(b.lines, ps), index := Some(Median(Map(ps, AsReal)))));
    if ranked.None? then None else RestoreBody(ranked.value)
  }

  /** A block with lines is ranked at the median of its lines' positions:
      the middle of any ascending arrangement of them, between the first
      and the last. */
  lemma RankBlockMedian(b: Block, order: seq<Box>)
    requires RankBlock(b, order).Some? && |b.lines| > 0
    ensures Positions(b.lines, order).Some?
      && IsMedian(Map(Positions(b.lines, order).value, AsReal), RankBlock(b, order).value.index.value)
    ensures var idx := RankBlock(b, order).value.index.value;
      (exists i :: 0 <= i < |b.lines| && IndexOf(order, b.lines[i].bbox).value as real <= idx)
      && (exists i :: 0 <= i < |b.lines| && idx <= IndexOf(order, b.lines[i].bbox).value as real)
  {
    var ps := Positions(b.lines, order).value;
    var xs := Map(ps, AsReal);
    MedianIsMedian(xs);
    MedianBounds(xs);
    var lo :| 0 <= lo < |xs| && xs[lo] <= Median(xs);
    var hi :| 0 <= hi < |xs| && Median(xs) <= xs[hi];
    assert IndexOf(order, b.lines[lo].bbox).value == ps[lo];
    assert IndexOf(order, b.lines[hi].bbox).value == ps[hi];
  }

  /** `cal_block_index` with an order from layoutreader. */
  function RankByOrder(blocks: seq<Block>, order: seq<Box>): (r: Option<seq<Block>>)
    ensures r.Some? <==> forall i :: 0 <= i < |blocks| ==> RankBlock(blocks[i], order).Some?
    ensures r.Some? ==> (|r.value| == |blocks|
      && forall i :: 0 <= i < |blocks| ==> RankBlock(blocks[i], order) == Some(r.value[i]))
  {
    AllSome(blocks, (b: Block) => RankBlock(b, order))
  }

  /** With a positive line height a block always gets at least one band. */
  lemma InsertLinesNonEmpty(b: Box, lh: real, pageW: real, pageH: real)
    requires lh > 0.0 && InsertLinesIntoBlock(b, lh, pageW, pageH).Some?
    ensures |InsertLinesIntoBlock(b, lh, pageW, pageH).value| > 0
  {
    var h := b.y1 - b.y0;
    if lh * 3.0 < h {
      TruncBandsCover(h, lh);
    }
  }

  /** Every line of a listed block is on the page line list. */
  lemma {:induction false} ListedInPageLines(blocks: seq<Block>, i: nat, t: nat)
    requires i < |blocks| && t < |blocks[i].lines|
    requires IsLineSorted(blocks[i].kind) || IsBody(blocks[i].kind)
    ensures blocks[i].lines[t].bbox in PageLines(blocks)
  {
    if i == 0 {
      assert Listed(blocks[0])[t] == blocks[0].lines[t].bbox;
    } else {
      ListedInPageLines(blocks[1..], i - 1, t);
      assert blocks[1..][i - 1] == blocks[i];
    }
  }

  /** After layoutreader has ordered the page, ranking the blocks cannot
      fail when every block is one whose lines are listed: each block has
      lines, each line's box is in the order, and each body has saved
      lines to get back. */
  lemma RankAfterModel(blocks: seq<Block>, pageW: real, pageH: real, lh: real,
                       oracle: seq<XyCut.IBox> -> seq<nat>)
    requires forall bs :: IsOrder(oracle(bs), |bs|)
    requires lh > 0.0
    requires forall i :: 0 <= i < |blocks| ==> IsLineSorted(blocks[i].kind) || IsBody(blocks[i].kind)
    requires SortLinesByModel(blocks, pageW, pageH, lh, oracle).LinesSorted?
    ensures var r := SortLinesByModel(blocks, pageW, pageH, lh, oracle);
      RankByOrder(r.blocks, r.order).Some?
  {
    var r := SortLinesByModel(blocks, pageW, pageH, lh, oracle);
    var bl := r.blocks;
    forall i | 0 <= i < |bl| ensures RankBlock(bl[i], r.order).Some? {
      PreparedHasLines(blocks[i], lh, pageW, pageH);
      assert PrepareBlock(blocks[i], lh, pageW, pageH) == Some(bl[i]);
      forall t | 0 <= t < |bl[i].lines| ensures bl[i].lines[t].bbox in r.order {
        ListedInOrder(bl, r.order, i, t);
      }
    }
  }

  /** A listed block comes out of the collection loop with lines, and a
      body with its own lines saved. */
  lemma PreparedHasLines(b: Block, lh: real, pageW: real, pageH: real)
    requires lh > 0.0 && PrepareBlock(b, lh, pageW, pageH).Some?
    requires IsLineSorted(b.kind) || IsBody(b.kind)
    ensures |PrepareBlock(b, lh, pageW, pageH).value.lines| > 0
    ensures IsBody(b.kind) ==> PrepareBlock(b, lh, pageW, pageH).value.realLines.Some?
  {
    if IsBody(b.kind) || |b.lines| == 0 {
      InsertLinesNonEmpty(b.bbox, lh, pageW, pageH);
    }
  }

  /** A line of a listed block is in any rearrangement of the page line
      list. */
  lemma ListedInOrder(bl: seq<Block>, order: seq<Box>, i: nat, t: nat)
    requires multiset(order) == multiset(PageLines(bl))
    requires i < |bl| && t < |bl[i].lines|
    requires IsLineSorted(bl[i].kind) || IsBody(bl[i].kind)
    ensures bl[i].lines[t].bbox in order
  {
    ListedInPageLines(bl, i, t);
    assert bl[i].lines[t].bbox in multiset(PageLines(bl));
  }

  // ---------------------------------------------------------------------
  // Ranks from the XY-cut
  // ---------------------------------------------------------------------

  /** The box of every block, `[block['bbox'] for block in fix_blocks]`. */
  function Boxes(blocks: seq<Block>): (r: seq<Box>)
    ensures |r| == |blocks| && forall i :: 0 <= i < |blocks| ==> r[i] == blocks[i].bbox
  {
    seq(|blocks|, i requires 0 <= i < |blocks| => blocks[i].bbox)
  }

  /** `astype(int)` of a box. */
  function TruncBox(b: Box): XyCut.IBox {
    XyCut.IBox(Trunc(b.x0), Trunc(b.y0), Trunc(b.x1), Trunc(b.y1))
  }

  /** The indices emitted by the cut as positions below `n` (an IndexError,
      None here, for one that is not). */
  function InRange(s: seq<int>, n: nat): (r: Option<seq<nat>>)
    ensures r.Some? <==> forall k :: 0 <= k < |s| ==> 0 <= s[k] < n
    ensures r.Some? ==> r.value == s
  {
    if |s| == 0 then Some([])
    else if !(0 <= s[0] < n) then None
    else
      match InRange(s[1..], n)
      case None =>
        assert exists k :: 1 <= k < |s| && !(0 <= s[k] < n) by {
          var j :| 0 <= j < |s| - 1 && !(0 <= s[1..][j] < n);
        }
        None
      case Some(rest) => Some([s[0] as nat] + rest)
  }

  /** The cut of the truncated boxes, labelled 0..n-1, as positions: the cut
      of no boxes fails, and so do the assertion that the cut emitted every
      box and an emitted label that is not a position. */
  function CutOrder(ints: seq<XyCut.IBox>): (r: Option<seq<nat>>)
    ensures r.Some? ==> |r.value| == |ints| > 0
    ensures r.Some? ==> forall k :: 0 <= k < |r.value| ==> r.value[k] < |ints|
  {
    match XyCut.RecursiveXYCut(ints, Range(|ints|))
    case None => None
    case Some(res) =>
      if |res| != |ints| then None else InRange(res, |ints|)
  }

  /** The shuffled boxes, `random_boxes[index]` after `np.random.shuffle`. */
  function Shuffled(boxes: seq<Box>, perm: seq<nat>): (r: seq<XyCut.IBox>)
    requires IsOrder(perm, |boxes|)
    ensures |r| == |boxes|
    ensures forall k :: 0 <= k < |r| ==> k < |perm| && perm[k] < |boxes| && r[k] == TruncBox(boxes[perm[k]])
  {
    OrderInRange(perm, |boxes|);
    seq(|boxes|, k requires 0 <= k < |boxes| => TruncBox(boxes[perm[k]]))
  }

  /** The box order of the XY-cut branch of `cal_block_index`: the boxes in
      the shuffled order `perm`, cut, and read back in the order the cut
      emits. */
  function XyCutOrder(boxes: seq<Box>, perm: seq<nat>): (r: Option<seq<Box>>)
    requires IsOrder(perm, |boxes|)
    ensures r.Some? ==> |r.value| == |boxes| > 0
  {
    OrderInRange(perm, |boxes|);
    var random := Pick(boxes, perm);
    var ints := Shuffled(boxes, perm);
    match CutOrder(ints)
    case None => None
    case Some(order) => Some(Pick(random, order))
  }

  /** A sub-multiset as large as the whole is the whole. */
  lemma SubMultisetFull<T>(a: seq<T>, b: seq<T>)
    requires multiset(a) <= multiset(b) && |a| == |b|
    ensures multiset(a) == multiset(b)
  {
    var d := multiset(b) - multiset(a);
    assert multiset(b) == multiset(a) + d;
    assert |d| == 0;
  }

  /** Every member of `Range(n)` is below `n`. */
  lemma RangeMembers(n: nat, x: int)
    requires x in multiset(Range(n))
    ensures 0 <= x < n
  {
    assert x in Range(n);
  }

  /** The cut order, when there is one, takes every position once. */
  lemma CutOrderIsOrder(ints: seq<XyCut.IBox>)
    requires CutOrder(ints).Some?
    ensures IsOrder(CutOrder(ints).value, |ints|)
  {
    var n := |ints|;
    XyCut.RecursiveXYCutPermutes(ints, Range(n));
    var res := XyCut.RecursiveXYCut(ints, Range(n)).value;
    SubMultisetFull(res, Range(n));
  }

  /** The shuffled boxes keep what holds of every box. */
  lemma ShuffledNonNeg(boxes: seq<Box>, perm: seq<nat>)
    requires IsOrder(perm, |boxes|)
    requires forall k :: 0 <= k < |boxes| ==> XyCut.NonNeg(TruncBox(boxes[k]))
    ensures forall b :: b in Shuffled(boxes, perm) ==> XyCut.NonNeg(b)
  {
    var ints := Shuffled(boxes, perm);
    forall b | b in ints ensures XyCut.NonNeg(b) {
      var k :| 0 <= k < |ints| && ints[k] == b;
      assert XyCut.NonNeg(TruncBox(boxes[perm[k]]));
    }
  }

  lemma ShuffledProper(boxes: seq<Box>, perm: seq<nat>)
    requires IsOrder(perm, |boxes|)
    requires forall k :: 0 <= k < |boxes| ==> XyCut.Proper(TruncBox(boxes[k]))
    ensures forall b :: b in Shuffled(boxes, perm) ==> XyCut.Proper(b)
  {
    var ints := Shuffled(boxes, perm);
    forall b | b in ints ensures XyCut.Proper(b) {
      var k :| 0 <= k < |ints| && ints[k] == b;
      assert XyCut.Proper(TruncBox(boxes[perm[k]]));
    }
  }

  /** The XY-cut order is a rearrangement of the boxes. */
  lemma XyCutOrderPermutes(boxes: seq<Box>, perm: seq<nat>)
    requires IsOrder(perm, |boxes|)
    requires XyCutOrder(boxes, perm).Some?
    ensures multiset(XyCutOrder(boxes, perm).value) == multiset(boxes)
  {
    OrderInRange(perm, |boxes|);
    var random := Pick(boxes, perm);
    PickPermutes(boxes, perm);
    var ints := Shuffled(boxes, perm);
    CutOrderIsOrder(ints);
    var order := CutOrder(ints).value;
    PickPermutes(random, order);
  }

  /** A cut that emits every index of `Range(n)` emits only positions
      below `n`. */
  lemma CutInRange(res: seq<int>, n: nat)
    requires multiset(res) <= multiset(Range(n))
    ensures forall k :: 0 <= k < |res| ==> 0 <= res[k] < n
  {
    forall k | 0 <= k < |res| ensures 0 <= res[k] < n {
      assert res[k] in multiset(res);
      RangeMembers(n, res[k]);
    }
  }

  /** Boxes that each have positive width and height always cut. */
  lemma CutOrderExists(ints: seq<XyCut.IBox>)
    requires forall b :: b in ints ==> XyCut.NonNeg(b) && XyCut.Proper(b)
    requires |ints| > 0
    ensures CutOrder(ints).Some?
  {
    var n := |ints|;
    XyCut.RecursiveXYCutPermutes(ints, Range(n));
    var res := XyCut.RecursiveXYCut(ints, Range(n)).value;
    CutInRange(res, n);
  }

  /** The XY-cut order exists whenever there are boxes and each has positive
      width and height once truncated. */
  lemma XyCutOrderExists(boxes: seq<Box>, perm: seq<nat>)
    requires IsOrder(perm, |boxes|)
    requires forall k :: 0 <= k < |boxes| ==> XyCut.NonNeg(TruncBox(boxes[k]))
    requires |boxes| > 0
    requires forall k :: 0 <= k < |boxes| ==> XyCut.Proper(TruncBox(boxes[k]))
    ensures XyCutOrder(boxes, perm).Some?
  {
    var ints := Shuffled(boxes, perm);
    ShuffledNonNeg(boxes, perm);
    ShuffledProper(boxes, perm);
    CutOrderExists(ints);
  }

  /** Every body gets its saved lines back. */
  function RestoreAll(blocks: seq<Block>): (r: Option<seq<Block>>)
    ensures r.Some? <==> forall i :: 0 <= i < |blocks| ==> RestoreBody(blocks[i]).Some?
    ensures r.Some? ==> (|r.value| == |blocks|
      && forall i :: 0 <= i < |blocks| ==> RestoreBody(blocks[i]) == Some(r.value[i]))
  {
    AllSome(blocks, (b: Block) => RestoreBody(b))
  }

  /** Each block ranked by the position of its own box in `order`
      (`sorted_boxes.index`, a ValueError when it is missing). */
  function RankByBox(blocks: seq<Block>, order: seq<Box>): (r: Option<seq<Block>>)
    ensures r.Some? <==> forall i :: 0 <= i < |blocks| ==> blocks[i].bbox in order
    ensures r.Some? ==> (|r.value| == |blocks|
      && forall i :: 0 <= i < |blocks| ==>
           IndexOf(order, blocks[i].bbox).Some?
           && r.value[i] == blocks[i].(index := Some(IndexOf(order, blocks[i].bbox).value as real)))
  {
    AllSome(blocks, (b: Block) =>
      match IndexOf(order, b.bbox)
      case None => None
      case Some(k) => Some(b.(index := Some(k as real))))
  }

  function IndexValue(b: Block): real { if b.index.Some? then b.index.value else 0.0 }

  function RankKey(ranks: seq<real>): nat -> real {
    (k: nat) => if k < |ranks| then ranks[k] else 0.0
  }

  /** `sorted(fix_blocks, key=lambda b: b['index'])`, as positions. */
  function ReadOrder(blocks: seq<Block>): seq<nat> {
    SortBy(Range(|blocks|), RankKey(Map(blocks, IndexValue)))
  }

  function LinesAt(blocks: seq<Block>): nat -> seq<Line> {
    (k: nat) => if k < |blocks| then blocks[k].lines else []
  }

  /** The lines read block by block in the order `o`. */
  function LinesRead(blocks: seq<Block>, o: seq<nat>): seq<Line> {
    Flatten(Map(o, LinesAt(blocks)))
  }

  /** Lines numbered consecutively from `start`. */
  function NumberFrom(ls: seq<Line>, start: int): (r: seq<Line>)
    ensures |r| == |ls|
    ensures forall t :: 0 <= t < |ls| ==> r[t] == ls[t].(index := Some(start + t))
  {
    seq(|ls|, t requires 0 <= t < |ls| => ls[t].(index := Some(start + t)))
  }

  lemma NumberFromConcat(a: seq<Line>, b: seq<Line>, start: int)
    ensures NumberFrom(a + b, start) == NumberFrom(a, start) + NumberFrom(b, start + |a|)
  {
    var l := NumberFrom(a + b, start);
    var rr := NumberFrom(a, start) + NumberFrom(b, start + |a|);
    forall t | 0 <= t < |l| ensures l[t] == rr[t] {
      if t >= |a| {
        assert (a + b)[t] == b[t - |a|];
      }
    }
  }

  /** Where block `i` stands in the order `o`. */
  function PosIn(o: seq<nat>, n: nat, i: nat): (p: nat)
    requires IsOrder(o, n) && i < n
    ensures p < |o| && o[p] == i
  {
    assert i in multiset(o) by { assert Range(n)[i] == i; }
    IndexOf(o, i).value
  }

  /** The first line number of the block at position `j` of `o`. */
  function StartAt(blocks: seq<Block>, o: seq<nat>, j: nat): int
    requires j <= |o|
  {
    1 + |LinesRead(blocks, o[..j])|
  }

  /** The numbering loop: the blocks are walked in the order `o` and their
      lines numbered from 1 on. */
  function NumberLines(blocks: seq<Block>, o: seq<nat>): (r: seq<Block>)
    requires IsOrder(o, |blocks|)
    ensures |r| == |blocks|
    ensures forall i :: 0 <= i < |blocks| ==>
      r[i] == blocks[i].(lines := NumberFrom(blocks[i].lines, StartAt(blocks, o, PosIn(o, |blocks|, i))))
  {
    seq(|blocks|, i requires 0 <= i < |blocks| =>
      blocks[i].(lines := NumberFrom(blocks[i].lines, StartAt(blocks, o, PosIn(o, |blocks|, i)))))
  }

  lemma RangeDistinct(n: nat)
    ensures Distinct(Range(n))
  {
  }

  /** Reading one more block appends its lines. */
  lemma LinesReadSnoc(blocks: seq<Block>, o: seq<nat>, j: nat)
    requires 0 < j <= |o|
    requires o[j - 1] < |blocks|
    ensures LinesRead(blocks, o[..j]) == LinesRead(blocks, o[..j - 1]) + blocks[o[j - 1]].lines
  {
    assert o[..j] == o[..j - 1] + [o[j - 1]];
    assert Map(o[..j], LinesAt(blocks)) == Map(o[..j - 1], LinesAt(blocks)) + [blocks[o[j - 1]].lines];
    FlattenSnoc(Map(o[..j - 1], LinesAt(blocks)), blocks[o[j - 1]].lines);
  }

  /** The block at position `p` of an order is found at that position. */
  lemma PosInAt(o: seq<nat>, n: nat, p: nat)
    requires IsOrder(o, n) && p < |o|
    ensures o[p] < n && PosIn(o, n, o[p]) == p
  {
    OrderInRange(o, n);
    RangeDistinct(n);
    DistinctPermutation(Range(n), o);
  }

  /** Read in the order `o`, the numbered lines are the blocks' own lines
      numbered 1, 2, 3, ... */
  lemma {:induction false} NumberLinesPrefix(blocks: seq<Block>, o: seq<nat>, j: nat)
    requires IsOrder(o, |blocks|) && j <= |o|
    ensures LinesRead(NumberLines(blocks, o), o[..j]) == NumberFrom(LinesRead(blocks, o[..j]), 1)
    decreases j
  {
    var nb := NumberLines(blocks, o);
    if j == 0 {
      assert o[..0] == [];
    } else {
      NumberLinesPrefix(blocks, o, j - 1);
      PosInAt(o, |blocks|, j - 1);
      var k := o[j - 1];
      assert nb[k].lines == NumberFrom(blocks[k].lines, StartAt(blocks, o, j - 1));
      LinesReadSnoc(nb, o, j);
      LinesReadSnoc(blocks, o, j);
      NumberFromConcat(LinesRead(blocks, o[..j - 1]), blocks[k].lines, 1);
    }
  }

  /** The XY-cut branch of `cal_block_index`: bodies get their saved lines
      back, the block boxes are shuffled by `perm` and cut, each block is
      ranked by the position of its box in the cut's order, and the lines
      are numbered from 1 walking the blocks by rank. `perm` stands for
      `np.random.shuffle`. */
  function RankByXyCut(blocks: seq<Block>, perm: seq<nat>): (r: Option<seq<Block>>)
    requires IsOrder(perm, |blocks|)
    ensures r.Some? ==> |r.value| == |blocks| && BlockCutOrder(blocks, perm).Some?
    ensures r.Some? ==> forall i :: 0 <= i < |blocks| ==>
      CutRanked(blocks[i], r.value[i], BlockCutOrder(blocks, perm).value)
  {
    match RestoreAll(blocks)
    case None => None
    case Some(restored) =>
      match BlockCutOrder(blocks, perm)
      case None => None
      case Some(order) =>
        var res := RankAndNumber(restored, order);
        if res.None? then None
        else
          RankedRestored(blocks, order);
          res
  }

  /** The XY-cut order of the blocks' own boxes. */
  function BlockCutOrder(blocks: seq<Block>, perm: seq<nat>): (r: Option<seq<Box>>)
    requires IsOrder(perm, |blocks|)
  {
    XyCutOrder(Boxes(blocks), perm)
  }

  /** Every block restored, ranked and renumbered is ranked by its box. */
  lemma RankedRestored(blocks: seq<Block>, order: seq<Box>)
    requires RestoreAll(blocks).Some?
    requires RankAndNumber(RestoreAll(blocks).value, order).Some?
    ensures forall i :: 0 <= i < |blocks| ==>
      CutRanked(blocks[i], RankAndNumber(RestoreAll(blocks).value, order).value[i], order)
  {
    var restored := RestoreAll(blocks).value;
    forall i | 0 <= i < |blocks|
      ensures CutRanked(blocks[i], RankAndNumber(restored, order).value[i], order)
    {
      RestoreAllBody(blocks, i);
      RankAndNumberBlock(restored, order, i);
    }
  }

  /** What the XY-cut branch makes of one block `b`: `r` keeps its kind and
      box, is ranked by the first position of its box in `order`, and holds
      the same lines as `b` (a body its saved ones) up to their numbers. */
  predicate CutRanked(b: Block, r: Block, order: seq<Box>) {
    && r.kind == b.kind && r.bbox == b.bbox
    && IndexOf(order, b.bbox).Some?
    && r.index == Some(IndexOf(order, b.bbox).value as real)
    && (IsBody(b.kind) ==> b.realLines.Some? && SameLines(r.lines, b.realLines.value))
    && (!IsBody(b.kind) ==> SameLines(r.lines, b.lines))
  }

  /** The same lines, up to their numbers. */
  predicate SameLines(a: seq<Line>, b: seq<Line>) {
    |a| == |b| && forall t :: 0 <= t < |a| ==> a[t].bbox == b[t].bbox && a[t].spans == b[t].spans
  }

  /** Ranking by the box order, then numbering the lines by rank. */
  function RankAndNumber(blocks: seq<Block>, order: seq<Box>): (r: Option<seq<Block>>)
    ensures r.Some? <==> RankByBox(blocks, order).Some?
    ensures r.Some? ==> |r.value| == |blocks|
  {
    match RankByBox(blocks, order)
    case None => None
    case Some(ranked) =>
      var o := ReadOrder(ranked);
      assert IsOrder(o, |ranked|);
      Some(NumberLines(ranked, o))
  }

  lemma RankAndNumberBlock(blocks: seq<Block>, order: seq<Box>, i: nat)
    requires RankAndNumber(blocks, order).Some? && i < |blocks|
    ensures var r := RankAndNumber(blocks, order).value[i];
      r.kind == blocks[i].kind && r.bbox == blocks[i].bbox
      && IndexOf(order, blocks[i].bbox).Some?
      && r.index == Some(IndexOf(order, blocks[i].bbox).value as real)
      && SameLines(r.lines, blocks[i].lines)
  {
    var ranked := RankByBox(blocks, order).value;
    var o := ReadOrder(ranked);
    assert IsOrder(o, |ranked|);
    var nb := NumberLines(ranked, o);
    assert nb[i].lines == NumberFrom(ranked[i].lines, StartAt(ranked, o, PosIn(o, |ranked|, i)));
  }

  /** Read block by block in ascending rank, the lines of the result are
      numbered 1, 2, 3, ... */
  lemma RankAndNumberNumbering(blocks: seq<Block>, order: seq<Box>)
    requires RankAndNumber(blocks, order).Some?
    ensures var r := RankAndNumber(blocks, order).value;
      var lines := LinesRead(r, ReadOrder(r));
      forall t :: 0 <= t < |lines| ==> lines[t].index == Some(t + 1)
  {
    var ranked := RankByBox(blocks, order).value;
    var o := ReadOrder(ranked);
    assert IsOrder(o, |ranked|);
    var r := NumberLines(ranked, o);
    assert Map(r, IndexValue) == Map(ranked, IndexValue);
    assert ReadOrder(r) == o;
    NumberLinesPrefix(ranked, o, |o|);
    assert o[..|o|] == o;
  }

  /** The ranks read in `ReadOrder` never decrease. */
  lemma ReadOrderSorted(blocks: seq<Block>, p: nat, q: nat)
    requires p <= q < |ReadOrder(blocks)|
    ensures ReadOrder(blocks)[p] < |blocks| && ReadOrder(blocks)[q] < |blocks|
    ensures IndexValue(blocks[ReadOrder(blocks)[p]]) <= IndexValue(blocks[ReadOrder(blocks)[q]])
  {
    var o := ReadOrder(blocks);
    assert IsOrder(o, |blocks|);
    OrderInRange(o, |blocks|);
  }

  /** The XY-cut branch cannot fail when there are blocks, each of positive
      width and height once truncated, and every body has its lines saved. */
  lemma RankByXyCutSucceeds(blocks: seq<Block>, perm: seq<nat>)
    requires IsOrder(perm, |blocks|)
    requires forall k :: 0 <= k < |blocks| ==> XyCut.NonNeg(TruncBox(blocks[k].bbox))
    requires |blocks| > 0
    requires forall k :: 0 <= k < |blocks| ==> XyCut.Proper(TruncBox(blocks[k].bbox))
    requires forall k :: 0 <= k < |blocks| ==> IsBody(blocks[k].kind) ==> blocks[k].realLines.Some?
    ensures RankByXyCut(blocks, perm).Some?
  {
    assert BlockCutOrder(blocks, perm).Some? by { XyCutOrderExists(Boxes(blocks), perm); }
    RestoredInOrder(blocks, perm);
    RankByXyCutSome(blocks, perm);
  }

  /** The XY-cut branch succeeds exactly when the cut order exists, every
      body can be restored, and every restored box is found in the order. */
  lemma RankByXyCutSome(blocks: seq<Block>, perm: seq<nat>)
    requires IsOrder(perm, |blocks|)
    ensures RankByXyCut(blocks, perm).Some? <==>
      BlockCutOrder(blocks, perm).Some? && RestoreAll(blocks).Some?
      && RankByBox(RestoreAll(blocks).value, BlockCutOrder(blocks, perm).value).Some?
  {
  }

  /** Every restored block's box is among the cut order's boxes. */
  lemma RestoredInOrder(blocks: seq<Block>, perm: seq<nat>)
    requires IsOrder(perm, |blocks|)
    requires BlockCutOrder(blocks, perm).Some? && RestoreAll(blocks).Some?
    ensures RankByBox(RestoreAll(blocks).value, BlockCutOrder(blocks, perm).value).Some?
  {
    var boxes := Boxes(blocks);
    XyCutOrderPermutes(boxes, perm);
    var order := XyCutOrder(boxes, perm).value;
    var restored := RestoreAll(blocks).value;
    forall i | 0 <= i < |restored| ensures restored[i].bbox in order {
      RestoreAllBody(blocks, i);
      assert boxes[i] in multiset(order);
    }
  }

  /** Restoring keeps each block's kind and box, and a body gets its saved
      lines back. */
  lemma RestoreAllBody(blocks: seq<Block>, i: nat)
    requires RestoreAll(blocks).Some? && i < |blocks|
    ensures RestoreAll(blocks).value[i].kind == blocks[i].kind && RestoreAll(blocks).value[i].bbox == blocks[i].bbox
    ensures IsBody(blocks[i].kind) ==> RestoreAll(blocks).value[i].lines == blocks[i].realLines.value
    ensures !IsBody(blocks[i].kind) ==> RestoreAll(blocks).value[i].lines == blocks[i].lines
  {
  }
}
