/** The paragraph stage (`para_split_v3`): text blocks are grouped between
    titles and interline equations, each block is classified as text, list
    or index, and neighbouring blocks of a group are merged by moving the
    lines of the later one into the earlier one. Blocks are addressed by
    their position in the document-wide block list, as the source mutates
    the shared dictionaries in place. */
module ParaSplit {
  import opened Base
  import opened BoxBase
  import opened Layout
  import opened TextUtil

  // ---------------------------------------------------------------------
  // Grouping (`__process_blocks`)
  // ---------------------------------------------------------------------

  /** The kinds that close the running text group when they come next. */
  predicate IsBreak(k: BlockType) {
    k == BlockType.Title || k == BlockType.InterlineEquation
  }

  /** How many groups the first `n` iterations closed: iteration `i` closes
      one when block `i + 1` exists and is a break. */
  function Closes(kinds: seq<BlockType>, n: nat): nat {
    if n == 0 then 0
    else Closes(kinds, n - 1) + (if n < |kinds| && IsBreak(kinds[n]) then 1 else 0)
  }

  /** The positions below `n` that hold text blocks, in order. */
  function TextPositions(kinds: seq<BlockType>, n: nat): seq<nat>
    requires n <= |kinds|
  {
    if n == 0 then []
    else TextPositions(kinds, n - 1) + (if kinds[n - 1] == BlockType.Text then [n - 1] else [])
  }

  /** A group: increasing positions of text blocks below `n`. */
  predicate Run(kinds: seq<BlockType>, g: seq<nat>, n: nat) {
    n <= |kinds|
    && (forall a, b :: 0 <= a < b < |g| ==> g[a] < g[b])
    && (forall a :: 0 <= a < |g| ==> g[a] < n && kinds[g[a]] == BlockType.Text)
  }

  /** The loop of `__process_blocks` after `n` iterations: the closed groups
      and the running one. A group is closed even when it is empty. */
  function Scan(kinds: seq<BlockType>, n: nat): (seq<seq<nat>>, seq<nat>)
    requires n <= |kinds|
  {
    if n == 0 then ([], [])
    else
      var p := Scan(kinds, n - 1);
      var cur := if kinds[n - 1] == BlockType.Text then p.1 + [n - 1] else p.1;
      if n < |kinds| && IsBreak(kinds[n]) then (p.0 + [cur], []) else (p.0, cur)
  }

  /** `__process_blocks`: the text groups of a block list. */
  function TextGroups(kinds: seq<BlockType>): seq<seq<nat>> {
    var p := Scan(kinds, |kinds|);
    if |p.1| > 0 then p.0 + [p.1] else p.0
  }

  lemma {:induction false} ScanSpec(kinds: seq<BlockType>, n: nat)
    requires n <= |kinds|
    ensures var p := Scan(kinds, n);
      |p.0| == Closes(kinds, n) && Flatten(p.0) + p.1 == TextPositions(kinds, n)
  {
    if n > 0 {
      ScanSpec(kinds, n - 1);
      var p := Scan(kinds, n - 1);
      var cur := if kinds[n - 1] == BlockType.Text then p.1 + [n - 1] else p.1;
      if kinds[n - 1] == BlockType.Text {
        assert Flatten(p.0) + cur == (Flatten(p.0) + p.1) + [n - 1];
      }
      if n < |kinds| && IsBreak(kinds[n]) {
        FlattenSnoc(p.0, cur);
      }
    }
  }

  predicate AllRuns(kinds: seq<BlockType>, gs: seq<seq<nat>>, n: nat) {
    forall g :: 0 <= g < |gs| ==> Run(kinds, gs[g], n)
  }

  lemma RunWiden(kinds: seq<BlockType>, g: seq<nat>, n: nat)
    requires 0 < n <= |kinds| && Run(kinds, g, n - 1)
    ensures Run(kinds, g, n)
  {
  }

  lemma RunAppend(kinds: seq<BlockType>, g: seq<nat>, n: nat)
    requires 0 < n <= |kinds| && Run(kinds, g, n - 1) && kinds[n - 1] == BlockType.Text
    ensures Run(kinds, g + [n - 1], n)
  {
    var h := g + [n - 1];
    forall a | 0 <= a < |h| ensures h[a] < n && kinds[h[a]] == BlockType.Text {
      if a < |g| {
        assert h[a] == g[a];
      }
    }
    forall a, b | 0 <= a < b < |h| ensures h[a] < h[b] {
      assert h[a] == g[a];
    }
  }

  lemma AllRunsSnoc(kinds: seq<BlockType>, gs: seq<seq<nat>>, g: seq<nat>, n: nat)
    requires 0 < n <= |kinds| && AllRuns(kinds, gs, n - 1) && Run(kinds, g, n)
    ensures AllRuns(kinds, gs, n) && AllRuns(kinds, gs + [g], n)
  {
    forall k | 0 <= k < |gs| ensures Run(kinds, gs[k], n) {
      assert Run(kinds, gs[k], n - 1);
    }
    var q := gs + [g];
    assert forall k :: 0 <= k < |gs| ==> q[k] == gs[k];
  }

  lemma {:induction false} ScanRuns(kinds: seq<BlockType>, n: nat)
    requires n <= |kinds|
    ensures var p := Scan(kinds, n);
      AllRuns(kinds, p.0, n) && Run(kinds, p.1, n)
  {
    if n > 0 {
      ScanRuns(kinds, n - 1);
      var p := Scan(kinds, n - 1);
      if kinds[n - 1] == BlockType.Text {
        RunAppend(kinds, p.1, n);
        AllRunsSnoc(kinds, p.0, p.1 + [n - 1], n);
      } else {
        RunWiden(kinds, p.1, n);
        AllRunsSnoc(kinds, p.0, p.1, n);
      }
    }
  }

  /** Group `g` holds exactly the text blocks that come after `g` closes. */
  lemma {:induction false} ScanCloses(kinds: seq<BlockType>, n: nat)
    requires n <= |kinds|
    ensures var p := Scan(kinds, n);
      (forall g, j :: 0 <= g < |p.0| && 0 <= j < |p.0[g]| ==> Closes(kinds, p.0[g][j]) == g)
      && (forall j :: 0 <= j < |p.1| ==> Closes(kinds, p.1[j]) == |p.0|)
  {
    if n > 0 {
      ScanCloses(kinds, n - 1);
      ScanSpec(kinds, n - 1);
      var p := Scan(kinds, n - 1);
      var cur := if kinds[n - 1] == BlockType.Text then p.1 + [n - 1] else p.1;
      assert forall j :: 0 <= j < |cur| ==> Closes(kinds, cur[j]) == |p.0|;
      if n < |kinds| && IsBreak(kinds[n]) {
        var q := p.0 + [cur];
        assert forall g :: 0 <= g < |p.0| ==> q[g] == p.0[g];
      }
    }
  }

  /** Every text block lands in exactly one group, in document order, and
      every group member is a text block. */
  lemma TextGroupsSpec(kinds: seq<BlockType>)
    ensures var gs := TextGroups(kinds);
      Flatten(gs) == TextPositions(kinds, |kinds|)
      && (forall g :: 0 <= g < |gs| ==> Run(kinds, gs[g], |kinds|))
      && (forall g, j :: 0 <= g < |gs| && 0 <= j < |gs[g]| ==> Closes(kinds, gs[g][j]) == g)
  {
    ScanSpec(kinds, |kinds|);
    ScanRuns(kinds, |kinds|);
    ScanCloses(kinds, |kinds|);
    var p := Scan(kinds, |kinds|);
    assert forall g :: 0 <= g < |p.0| ==> Run(kinds, p.0[g], |kinds|);
    if |p.1| > 0 {
      FlattenSnoc(p.0, p.1);
      var q := p.0 + [p.1];
      assert forall g :: 0 <= g < |p.0| ==> q[g] == p.0[g];
    }
  }

  lemma {:induction false} TextPositionsMembers(kinds: seq<BlockType>, n: nat, x: nat)
    requires n <= |kinds|
    ensures x in TextPositions(kinds, n) <==> x < n && kinds[x] == BlockType.Text
  {
    if n > 0 {
      TextPositionsMembers(kinds, n - 1, x);
    }
  }

  /** No title or interline equation in `(x, y]`. */
  predicate NoBreakBetween(kinds: seq<BlockType>, x: nat, y: nat)
    requires y < |kinds|
  {
    forall j :: x < j <= y ==> !IsBreak(kinds[j])
  }

  lemma {:induction false} ClosesMonotone(kinds: seq<BlockType>, x: nat, y: nat)
    requires x <= y
    ensures Closes(kinds, x) <= Closes(kinds, y)
  {
    if x < y {
      ClosesMonotone(kinds, x, y - 1);
    }
  }

  /** Two positions have seen the same number of closes exactly when no
      break lies after the first and up to the second. */
  lemma {:induction false} ClosesBetween(kinds: seq<BlockType>, x: nat, y: nat)
    requires x < y < |kinds|
    ensures Closes(kinds, x) == Closes(kinds, y) <==> NoBreakBetween(kinds, x, y)
  {
    ClosesMonotone(kinds, x, y - 1);
    if y - 1 > x {
      ClosesBetween(kinds, x, y - 1);
    }
  }

  /** Two text blocks share a group exactly when no title or interline
      equation stands between them. */
  lemma SameGroupIff(kinds: seq<BlockType>, g: nat, i: nat, h: nat, j: nat)
    requires var gs := TextGroups(kinds);
      g < |gs| && h < |gs| && i < |gs[g]| && j < |gs[h]|
    requires TextGroups(kinds)[g][i] < TextGroups(kinds)[h][j]
    ensures var gs := TextGroups(kinds);
      gs[h][j] < |kinds| && (g == h <==> NoBreakBetween(kinds, gs[g][i], gs[h][j]))
  {
    TextGroupsSpec(kinds);
    var gs := TextGroups(kinds);
    assert Run(kinds, gs[h], |kinds|);
    ClosesBetween(kinds, gs[g][i], gs[h][j]);
  }

  /** A position is grouped exactly when it holds a text block. */
  lemma GroupedIffText(kinds: seq<BlockType>, x: nat)
    ensures x in Flatten(TextGroups(kinds)) <==> x < |kinds| && kinds[x] == BlockType.Text
  {
    TextGroupsSpec(kinds);
    TextPositionsMembers(kinds, |kinds|, x);
  }

  lemma ClosesOrder(kinds: seq<BlockType>, x: nat, y: nat)
    ensures x <= y ==> Closes(kinds, x) <= Closes(kinds, y)
  {
    if x <= y {
      ClosesMonotone(kinds, x, y);
    }
  }

  /** A group member is a text block counted by its group's closes. */
  lemma GroupAt(kinds: seq<BlockType>, h: nat, c: nat)
    requires h < |TextGroups(kinds)| && c < |TextGroups(kinds)[h]|
    ensures var x := TextGroups(kinds)[h][c];
      x < |kinds| && kinds[x] == BlockType.Text && Closes(kinds, x) == h
  {
    TextGroupsSpec(kinds);
    assert Run(kinds, TextGroups(kinds)[h], |kinds|);
  }

  lemma GroupOrder(kinds: seq<BlockType>, h: nat, c: nat, d: nat)
    requires h < |TextGroups(kinds)| && c < d < |TextGroups(kinds)[h]|
    ensures TextGroups(kinds)[h][c] < TextGroups(kinds)[h][d]
  {
    TextGroupsSpec(kinds);
    assert Run(kinds, TextGroups(kinds)[h], |kinds|);
  }

  /** A position strictly between neighbours `a` and `a + 1` of group `q`
      is no member of any group. */
  lemma NotMember(kinds: seq<BlockType>, q: nat, a: nat, x: nat, h: nat, c: nat)
    requires q < |TextGroups(kinds)| && a + 1 < |TextGroups(kinds)[q]|
    requires TextGroups(kinds)[q][a] < x < TextGroups(kinds)[q][a + 1]
    requires h < |TextGroups(kinds)| && c < |TextGroups(kinds)[h]|
    ensures TextGroups(kinds)[h][c] != x
  {
    var gs := TextGroups(kinds);
    GroupAt(kinds, q, a);
    GroupAt(kinds, q, a + 1);
    GroupAt(kinds, h, c);
    ClosesOrder(kinds, gs[q][a], gs[h][c]);
    ClosesOrder(kinds, gs[h][c], gs[q][a + 1]);
    if h == q {
      if c <= a {
        if c < a {
          GroupOrder(kinds, q, c, a);
        }
      } else if c > a + 1 {
        GroupOrder(kinds, q, a + 1, c);
      }
    }
  }

  /** No text block stands between two neighbours of a group. */
  lemma GroupGap(kinds: seq<BlockType>, q: nat, a: nat, x: nat)
    requires q < |TextGroups(kinds)| && a + 1 < |TextGroups(kinds)[q]|
    requires TextGroups(kinds)[q][a] < x < TextGroups(kinds)[q][a + 1]
    ensures x < |kinds| && kinds[x] != BlockType.Text
  {
    var gs := TextGroups(kinds);
    GroupAt(kinds, q, a + 1);
    GroupedIffText(kinds, x);
    FlattenHas(gs, x);
    forall h, c | 0 <= h < |gs| && 0 <= c < |gs[h]| ensures gs[h][c] != x {
      NotMember(kinds, q, a, x, h, c);
    }
  }

  // ---------------------------------------------------------------------
  // Blocks with their page size, and `bbox_fs`
  // ---------------------------------------------------------------------

  /** A block of the document-wide list with the `page_size` of its page. */
  datatype ParaBlock = ParaBlock(block: Block, pageW: real, pageH: real)

  function LineBoxes(lines: seq<Line>): seq<Box> {
    seq(|lines|, k requires 0 <= k < |lines| => lines[k].bbox)
  }

  /** `bbox_fs`: the tightest box around the lines, or the block box when
      the block has no lines. */
  function FsOf(b: Block): (r: Box)
    ensures |b.lines| == 0 ==> r == b.bbox
    ensures forall k :: 0 <= k < |b.lines| ==> IsIn(b.lines[k].bbox, r)
    ensures |b.lines| > 0 ==>
      (exists k :: 0 <= k < |b.lines| && r.x0 == b.lines[k].bbox.x0)
      && (exists k :: 0 <= k < |b.lines| && r.x1 == b.lines[k].bbox.x1)
  {
    if |b.lines| == 0 then b.bbox
    else
      var h := Hull(LineBoxes(b.lines));
      assert forall k :: 0 <= k < |b.lines| ==> LineBoxes(b.lines)[k] == b.lines[k].bbox;
      h
  }

  // ---------------------------------------------------------------------
  // Classification (`__is_list_or_index_block`)
  // ---------------------------------------------------------------------

  /** `LIST_END_FLAG`. */
  const ListEndFlag: set<char> := {'.', '\U{3002}', ';', '\U{FF1B}'}

  /** `LINE_STOP_FLAG`. */
  const LineStopFlag: set<char> :=
    {'.', '!', '?', '\U{3002}', '\U{FF01}', '\U{FF1F}', ')', '\U{FF09}', '"', ':', '\U{FF1A}', ';', '\U{FF1B}'}

  /** `str.endswith` with a tuple of one-character suffixes. */
  predicate EndsIn(t: string, flags: set<char>) {
    |t| > 0 && t[|t| - 1] in flags
  }

  predicate StartsWithDigit(t: string) {
    |t| > 0 && IsDigit(t[0])
  }

  predicate EndsWithDigit(t: string) {
    |t| > 0 && IsDigit(t[|t| - 1])
  }

  /** The text of a line: the stripped contents of its text spans, joined;
      `None` when a text span has no content (the `KeyError`). */
  function SpansText(spans: seq<Span>): Option<string> {
    if |spans| == 0 then Some("")
    else
      match SpansText(spans[..|spans| - 1])
      case None => None
      case Some(t) =>
        var sp := spans[|spans| - 1];
        if sp.kind != ContentType.Text then Some(t)
        else if sp.content.None? then None
        else Some(t + Strip(sp.content.value))
  }

  function LineText(l: Line): Option<string> {
    SpansText(l.spans)
  }

  predicate LeftClose(fs: Box, lh: real, l: Line) {
    Abs(fs.x0 - l.bbox.x0) < lh / 2.0
  }

  predicate LeftFar(fs: Box, lh: real, l: Line) {
    !LeftClose(fs, lh, l) && l.bbox.x0 - fs.x0 > lh
  }

  predicate RightClose(fs: Box, lh: real, l: Line) {
    Abs(fs.x1 - l.bbox.x1) < lh
  }

  predicate Outside(fs: Box, lh: real, l: Line) {
    l.bbox.x0 - fs.x0 > 0.7 * lh && fs.x1 - l.bbox.x1 > 0.7 * lh
  }

  predicate Centered(fs: Box, lh: real, l: Line) {
    Abs((l.bbox.x0 + l.bbox.x1) / 2.0 - (fs.x0 + fs.x1) / 2.0) < lh / 2.0
  }

  /** The right gap above which a line counts as ending short: a uniform
      threshold for Chinese, Japanese and Korean, otherwise one that depends
      on how much of the page width the block takes. */
  function ClosedArea(code: string, ratio: real, bw: real): real {
    if code in {"zh", "ja", "ko"} then 0.26 * bw
    else if ratio >= 0.5 then 0.26 * bw
    else 0.36 * bw
  }

  /** Line `k` ends short; the language is detected on the texts of lines
      `0..k` joined, as the source does inside its loop. */
  predicate RightFar(fs: Box, lh: real, L: seq<Line>, texts: seq<string>, k: nat,
                     ratio: real, lang: string -> string)
    requires k < |L| == |texts|
  {
    !RightClose(fs, lh, L[k])
    && fs.x1 - L[k].bbox.x1 > ClosedArea(lang(Flatten(texts[..k + 1])), ratio, fs.Width())
  }

  predicate FarRight(fs: Box, bw: real, l: Line) {
    Abs(fs.x1 - l.bbox.x1) > 0.1 * bw
  }

  /** The outcome of classification: the new block type and the lines with
      their list marks. */
  datatype Verdict = Verdict(kind: BlockType, lines: seq<Line>)

  /** `b` differs from `a` at most by list marks switched on. */
  predicate Retagged(a: seq<Line>, b: seq<Line>) {
    |a| == |b|
    && forall k :: 0 <= k < |a| ==>
      b[k].bbox == a[k].bbox && b[k].spans == a[k].spans && b[k].index == a[k].index
      && (a[k].listStart ==> b[k].listStart) && (a[k].listEnd ==> b[k].listEnd)
  }

  /** Sets the start mark on the lines `st` selects and the end mark on
      those `en` selects; marks already set stay set. */
  function Mark(L: seq<Line>, st: seq<bool>, en: seq<bool>): (r: seq<Line>)
    requires |st| == |L| == |en|
    ensures Retagged(L, r)
    ensures forall k :: 0 <= k < |L| ==> (r[k].listStart <==> L[k].listStart || st[k])
    ensures forall k :: 0 <= k < |L| ==> (r[k].listEnd <==> L[k].listEnd || en[k])
  {
    seq(|L|, k requires 0 <= k < |L| =>
      L[k].(listStart := L[k].listStart || st[k], listEnd := L[k].listEnd || en[k]))
  }

  function Trues(n: nat): seq<bool> {
    seq(n, _ => true)
  }

  function Falses(n: nat): seq<bool> {
    seq(n, _ => false)
  }

  /** The marks of a list block, by the three list shapes the source tells
      apart: no indentation (short items, items with end marks, items
      without), numbered items with indentation, and plain indentation. */
  function ListMarks(L: seq<Line>, fs: Box, lh: real, texts: seq<string>,
                     leftClose: nat, rightClose: nat, flagEnd: nat, numStart: nat,
                     endFlag: bool): (r: (seq<bool>, seq<bool>))
    requires |L| >= 2 && |texts| == |L|
    ensures |r.0| == |L| == |r.1|
  {
    var n := |L| as real;
    var bw := fs.Width();
    if leftClose as real / n > 0.8 then
      if flagEnd == 0 && rightClose as real / n < 0.5 then
        (seq(|L|, k requires 0 <= k < |L| => LeftClose(fs, lh, L[k])), Falses(|L|))
      else if endFlag then
        (seq(|L|, k requires 0 <= k < |L| => k > 0 && EndsIn(texts[k - 1], ListEndFlag)),
         seq(|L|, k requires 0 <= k < |L| => EndsIn(texts[k], ListEndFlag)))
      else
        (seq(|L|, k requires 0 <= k < |L| => k > 0 && FarRight(fs, bw, L[k - 1])),
         seq(|L|, k requires 0 <= k < |L| => FarRight(fs, bw, L[k])))
    else if numStart >= 2 && numStart == flagEnd then
      (seq(|L|, k requires 0 <= k < |L| => StartsWithDigit(texts[k])),
       seq(|L|, k requires 0 <= k < |L| => EndsIn(texts[k], ListEndFlag)))
    else
      (seq(|L|, k requires 0 <= k < |L| => LeftClose(fs, lh, L[k])),
       seq(|L|, k requires 0 <= k < |L| => Abs(fs.x1 - L[k].bbox.x1) > lh))
  }

  /** The centred-list test up to, but not including, the height/width ratio
      whose division fails on a zero-width block. */
  predicate CenteredShape(L: seq<Line>, fs: Box, lh: real)
    requires |L| >= 2
  {
    var outside := CountWhere(L, l => Outside(fs, lh, l));
    outside >= 2 && CountWhere(L, l => Centered(fs, lh, l)) == |L|
    && outside as real / |L| as real >= 0.5
  }

  /** The index test: most lines aligned on one side and most line texts
      starting, or most ending, with a digit. */
  predicate IndexShape(L: seq<Line>, fs: Box, lh: real, texts: seq<string>)
    requires |L| >= 2
  {
    var n := |L| as real;
    (CountWhere(L, l => LeftClose(fs, lh, l)) as real / n >= 0.8
     || CountWhere(L, l => RightClose(fs, lh, l)) as real / n >= 0.8)
    && (CountWhere(texts, (t: string) => StartsWithDigit(t)) as real / n >= 0.8
        || CountWhere(texts, (t: string) => EndsWithDigit(t)) as real / n >= 0.8)
  }

  /** The centred-list test passed by a block taller than 0.4 of its width. */
  predicate CenteredList(L: seq<Line>, fs: Box, lh: real)
    requires |L| >= 2
  {
    CenteredShape(L, fs, lh) && fs.Width() != 0.0 && fs.Height() / fs.Width() > 0.4
  }

  /** The left-aligned list test: at least two lines start at the left
      edge, and two end short, or most end with a list end mark, or two are
      indented; the block is not a run of paragraphs whose first line alone
      is indented. */
  predicate AlignedList(L: seq<Line>, fs: Box, texts: seq<string>, pageW: real,
                        lang: string -> string)
    requires |L| >= 2 && |texts| == |L|
  {
    var lh := L[0].bbox.Height();
    var bw := fs.Width();
    var ratio := if pageW == 0.0 then 0.0 else bw / pageW;
    var last := L[|L| - 1];
    var multiple := L[0].bbox.x0 - fs.x0 > lh / 2.0
      && Abs(last.bbox.x0 - fs.x0) < lh / 2.0 && fs.x1 - last.bbox.x1 > lh;
    var leftClose := CountWhere(L, l => LeftClose(fs, lh, l));
    var leftFar := CountWhere(L, l => LeftFar(fs, lh, l));
    var rightFar := CountWhere(Range(|L|), (k: nat) => k < |L| && RightFar(fs, lh, L, texts, k, ratio, lang));
    var flagEnd := CountWhere(texts, t => EndsIn(t, ListEndFlag));
    leftClose >= 2 && (rightFar >= 2 || flagEnd as real / |L| as real >= 0.8 || leftFar >= 2) && !multiple
  }

  /** The decision of `__is_list_or_index_block` once the line texts are
      known: index when the index test passes, otherwise list when either
      list test passes, otherwise text. */
  function Decide(L: seq<Line>, fs: Box, texts: seq<string>, pageW: real,
                  lang: string -> string): (r: Option<Verdict>)
    requires |L| >= 2 && |texts| == |L|
    ensures r.Some? ==> r.value.kind in {BlockType.Text, BlockType.List, BlockType.Index}
    ensures r.Some? ==> Retagged(L, r.value.lines)
    ensures r.Some? && r.value.kind == BlockType.Text ==> r.value.lines == L
    ensures r.Some? ==> (r.value.kind == BlockType.Index <==> IndexShape(L, fs, L[0].bbox.Height(), texts))
    ensures r.Some? ==> (r.value.kind == BlockType.List <==>
      !IndexShape(L, fs, L[0].bbox.Height(), texts)
      && (CenteredList(L, fs, L[0].bbox.Height()) || AlignedList(L, fs, texts, pageW, lang)))
    ensures r.Some? && r.value.kind == BlockType.Index ==>
      forall k :: 0 <= k < |L| ==> r.value.lines[k].listStart
    ensures r.None? <==>
      !IndexShape(L, fs, L[0].bbox.Height(), texts)
      && CenteredShape(L, fs, L[0].bbox.Height()) && fs.Width() == 0.0
  {
    var n := |L| as real;
    var lh := L[0].bbox.Height();
    var bw := fs.Width();
    var leftClose := CountWhere(L, l => LeftClose(fs, lh, l));
    var rightClose := CountWhere(L, l => RightClose(fs, lh, l));
    var flagEnd := CountWhere(texts, t => EndsIn(t, ListEndFlag));
    var numStart := CountWhere(texts, (t: string) => StartsWithDigit(t));
    var endFlag := flagEnd as real / n >= 0.8;
    if IndexShape(L, fs, lh, texts) then
      Some(Verdict(BlockType.Index, Mark(L, Trues(|L|), Falses(|L|))))
    else if CenteredShape(L, fs, lh) && bw == 0.0 then
      None
    else if CenteredList(L, fs, lh) then
      Some(Verdict(BlockType.List, Mark(L, Trues(|L|), Falses(|L|))))
    else if AlignedList(L, fs, texts, pageW, lang) then
      var m := ListMarks(L, fs, lh, texts, leftClose, rightClose, flagEnd, numStart, endFlag);
      Some(Verdict(BlockType.List, Mark(L, m.0, m.1)))
    else
      Some(Verdict(BlockType.Text, L))
  }

  /** `__is_list_or_index_block`: a block of fewer than two lines is text;
      otherwise `bbox_fs` and the contents of the text spans are read, and a
      missing one fails, as does a zero-width block that passes the
      centred-list test. */
  function Classify(b: Block, pageW: real, lang: string -> string): (r: Option<Verdict>)
    ensures |b.lines| < 2 ==> r == Some(Verdict(BlockType.Text, b.lines))
    ensures r.Some? ==> r.value.kind in {BlockType.Text, BlockType.List, BlockType.Index}
    ensures r.Some? ==> Retagged(b.lines, r.value.lines)
    ensures r.Some? && r.value.kind == BlockType.Text ==> r.value.lines == b.lines
    ensures r.Some? && r.value.kind == BlockType.Index ==>
      forall k :: 0 <= k < |b.lines| ==> r.value.lines[k].listStart
  {
    if |b.lines| < 2 then Some(Verdict(BlockType.Text, b.lines))
    else if b.bboxFs.None? then None
    else
      match AllSome(b.lines, (l: Line) => LineText(l))
      case None => None
      case Some(texts) => Decide(b.lines, b.bboxFs.value, texts, pageW, lang)
  }

  /** Classification fails only on a missing `bbox_fs`, a text span without
      content, or a zero-width block shaped like a centred list. */
  lemma ClassifyFails(b: Block, pageW: real, lang: string -> string)
    requires |b.lines| >= 2 && b.bboxFs.Some?
    requires forall k :: 0 <= k < |b.lines| ==> LineText(b.lines[k]).Some?
    ensures var texts := AllSome(b.lines, (l: Line) => LineText(l)).value;
      Classify(b, pageW, lang).None? <==>
        !IndexShape(b.lines, b.bboxFs.value, b.lines[0].bbox.Height(), texts)
        && CenteredShape(b.lines, b.bboxFs.value, b.lines[0].bbox.Height())
        && b.bboxFs.value.Width() == 0.0
  {
  }

  // ---------------------------------------------------------------------
  // Merging (`__merge_2_text_blocks`, `__merge_2_list_blocks`)
  // ---------------------------------------------------------------------

  function MarkSpan(s: Span): Span {
    s.(crossPage := true)
  }

  function MarkLine(l: Line): Line {
    l.(spans := seq(|l.spans|, j requires 0 <= j < |l.spans| => MarkSpan(l.spans[j])))
  }

  /** The lines of `src` as they arrive in `dst`: their spans are marked
      `cross_page` when the two blocks sit on different pages. */
  function Moved(src: Block, dst: Block): seq<Line> {
    if src.pageNum != dst.pageNum then
      seq(|src.lines|, k requires 0 <= k < |src.lines| => MarkLine(src.lines[k]))
    else src.lines
  }

  /** `dst` after taking over the lines of `src`. */
  function Absorb(dst: Block, src: Block): (r: Block)
    ensures |r.lines| == |dst.lines| + |src.lines|
    ensures r.lines[..|dst.lines|] == dst.lines
    ensures r == dst.(lines := r.lines)
    ensures forall k :: 0 <= k < |src.lines| ==>
      var l := r.lines[|dst.lines| + k];
      l.bbox == src.lines[k].bbox && |l.spans| == |src.lines[k].spans|
      && l.listStart == src.lines[k].listStart && l.listEnd == src.lines[k].listEnd
      && forall j :: 0 <= j < |l.spans| ==>
        l.spans[j] == src.lines[k].spans[j].(crossPage := l.spans[j].crossPage)
        && (l.spans[j].crossPage <==> src.lines[k].spans[j].crossPage || src.pageNum != dst.pageNum)
  {
    dst.(lines := dst.lines + Moved(src, dst))
  }

  /** `src` after giving its lines away: empty, with the `lines_deleted`
      tombstone. */
  function Emptied(src: Block): (r: Block)
    ensures r.lines == [] && r.linesDeleted
    ensures r == src.(lines := [], linesDeleted := true)
  {
    src.(lines := [], linesDeleted := true)
  }

  /** The tests of `__merge_2_text_blocks(block1, block2)`, where `b1` is
      the later block and `b2` the earlier one: whether the lines of `b1` move
      into `b2`. They do when `b1`'s first line starts at the left edge,
      `b2`'s last line reaches the right edge and does not end a sentence,
      the widths are within a factor of two, and `b1`'s first character is
      neither a digit nor a capital. `None` is the `KeyError` of a missing
      `bbox_fs` or span content and the `IndexError` of an earlier block
      without lines; each is raised only where the source looks the value up. */
  function Joins(b1: Block, b2: Block): Option<bool> {
    if |b1.lines| == 0 then Some(false)
    else
      var first := b1.lines[0];
      var lh := first.bbox.Height();
      var w1 := b1.bbox.Width();
      var w2 := b2.bbox.Width();
      if b1.bboxFs.None? then None
      else if !(Abs(b1.bboxFs.value.x0 - first.bbox.x0) < lh / 2.0) then Some(false)
      else if |b2.lines| == 0 then None
      else
        var last := b2.lines[|b2.lines| - 1];
        if |last.spans| == 0 then Some(false)
        else
          var lastSpan := last.spans[|last.spans| - 1];
          var lh2 := last.bbox.Height();
          if |first.spans| == 0 then Some(false)
          else if first.spans[0].content.None? then None
          else if |first.spans[0].content.value| == 0 then Some(false)
          else
            var c := first.spans[0].content.value[0];
            if b2.bboxFs.None? then None
            else if !(Abs(b2.bboxFs.value.x1 - last.bbox.x1) < lh2) then Some(false)
            else if lastSpan.content.None? then None
            else Some(!EndsIn(lastSpan.content.value, LineStopFlag) && Abs(w1 - w2) < MinR(w1, w2)
                      && !IsDigit(c) && !IsUpper(c))
  }

  /** `__merge_2_text_blocks`: the two blocks, after the lines of `b1` have
      moved into `b2` when the tests pass. */
  function MergeText(b1: Block, b2: Block): (r: Option<(Block, Block)>)
    ensures r.Some? ==> r.value == (b1, b2) || r.value == (Emptied(b1), Absorb(b2, b1))
    ensures r.None? <==> Joins(b1, b2).None?
    ensures Joins(b1, b2) == Some(true) ==> r == Some((Emptied(b1), Absorb(b2, b1)))
    ensures Joins(b1, b2) == Some(false) ==> r == Some((b1, b2))
  {
    match Joins(b1, b2)
    case None => None
    case Some(j) => if j then Some((Emptied(b1), Absorb(b2, b1))) else Some((b1, b2))
  }

  /** Two text blocks merge only when the later one began mid-sentence: it
      has lines, its first line is flush with its left edge, its first
      character is neither a digit nor a capital, the earlier one's last line
      reaches its right edge and its last span does not end with a stop mark,
      and the widths are within a factor of two. */
  lemma MergeTextJoins(b1: Block, b2: Block)
    requires Joins(b1, b2) == Some(true)
    ensures |b1.lines| > 0 && |b2.lines| > 0 && |b1.lines[0].spans| > 0
    ensures b1.bboxFs.Some? && Abs(b1.bboxFs.value.x0 - b1.lines[0].bbox.x0) < b1.lines[0].bbox.Height() / 2.0
    ensures var last := b2.lines[|b2.lines| - 1];
      b2.bboxFs.Some? && Abs(b2.bboxFs.value.x1 - last.bbox.x1) < last.bbox.Height()
    ensures var c := b1.lines[0].spans[0].content;
      c.Some? && |c.value| > 0 && !IsDigit(c.value[0]) && !IsUpper(c.value[0])
    ensures var last := b2.lines[|b2.lines| - 1];
      |last.spans| > 0 && last.spans[|last.spans| - 1].content.Some?
      && !EndsIn(last.spans[|last.spans| - 1].content.value, LineStopFlag)
    ensures Abs(b1.bbox.Width() - b2.bbox.Width()) < MinR(b1.bbox.Width(), b2.bbox.Width())
  {
  }

  /** Conversely, when every test passes the blocks merge: the tests of
      `MergeTextJoins` are all the merge asks for. */
  lemma JoinsWhenTestsPass(b1: Block, b2: Block)
    requires |b1.lines| > 0 && |b2.lines| > 0 && |b1.lines[0].spans| > 0
    requires b1.bboxFs.Some? && Abs(b1.bboxFs.value.x0 - b1.lines[0].bbox.x0) < b1.lines[0].bbox.Height() / 2.0
    requires var last := b2.lines[|b2.lines| - 1];
      b2.bboxFs.Some? && Abs(b2.bboxFs.value.x1 - last.bbox.x1) < last.bbox.Height()
    requires var c := b1.lines[0].spans[0].content;
      c.Some? && |c.value| > 0 && !IsDigit(c.value[0]) && !IsUpper(c.value[0])
    requires var last := b2.lines[|b2.lines| - 1];
      |last.spans| > 0 && last.spans[|last.spans| - 1].content.Some?
      && !EndsIn(last.spans[|last.spans| - 1].content.value, LineStopFlag)
    requires Abs(b1.bbox.Width() - b2.bbox.Width()) < MinR(b1.bbox.Width(), b2.bbox.Width())
    ensures Joins(b1, b2) == Some(true)
  {
  }

  // ---------------------------------------------------------------------
  // The document-wide block list
  // ---------------------------------------------------------------------

  /** The number of lines over all blocks. */
  function TotalLines(s: seq<ParaBlock>): nat {
    if |s| == 0 then 0 else TotalLines(s[..|s| - 1]) + |s[|s| - 1].block.lines|
  }

  lemma {:induction false} TotalLinesUpdate(s: seq<ParaBlock>, i: nat, x: ParaBlock)
    requires i < |s|
    ensures TotalLines(s[i := x]) + |s[i].block.lines| == TotalLines(s) + |x.block.lines|
  {
    var t := s[i := x];
    if i == |s| - 1 {
      assert t[..|t| - 1] == s[..|s| - 1];
    } else {
      assert t[..|t| - 1] == s[..|s| - 1][i := x];
      TotalLinesUpdate(s[..|s| - 1], i, x);
    }
  }

  function SetBlock(s: seq<ParaBlock>, i: nat, b: Block): (r: seq<ParaBlock>)
    requires i < |s|
    ensures |r| == |s|
  {
    s[i := s[i].(block := b)]
  }

  /** A classification of a block on a page of the given width; the merge
      loop runs with `Classify` and the detected language. */
  type Classifier = (Block, real) -> Option<Verdict>

  /** The classifier the merge loop runs with, for a language detector. */
  function LangClassifier(lang: string -> string): Classifier {
    (b: Block, w: real) => Classify(b, w, lang)
  }

  /** What the merge loop relies on from a classifier: a verdict is text,
      list or index and keeps the lines up to list marks. */
  ghost predicate Sound(classify: Classifier) {
    forall b: Block, w: real :: classify(b, w).Some? ==>
      classify(b, w).value.kind in {BlockType.Text, BlockType.List, BlockType.Index}
      && Retagged(b.lines, classify(b, w).value.lines)
  }

  /** Block `i` classified: its type and list marks set. */
  function ClassifyAt(s: seq<ParaBlock>, i: nat, classify: Classifier): (r: Option<seq<ParaBlock>>)
    requires i < |s|
    ensures r.Some? ==> |r.value| == |s|
  {
    match classify(s[i].block, s[i].pageW)
    case None => None
    case Some(v) => Some(SetBlock(s, i, s[i].block.(kind := v.kind, lines := v.lines)))
  }

  predicate InRange(g: seq<nat>, n: nat) {
    forall k :: 0 <= k < |g| ==> g[k] < n
  }

  /** Every block of a group classified, in order. */
  function ClassifyGroup(s: seq<ParaBlock>, g: seq<nat>, classify: Classifier): (r: Option<seq<ParaBlock>>)
    requires InRange(g, |s|)
    ensures r.Some? ==> |r.value| == |s|
  {
    if |g| == 0 then Some(s)
    else
      match ClassifyGroup(s, g[..|g| - 1], classify)
      case None => None
      case Some(t) => ClassifyAt(t, g[|g| - 1], classify)
  }

  /** `__is_list_group`: no block of the group has more than three lines. */
  predicate IsListGroup(s: seq<ParaBlock>, g: seq<nat>)
    requires InRange(g, |s|)
  {
    forall k :: 0 <= k < |g| ==> |s[g[k]].block.lines| <= 3
  }

  /** The lines of block `src` moved into block `dst`. */
  function MoveLines(s: seq<ParaBlock>, src: nat, dst: nat): (r: seq<ParaBlock>)
    requires src < |s| && dst < |s| && src != dst
    ensures |r| == |s|
  {
    SetBlock(SetBlock(s, src, Emptied(s[src].block)), dst, Absorb(s[dst].block, s[src].block))
  }

  /** One step of the backward walk: the block at `cur` against the one
      before it at `prev`. Two text blocks outside a list group may merge;
      two list blocks, or two index blocks, always do. */
  function MergeStep(s: seq<ParaBlock>, cur: nat, prev: nat, isList: bool): (r: Option<seq<ParaBlock>>)
    requires cur < |s| && prev < |s| && cur != prev
    ensures r.Some? ==> |r.value| == |s|
  {
    var c := s[cur].block;
    var p := s[prev].block;
    if c.kind == BlockType.Text && p.kind == BlockType.Text && !isList then
      match MergeText(c, p)
      case None => None
      case Some(m) => Some(SetBlock(SetBlock(s, cur, m.0), prev, m.1))
    else if (c.kind == BlockType.List && p.kind == BlockType.List)
         || (c.kind == BlockType.Index && p.kind == BlockType.Index) then
      Some(MoveLines(s, cur, prev))
    else Some(s)
  }

  predicate Increasing(g: seq<nat>) {
    forall a, b :: 0 <= a < b < |g| ==> g[a] < g[b]
  }

  /** The steps for group positions `i, i - 1, .., 1`. */
  function MergeFrom(s: seq<ParaBlock>, g: seq<nat>, i: nat, isList: bool): (r: Option<seq<ParaBlock>>)
    requires InRange(g, |s|) && Increasing(g) && i < |g|
    ensures r.Some? ==> |r.value| == |s|
    decreases i
  {
    if i == 0 then Some(s)
    else
      match MergeStep(s, g[i], g[i - 1], isList)
      case None => None
      case Some(t) => MergeFrom(t, g, i - 1, isList)
  }

  /** One group of `__para_merge_page`: classify its blocks, then, for two
      or more, walk it backwards merging neighbours. */
  function ProcessGroup(s: seq<ParaBlock>, g: seq<nat>, classify: Classifier): (r: Option<seq<ParaBlock>>)
    requires InRange(g, |s|) && Increasing(g)
    ensures r.Some? ==> |r.value| == |s|
  {
    if |g| == 0 then Some(s)
    else
      match ClassifyGroup(s, g, classify)
      case None => None
      case Some(t) =>
        if |g| > 1 then MergeFrom(t, g, |g| - 1, IsListGroup(t, g)) else Some(t)
  }

  predicate ValidGroups(gs: seq<seq<nat>>, n: nat) {
    forall k :: 0 <= k < |gs| ==> InRange(gs[k], n) && Increasing(gs[k])
  }

  /** The first `n` groups processed in order. */
  function ProcessGroups(s: seq<ParaBlock>, gs: seq<seq<nat>>, n: nat, classify: Classifier): (r: Option<seq<ParaBlock>>)
    requires ValidGroups(gs, |s|) && n <= |gs|
    ensures r.Some? ==> |r.value| == |s|
  {
    if n == 0 then Some(s)
    else
      match ProcessGroups(s, gs, n - 1, classify)
      case None => None
      case Some(t) => ProcessGroup(t, gs[n - 1], classify)
  }

  function Kinds(s: seq<ParaBlock>): seq<BlockType> {
    seq(|s|, k requires 0 <= k < |s| => s[k].block.kind)
  }

  /** The block list after `__process_blocks` has set `bbox_fs` on every
      text block. */
  function WithFs(s: seq<ParaBlock>): (r: seq<ParaBlock>)
    ensures |r| == |s|
  {
    seq(|s|, k requires 0 <= k < |s| =>
      if s[k].block.kind == BlockType.Text
      then s[k].(block := s[k].block.(bboxFs := Some(FsOf(s[k].block))))
      else s[k])
  }

  /** How a block relates to the same block before the group loop: a text
      block keeps its page, boxes and group and is text, list or index; any
      other block is untouched. */
  predicate Steady(a: ParaBlock, b: ParaBlock) {
    if a.block.kind == BlockType.Text then
      b.pageW == a.pageW && b.pageH == a.pageH && b.block.bbox == a.block.bbox
      && b.block.pageNum == a.block.pageNum && b.block.groupId == a.block.groupId
      && b.block.bboxFs == a.block.bboxFs
      && b.block.kind in {BlockType.Text, BlockType.List, BlockType.Index}
    else b == a
  }

  predicate Kept(s: seq<ParaBlock>, t: seq<ParaBlock>) {
    |t| == |s| && TotalLines(t) == TotalLines(s)
    && forall k :: 0 <= k < |s| ==> Steady(s[k], t[k])
  }

  /** All positions of `g` hold text blocks in `s`. */
  predicate TextOnly(s: seq<ParaBlock>, g: seq<nat>) {
    forall k :: 0 <= k < |g| ==> g[k] < |s| && s[g[k]].block.kind == BlockType.Text
  }

  /** A text group of `s`. */
  predicate GroupOf(s: seq<ParaBlock>, g: seq<nat>) {
    Increasing(g) && TextOnly(s, g)
  }

  predicate AllGroupsOf(s: seq<ParaBlock>, gs: seq<seq<nat>>) {
    forall k :: 0 <= k < |gs| ==> GroupOf(s, gs[k])
  }

  /** `__para_merge_page` on the document-wide block list. */
  function ParaMergePage(s: seq<ParaBlock>, lang: string -> string): (r: Option<seq<ParaBlock>>)
    ensures r.Some? ==> |r.value| == |s| && TotalLines(r.value) == TotalLines(s)
    ensures r.Some? ==> forall k :: 0 <= k < |s| && s[k].block.kind != BlockType.Text ==> r.value[k] == s[k]
    ensures r.Some? ==> forall k :: 0 <= k < |s| && s[k].block.kind == BlockType.Text ==>
      r.value[k].block.kind in {BlockType.Text, BlockType.List, BlockType.Index}
      && r.value[k].block.bbox == s[k].block.bbox && r.value[k].block.pageNum == s[k].block.pageNum
      && r.value[k].block.bboxFs == Some(FsOf(s[k].block))
  {
    var gs := TextGroups(Kinds(s));
    TextGroupsSpec(Kinds(s));
    assert ValidGroups(gs, |s|) by {
      forall k | 0 <= k < |gs| ensures InRange(gs[k], |s|) && Increasing(gs[k]) {
        assert Run(Kinds(s), gs[k], |s|);
      }
    }
    var s1 := WithFs(s);
    var classify := LangClassifier(lang);
    var r := ProcessGroups(s1, gs, |gs|, classify);
    if r.Some? then
      KeptStart(s);
      forall g | 0 <= g < |gs| ensures GroupOf(s1, gs[g]) {
        GroupTextOnly(s, g);
      }
      ClassifySound(lang);
      KeptGroups(s1, s1, gs, |gs|, classify);
      r
    else r
  }

  // ---------------------------------------------------------------------
  // The invariant of the merge
  // ---------------------------------------------------------------------

  lemma KeptStart(s: seq<ParaBlock>)
    ensures Kept(WithFs(s), WithFs(s)) && TotalLines(WithFs(s)) == TotalLines(s)
  {
    var t := WithFs(s);
    TotalLinesPrefix(s, t, |s|);
    assert t[..|s|] == t && s[..|s|] == s;
  }

  lemma {:induction false} TotalLinesPrefix(s: seq<ParaBlock>, t: seq<ParaBlock>, i: nat)
    requires |t| == |s| && i <= |s|
    requires forall k :: 0 <= k < |s| ==> |t[k].block.lines| == |s[k].block.lines|
    ensures TotalLines(t[..i]) == TotalLines(s[..i])
  {
    if i > 0 {
      TotalLinesPrefix(s, t, i - 1);
      assert t[..i][..i - 1] == t[..i - 1];
      assert s[..i][..i - 1] == s[..i - 1];
    }
  }

  predicate AllSteady(s: seq<ParaBlock>, t: seq<ParaBlock>) {
    |t| == |s| && forall k :: 0 <= k < |s| ==> Steady(s[k], t[k])
  }

  lemma KeptSet(s: seq<ParaBlock>, t: seq<ParaBlock>, i: nat, b: Block)
    requires AllSteady(s, t) && i < |t| && s[i].block.kind == BlockType.Text
    requires b.bbox == t[i].block.bbox && b.pageNum == t[i].block.pageNum
    requires b.groupId == t[i].block.groupId && b.bboxFs == t[i].block.bboxFs
    requires b.kind in {BlockType.Text, BlockType.List, BlockType.Index}
    ensures AllSteady(s, SetBlock(t, i, b))
    ensures TotalLines(SetBlock(t, i, b)) + |t[i].block.lines| == TotalLines(t) + |b.lines|
  {
    TotalLinesUpdate(t, i, t[i].(block := b));
  }

  lemma KeptClassifyAt(s: seq<ParaBlock>, t: seq<ParaBlock>, i: nat, classify: Classifier)
    requires Kept(s, t) && i < |t| && s[i].block.kind == BlockType.Text && Sound(classify)
    requires ClassifyAt(t, i, classify).Some?
    ensures Kept(s, ClassifyAt(t, i, classify).value)
  {
    var v := classify(t[i].block, t[i].pageW).value;
    KeptSet(s, t, i, t[i].block.(kind := v.kind, lines := v.lines));
  }

  lemma {:induction false} KeptClassifyGroup(s: seq<ParaBlock>, t: seq<ParaBlock>, g: seq<nat>, classify: Classifier)
    requires Kept(s, t) && TextOnly(s, g) && Sound(classify)
    requires ClassifyGroup(t, g, classify).Some?
    ensures Kept(s, ClassifyGroup(t, g, classify).value)
  {
    if |g| > 0 {
      var h := g[..|g| - 1];
      assert TextOnly(s, h);
      KeptClassifyGroup(s, t, h, classify);
      KeptClassifyAt(s, ClassifyGroup(t, h, classify).value, g[|g| - 1], classify);
    }
  }

  lemma KeptMove(s: seq<ParaBlock>, t: seq<ParaBlock>, src: nat, dst: nat)
    requires Kept(s, t) && src < |t| && dst < |t| && src != dst
    requires s[src].block.kind == BlockType.Text && s[dst].block.kind == BlockType.Text
    ensures Kept(s, MoveLines(t, src, dst))
  {
    var e := Emptied(t[src].block);
    var u := SetBlock(t, src, e);
    KeptSet(s, t, src, e);
    var a := Absorb(t[dst].block, t[src].block);
    assert u[dst] == t[dst];
    KeptSet(s, u, dst, a);
  }

  lemma KeptMergeStep(s: seq<ParaBlock>, t: seq<ParaBlock>, cur: nat, prev: nat, isList: bool)
    requires Kept(s, t) && cur < |t| && prev < |t| && cur != prev
    requires s[cur].block.kind == BlockType.Text && s[prev].block.kind == BlockType.Text
    requires MergeStep(t, cur, prev, isList).Some?
    ensures Kept(s, MergeStep(t, cur, prev, isList).value)
  {
    var c := t[cur].block;
    var p := t[prev].block;
    if c.kind == BlockType.Text && p.kind == BlockType.Text && !isList {
      var m := MergeText(c, p).value;
      if Joins(c, p) == Some(false) {
        assert SetBlock(SetBlock(t, cur, c), prev, p) == t;
      } else {
        assert SetBlock(SetBlock(t, cur, m.0), prev, m.1) == MoveLines(t, cur, prev);
        KeptMove(s, t, cur, prev);
      }
    } else if (c.kind == BlockType.List && p.kind == BlockType.List)
         || (c.kind == BlockType.Index && p.kind == BlockType.Index) {
      KeptMove(s, t, cur, prev);
    }
  }

  /** Neighbours `i - 1` and `i` of a group: two text blocks in order. */
  lemma GroupPair(s: seq<ParaBlock>, g: seq<nat>, i: nat)
    requires GroupOf(s, g) && 0 < i < |g|
    ensures g[i - 1] < g[i] < |s|
    ensures s[g[i]].block.kind == BlockType.Text && s[g[i - 1]].block.kind == BlockType.Text
  {
  }

  lemma {:induction false} KeptMergeFrom(s: seq<ParaBlock>, t: seq<ParaBlock>, g: seq<nat>, i: nat, isList: bool)
    requires Kept(s, t) && GroupOf(s, g) && i < |g|
    requires MergeFrom(t, g, i, isList).Some?
    ensures Kept(s, MergeFrom(t, g, i, isList).value)
    decreases i
  {
    if i > 0 {
      GroupPair(s, g, i);
      var step := MergeStep(t, g[i], g[i - 1], isList).value;
      assert MergeFrom(t, g, i, isList) == MergeFrom(step, g, i - 1, isList);
      KeptMergeStep(s, t, g[i], g[i - 1], isList);
      KeptMergeFrom(s, step, g, i - 1, isList);
    }
  }

  lemma KeptGroup(s: seq<ParaBlock>, t: seq<ParaBlock>, g: seq<nat>, classify: Classifier)
    requires Kept(s, t) && GroupOf(s, g) && Sound(classify)
    requires ProcessGroup(t, g, classify).Some?
    ensures Kept(s, ProcessGroup(t, g, classify).value)
  {
    if |g| > 0 {
      KeptClassifyGroup(s, t, g, classify);
      var u := ClassifyGroup(t, g, classify).value;
      if |g| > 1 {
        KeptMergeFrom(s, u, g, |g| - 1, IsListGroup(u, g));
      }
    }
  }

  lemma GroupTextOnly(s: seq<ParaBlock>, g: nat)
    requires g < |TextGroups(Kinds(s))|
    ensures TextOnly(s, TextGroups(Kinds(s))[g])
  {
    TextGroupsSpec(Kinds(s));
    assert Run(Kinds(s), TextGroups(Kinds(s))[g], |s|);
  }

  lemma GroupsValid(s: seq<ParaBlock>, gs: seq<seq<nat>>, n: nat)
    requires AllGroupsOf(s, gs) && n == |s|
    ensures ValidGroups(gs, n)
  {
    forall k | 0 <= k < |gs| ensures InRange(gs[k], n) && Increasing(gs[k]) {
      assert GroupOf(s, gs[k]);
    }
  }

  /** The last of `n` groups runs on the result of the first `n - 1`. */
  lemma ProcessGroupsLast(s: seq<ParaBlock>, gs: seq<seq<nat>>, n: nat, classify: Classifier)
    requires ValidGroups(gs, |s|) && 0 < n <= |gs|
    requires ProcessGroups(s, gs, n, classify).Some?
    ensures ProcessGroups(s, gs, n - 1, classify).Some?
    ensures ProcessGroup(ProcessGroups(s, gs, n - 1, classify).value, gs[n - 1], classify)
      == ProcessGroups(s, gs, n, classify)
  {
  }

  lemma {:induction false} KeptGroups(s: seq<ParaBlock>, s1: seq<ParaBlock>, gs: seq<seq<nat>>, n: nat, classify: Classifier)
    requires Kept(s, s1) && AllGroupsOf(s, gs) && n <= |gs| && Sound(classify)
    requires ProcessGroups(s1, gs, n, classify).Some?
    ensures Kept(s, ProcessGroups(s1, gs, n, classify).value)
  {
    if n > 0 {
      GroupsValid(s, gs, |s1|);
      ProcessGroupsLast(s1, gs, n, classify);
      var prev := ProcessGroups(s1, gs, n - 1, classify);
      KeptGroups(s, s1, gs, n - 1, classify);
      KeptGroup(s, prev.value, gs[n - 1], classify);
    }
  }

  /** `Classify` is a sound classifier whatever the language detector. */
  lemma ClassifySound(lang: string -> string)
    ensures Sound(LangClassifier(lang))
  {
  }

  // ---------------------------------------------------------------------
  // The lines of the text blocks survive the merge
  // ---------------------------------------------------------------------

  /** A line with its list marks and its spans' `cross_page` marks cleared:
      what the merge loop may not change. */
  function Unmarked(l: Line): Line {
    l.(listStart := false, listEnd := false,
       spans := seq(|l.spans|, j requires 0 <= j < |l.spans| => l.spans[j].(crossPage := false)))
  }

  function UnmarkedLines(ls: seq<Line>): (r: seq<Line>)
    ensures |r| == |ls|
  {
    seq(|ls|, k requires 0 <= k < |ls| => Unmarked(ls[k]))
  }

  /** Per position, the unmarked lines `t` holds there when `s` had a text
      block there, and nothing otherwise. */
  function TextContribs(s: seq<ParaBlock>, t: seq<ParaBlock>): (r: seq<seq<Line>>)
    requires |t| == |s|
    ensures |r| == |s|
  {
    seq(|s|, k requires 0 <= k < |s| =>
      if s[k].block.kind == BlockType.Text then UnmarkedLines(t[k].block.lines) else [])
  }

  /** The lines at the positions of `s`'s text blocks, read in block order. */
  function TextLines(s: seq<ParaBlock>, t: seq<ParaBlock>): seq<Line>
    requires |t| == |s|
  {
    Flatten(TextContribs(s, t))
  }

  lemma UnmarkedRetagged(a: seq<Line>, b: seq<Line>)
    requires Retagged(a, b)
    ensures UnmarkedLines(b) == UnmarkedLines(a)
  {
    forall k | 0 <= k < |a| ensures Unmarked(b[k]) == Unmarked(a[k]) {
    }
  }

  lemma UnmarkedMarkLine(l: Line)
    ensures Unmarked(MarkLine(l)) == Unmarked(l)
  {
    assert Unmarked(MarkLine(l)).spans == Unmarked(l).spans;
  }

  /** Absorbing `src` appends its lines, up to the `cross_page` marks. */
  lemma UnmarkedAbsorb(dst: Block, src: Block)
    ensures UnmarkedLines(Absorb(dst, src).lines) == UnmarkedLines(dst.lines) + UnmarkedLines(src.lines)
  {
    var m := Moved(src, dst);
    forall k | 0 <= k < |m| ensures Unmarked(m[k]) == Unmarked(src.lines[k]) {
      UnmarkedMarkLine(src.lines[k]);
    }
    assert UnmarkedLines(m) == UnmarkedLines(src.lines);
    assert UnmarkedLines(dst.lines + m) == UnmarkedLines(dst.lines) + UnmarkedLines(m);
  }

  lemma ConsSet(s: seq<ParaBlock>, t: seq<ParaBlock>, i: nat, b: Block)
    requires |t| == |s| && i < |t|
    requires UnmarkedLines(b.lines) == UnmarkedLines(t[i].block.lines)
    ensures TextLines(s, SetBlock(t, i, b)) == TextLines(s, t)
  {
    assert TextContribs(s, SetBlock(t, i, b)) == TextContribs(s, t);
  }

  /** Moving the lines of a text block into the previous text block keeps
      the text lines in order. */
  lemma ConsMove(s: seq<ParaBlock>, t: seq<ParaBlock>, src: nat, dst: nat)
    requires |t| == |s| && dst < src < |t|
    requires s[src].block.kind == BlockType.Text && s[dst].block.kind == BlockType.Text
    requires forall k :: dst < k < src ==> s[k].block.kind != BlockType.Text
    ensures TextLines(s, MoveLines(t, src, dst)) == TextLines(s, t)
  {
    var u := MoveLines(t, src, dst);
    var xs := TextContribs(s, t);
    var ys := TextContribs(s, u);
    UnmarkedAbsorb(t[dst].block, t[src].block);
    assert ys[dst] == xs[dst] + xs[src];
    assert ys[src] == [];
    FlattenGather(xs, ys, dst, src);
  }

  /** What one step of the backward walk does: two list blocks, or two index
      blocks, always merge; two text blocks outside a list group merge exactly
      when `Joins` says so, and are otherwise left as they are. */
  lemma MergeStepDecides(t: seq<ParaBlock>, cur: nat, prev: nat, isList: bool)
    requires cur < |t| && prev < |t| && cur != prev
    ensures var c, p := t[cur].block, t[prev].block;
      (c.kind == BlockType.List && p.kind == BlockType.List)
      || (c.kind == BlockType.Index && p.kind == BlockType.Index)
      ==> MergeStep(t, cur, prev, isList) == Some(MoveLines(t, cur, prev))
    ensures var c, p := t[cur].block, t[prev].block;
      c.kind == BlockType.Text && p.kind == BlockType.Text && !isList && Joins(c, p) == Some(true)
      ==> MergeStep(t, cur, prev, isList) == Some(MoveLines(t, cur, prev))
    ensures var c, p := t[cur].block, t[prev].block;
      c.kind == BlockType.Text && p.kind == BlockType.Text && !isList && Joins(c, p) == Some(false)
      ==> MergeStep(t, cur, prev, isList) == Some(t)
    ensures var c, p := t[cur].block, t[prev].block;
      c.kind == BlockType.Text && p.kind == BlockType.Text && !isList
      ==> (MergeStep(t, cur, prev, isList).None? <==> Joins(c, p).None?)
    ensures var c, p := t[cur].block, t[prev].block;
      !(c.kind == BlockType.Text && p.kind == BlockType.Text && !isList)
      && !(c.kind == BlockType.List && p.kind == BlockType.List)
      && !(c.kind == BlockType.Index && p.kind == BlockType.Index)
      ==> MergeStep(t, cur, prev, isList) == Some(t)
  {
    var c := t[cur].block;
    var p := t[prev].block;
    if c.kind == BlockType.Text && p.kind == BlockType.Text && !isList && Joins(c, p) == Some(false) {
      assert SetBlock(SetBlock(t, cur, c), prev, p) == t;
    }
  }

  /** A step of the backward walk leaves the list alone or moves the lines
      of `cur` into `prev`. */
  lemma MergeStepMoves(t: seq<ParaBlock>, cur: nat, prev: nat, isList: bool)
    requires cur < |t| && prev < |t| && cur != prev
    requires MergeStep(t, cur, prev, isList).Some?
    ensures MergeStep(t, cur, prev, isList).value in {t, MoveLines(t, cur, prev)}
  {
    var c := t[cur].block;
    var p := t[prev].block;
    if c.kind == BlockType.Text && p.kind == BlockType.Text && !isList {
      if Joins(c, p) == Some(false) {
        assert SetBlock(SetBlock(t, cur, c), prev, p) == t;
      }
    }
  }

  /** The list-group flag only switches off text merging: in a group whose
      blocks all have at most three lines two text neighbours stay as they
      are, and once some block has more the step is the ordinary text merge. */
  lemma ListGroupTextStep(t: seq<ParaBlock>, g: seq<nat>, cur: nat, prev: nat)
    requires InRange(g, |t|) && cur < |t| && prev < |t| && cur != prev
    requires t[cur].block.kind == BlockType.Text && t[prev].block.kind == BlockType.Text
    ensures IsListGroup(t, g) ==> MergeStep(t, cur, prev, IsListGroup(t, g)) == Some(t)
    ensures (exists k :: 0 <= k < |g| && |t[g[k]].block.lines| > 3) ==>
      MergeStep(t, cur, prev, IsListGroup(t, g)) == MergeStep(t, cur, prev, false)
  {
  }

  /** Between two neighbours of a group there is no text block. */
  predicate GapFree(s: seq<ParaBlock>, g: seq<nat>) {
    forall a, k :: 0 <= a < |g| - 1 && g[a] < k < g[a + 1] && k < |s| ==>
      s[k].block.kind != BlockType.Text
  }

  lemma {:induction false} ConsMergeFrom(s: seq<ParaBlock>, t: seq<ParaBlock>, g: seq<nat>, i: nat, isList: bool)
    requires |t| == |s| && GroupOf(s, g) && GapFree(s, g) && i < |g|
    requires MergeFrom(t, g, i, isList).Some?
    ensures TextLines(s, MergeFrom(t, g, i, isList).value) == TextLines(s, t)
    decreases i
  {
    if i > 0 {
      GroupPair(s, g, i);
      var step := MergeStep(t, g[i], g[i - 1], isList).value;
      MergeStepMoves(t, g[i], g[i - 1], isList);
      if step != t {
        ConsMove(s, t, g[i], g[i - 1]);
      }
      ConsMergeFrom(s, step, g, i - 1, isList);
    }
  }

  lemma ConsClassifyAt(s: seq<ParaBlock>, t: seq<ParaBlock>, i: nat, classify: Classifier)
    requires |t| == |s| && i < |t| && Sound(classify)
    requires ClassifyAt(t, i, classify).Some?
    ensures TextLines(s, ClassifyAt(t, i, classify).value) == TextLines(s, t)
  {
    var v := classify(t[i].block, t[i].pageW).value;
    UnmarkedRetagged(t[i].block.lines, v.lines);
    ConsSet(s, t, i, t[i].block.(kind := v.kind, lines := v.lines));
  }

  lemma {:induction false} ConsClassifyGroup(s: seq<ParaBlock>, t: seq<ParaBlock>, g: seq<nat>, classify: Classifier)
    requires |t| == |s| && InRange(g, |t|) && Sound(classify)
    requires ClassifyGroup(t, g, classify).Some?
    ensures TextLines(s, ClassifyGroup(t, g, classify).value) == TextLines(s, t)
  {
    if |g| > 0 {
      var h := g[..|g| - 1];
      ConsClassifyGroup(s, t, h, classify);
      ConsClassifyAt(s, ClassifyGroup(t, h, classify).value, g[|g| - 1], classify);
    }
  }

  lemma ConsGroup(s: seq<ParaBlock>, t: seq<ParaBlock>, g: seq<nat>, classify: Classifier)
    requires |t| == |s| && GroupOf(s, g) && GapFree(s, g) && Sound(classify)
    requires ProcessGroup(t, g, classify).Some?
    ensures TextLines(s, ProcessGroup(t, g, classify).value) == TextLines(s, t)
  {
    if |g| > 0 {
      ConsClassifyGroup(s, t, g, classify);
      var u := ClassifyGroup(t, g, classify).value;
      if |g| > 1 {
        ConsMergeFrom(s, u, g, |g| - 1, IsListGroup(u, g));
      }
    }
  }

  lemma {:induction false} ConsGroups(s: seq<ParaBlock>, s1: seq<ParaBlock>, gs: seq<seq<nat>>, n: nat, classify: Classifier)
    requires |s1| == |s| && n <= |gs| && Sound(classify) && AllGroupsOf(s, gs)
    requires forall q :: 0 <= q < |gs| ==> GapFree(s, gs[q])
    requires ProcessGroups(s1, gs, n, classify).Some?
    ensures TextLines(s, ProcessGroups(s1, gs, n, classify).value) == TextLines(s, s1)
  {
    if n > 0 {
      GroupsValid(s, gs, |s1|);
      ProcessGroupsLast(s1, gs, n, classify);
      var prev := ProcessGroups(s1, gs, n - 1, classify);
      ConsGroups(s, s1, gs, n - 1, classify);
      ConsGroup(s, prev.value, gs[n - 1], classify);
    }
  }

  lemma GroupGapFree(s: seq<ParaBlock>, q: nat)
    requires q < |TextGroups(Kinds(s))|
    ensures GapFree(s, TextGroups(Kinds(s))[q])
  {
    var g := TextGroups(Kinds(s))[q];
    forall a, k | 0 <= a < |g| - 1 && g[a] < k < g[a + 1] && k < |s|
      ensures s[k].block.kind != BlockType.Text
    {
      GroupGap(Kinds(s), q, a, k);
    }
  }

  /** The merge only moves lines between text blocks and marks them: read
      in block order, the lines at the positions that held text blocks are
      the same before and after, up to list and `cross_page` marks. */
  lemma ParaMergeLines(s: seq<ParaBlock>, lang: string -> string)
    requires ParaMergePage(s, lang).Some?
    ensures TextLines(s, ParaMergePage(s, lang).value) == TextLines(s, s)
  {
    var gs := TextGroups(Kinds(s));
    TextGroupsSpec(Kinds(s));
    var s1 := WithFs(s);
    assert TextContribs(s, s1) == TextContribs(s, s);
    forall q | 0 <= q < |gs| ensures GroupOf(s, gs[q]) && GapFree(s, gs[q]) {
      GroupTextOnly(s, q);
      GroupGapFree(s, q);
    }
    ClassifySound(lang);
    ConsGroups(s, s1, gs, |gs|, LangClassifier(lang));
  }

  // ---------------------------------------------------------------------
  // `para_split`
  // ---------------------------------------------------------------------

  /** A page of the document: its `page_{num}` key, its `page_size` and its
      `preproc_blocks`. */
  datatype PageIn = PageIn(num: int, width: real, height: real, blocks: seq<Block>)

  /** The page's blocks stamped with `page_num` and `page_size`. */
  function Stamped(p: PageIn): (r: seq<ParaBlock>)
    ensures |r| == |p.blocks|
    ensures forall x :: x in r ==> x.block.pageNum == Some(p.num)
  {
    seq(|p.blocks|, k requires 0 <= k < |p.blocks| =>
      ParaBlock(p.blocks[k].(pageNum := Some(p.num)), p.width, p.height))
  }

  function Runs(pages: seq<PageIn>): (r: seq<seq<ParaBlock>>)
    ensures |r| == |pages|
  {
    seq(|pages|, i requires 0 <= i < |pages| => Stamped(pages[i]))
  }

  /** All pages' blocks, page after page. */
  function AllBlocks(pages: seq<PageIn>): seq<ParaBlock> {
    Flatten(Runs(pages))
  }

  /** The result blocks stamped with page `num`, in list order. */
  function OnPageBlocks(r: seq<ParaBlock>, num: int): seq<ParaBlock> {
    if |r| == 0 then []
    else
      OnPageBlocks(r[..|r| - 1], num)
      + (if r[|r| - 1].block.pageNum == Some(num) then [r[|r| - 1]] else [])
  }

  function OnPage(r: seq<ParaBlock>, num: int): seq<Block> {
    var f := OnPageBlocks(r, num);
    seq(|f|, k requires 0 <= k < |f| => f[k].block)
  }

  /** `para_split`: the `para_blocks` of every page, or `None` when the
      merge fails. */
  function ParaSplitPages(pages: seq<PageIn>, lang: string -> string): (r: Option<seq<seq<Block>>>)
    ensures r.Some? ==> |r.value| == |pages|
  {
    match ParaMergePage(AllBlocks(pages), lang)
    case None => None
    case Some(m) => Some(seq(|pages|, i requires 0 <= i < |pages| => OnPage(m, pages[i].num)))
  }

  predicate DistinctNums(pages: seq<PageIn>) {
    forall a, b :: 0 <= a < b < |pages| ==> pages[a].num != pages[b].num
  }

  /** Exactly the blocks at positions `lo..hi` carry page key `num`. */
  predicate PagedAt(s: seq<ParaBlock>, num: int, lo: nat, hi: nat) {
    lo <= hi <= |s|
    && forall k :: 0 <= k < |s| ==> (s[k].block.pageNum == Some(num) <==> lo <= k < hi)
  }

  /** The page filter picks out a contiguous run when exactly its blocks
      carry the key. */
  lemma {:induction false} OnPageSlice(s: seq<ParaBlock>, num: int, lo: nat, hi: nat)
    requires PagedAt(s, num, lo, hi)
    ensures OnPageBlocks(s, num) == s[lo..hi]
  {
    if |s| > 0 {
      var init := s[..|s| - 1];
      if s[|s| - 1].block.pageNum == Some(num) {
        OnPageSlice(init, num, lo, hi - 1);
        assert s[lo..hi] == init[lo..hi - 1] + [s[|s| - 1]];
      } else if lo == hi {
        OnPageSlice(init, num, 0, 0);
      } else {
        assert hi <= |init| by {
          assert !(lo <= |s| - 1 < hi);
        }
        OnPageSlice(init, num, lo, hi);
        assert init[lo..hi] == s[lo..hi];
      }
    }
  }

  /** A block that page `i`'s run does not hold carries another page's key. */
  lemma NotOnPage(pages: seq<PageIn>, runs: seq<seq<ParaBlock>>, i: nat, j: nat)
    requires DistinctNums(pages) && i < |pages| && runs == Runs(pages)
    requires j < |Flatten(runs[..i])|
    ensures Flatten(runs[..i])[j].block.pageNum != Some(pages[i].num)
  {
    FlattenFrom(runs[..i], j);
    var q :| 0 <= q < i && Flatten(runs[..i])[j] in runs[..i][q];
    assert runs[q] == Stamped(pages[q]);
  }

  lemma NotOnPageAfter(pages: seq<PageIn>, runs: seq<seq<ParaBlock>>, i: nat, j: nat)
    requires DistinctNums(pages) && i < |pages| && runs == Runs(pages)
    requires j < |Flatten(runs[i + 1..])|
    ensures Flatten(runs[i + 1..])[j].block.pageNum != Some(pages[i].num)
  {
    var tail := runs[i + 1..];
    var x := Flatten(tail)[j];
    FlattenFrom(tail, j);
    var q :| 0 <= q < |tail| && x in tail[q];
    assert tail[q] == Stamped(pages[i + 1 + q]);
    assert x.block.pageNum == Some(pages[i + 1 + q].num);
  }

  /** With distinct page keys, the blocks stamped with page `i` are exactly
      the run that page contributed. */
  lemma PageMembers(pages: seq<PageIn>, i: nat, k: nat)
    requires DistinctNums(pages) && i < |pages| && k < |AllBlocks(pages)|
    ensures var lo := |Flatten(Runs(pages)[..i])|;
      AllBlocks(pages)[k].block.pageNum == Some(pages[i].num) <==> lo <= k < lo + |pages[i].blocks|
  {
    var runs := Runs(pages);
    var lo := |Flatten(runs[..i])|;
    FlattenPick(runs, i, k);
    if k < lo {
      NotOnPage(pages, runs, i, k);
    } else if k >= lo + |runs[i]| {
      NotOnPageAfter(pages, runs, i, k - lo - |runs[i]|);
    }
  }

  /** Page `i`'s run ends inside the block list. */
  lemma PageBounds(pages: seq<PageIn>, i: nat)
    requires i < |pages|
    ensures |Flatten(Runs(pages)[..i])| + |pages[i].blocks| <= |AllBlocks(pages)|
  {
    FlattenAround(Runs(pages), i);
  }

  lemma PageMembersAll(pages: seq<PageIn>, i: nat, m: seq<ParaBlock>)
    requires DistinctNums(pages) && i < |pages|
    requires MergedFrom(m, AllBlocks(pages))
    ensures var lo := |Flatten(Runs(pages)[..i])|;
      PagedAt(m, pages[i].num, lo, lo + |pages[i].blocks|)
  {
    PageBounds(pages, i);
    forall k | 0 <= k < |m|
      ensures m[k].block.pageNum == Some(pages[i].num) <==>
        |Flatten(Runs(pages)[..i])| <= k < |Flatten(Runs(pages)[..i])| + |pages[i].blocks|
    {
      PageMembers(pages, i, k);
    }
  }

  /** How the merged list `m` relates to the stamped block list: every
      block keeps its page and box, and non-text blocks are untouched. */
  predicate MergedFrom(m: seq<ParaBlock>, all: seq<ParaBlock>) {
    |m| == |all|
    && forall k :: 0 <= k < |m| ==>
      m[k].block.pageNum == all[k].block.pageNum && m[k].block.bbox == all[k].block.bbox
      && (all[k].block.kind != BlockType.Text ==> m[k] == all[k])
  }

  /** Block `k` of page `i` as it sits in the merged list. */
  lemma PageOutAt(pages: seq<PageIn>, i: nat, m: seq<ParaBlock>, k: nat)
    requires i < |pages| && k < |pages[i].blocks| && MergedFrom(m, AllBlocks(pages))
    ensures var lo := |Flatten(Runs(pages)[..i])|;
      var x := pages[i].blocks[k];
      lo + k < |m|
      && m[lo + k].block.pageNum == Some(pages[i].num) && m[lo + k].block.bbox == x.bbox
      && (x.kind != BlockType.Text ==> m[lo + k].block == x.(pageNum := Some(pages[i].num)))
  {
    var runs := Runs(pages);
    var lo := |Flatten(runs[..i])|;
    FlattenAround(runs, i);
    FlattenPick(runs, i, lo + k);
    assert AllBlocks(pages)[lo + k] == Stamped(pages[i])[k];
  }

  /** The `para_blocks` of page `i` drawn from a merged list `m`. */
  lemma PageOut(pages: seq<PageIn>, i: nat, m: seq<ParaBlock>)
    requires DistinctNums(pages) && i < |pages| && MergedFrom(m, AllBlocks(pages))
    ensures var out := OnPage(m, pages[i].num);
      |out| == |pages[i].blocks|
      && forall k :: 0 <= k < |out| ==>
        out[k].pageNum == Some(pages[i].num) && out[k].bbox == pages[i].blocks[k].bbox
        && (pages[i].blocks[k].kind != BlockType.Text ==>
              out[k] == pages[i].blocks[k].(pageNum := Some(pages[i].num)))
  {
    var lo := |Flatten(Runs(pages)[..i])|;
    PageMembersAll(pages, i, m);
    OnPageSlice(m, pages[i].num, lo, lo + |pages[i].blocks|);
    var out := OnPage(m, pages[i].num);
    forall k | 0 <= k < |out|
      ensures out[k].pageNum == Some(pages[i].num) && out[k].bbox == pages[i].blocks[k].bbox
        && (pages[i].blocks[k].kind != BlockType.Text ==>
              out[k] == pages[i].blocks[k].(pageNum := Some(pages[i].num)))
    {
      PageOutAt(pages, i, m, k);
      assert out[k] == m[lo + k].block;
    }
  }

  /** Each page's `para_blocks` are that page's own blocks, in their order,
      after the merge: same boxes, stamped with the page, and untouched unless
      they are text. */
  lemma ParaSplitPerPage(pages: seq<PageIn>, lang: string -> string, i: nat)
    requires DistinctNums(pages) && i < |pages|
    requires ParaSplitPages(pages, lang).Some?
    ensures var out := ParaSplitPages(pages, lang).value[i];
      |out| == |pages[i].blocks|
      && forall k :: 0 <= k < |out| ==>
        out[k].pageNum == Some(pages[i].num) && out[k].bbox == pages[i].blocks[k].bbox
        && (pages[i].blocks[k].kind != BlockType.Text ==>
              out[k] == pages[i].blocks[k].(pageNum := Some(pages[i].num)))
  {
    var all := AllBlocks(pages);
    var m := ParaMergePage(all, lang).value;
    assert ParaSplitPages(pages, lang).value[i] == OnPage(m, pages[i].num);
    assert MergedFrom(m, all);
    PageOut(pages, i, m);
  }
}
