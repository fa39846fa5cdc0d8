/** Block conflict resolution before layout splitting
    (`ocr_prepare_bboxes_for_layout_split_v2` and its helpers): titles
    duplicated by text, blocks covered by discarded regions, text duplicated
    by interline equations, blocks under page footnotes, and small blocks
    inside larger ones. */
module Conflict {
  import opened Base
  import opened BoxBase
  import opened Layout

  /** A block as the page model hands it over: `bbox`, `score` and, for the
      members of an image or table group, `group_id`. */
  datatype InBlock = InBlock(bbox: Box, score: real, groupId: Option<int>)

  /** The `[x0, y0, x1, y1, None, None, None, type, None, None, None, None,
      score(, group_id)]` list of the source. */
  datatype PreBlock = PreBlock(bbox: Box, kind: BlockType, score: real, groupId: Option<int>)

  predicate GroupIdsPresent(blocks: seq<InBlock>) {
    forall b :: b in blocks ==> b.groupId.Some?
  }

  /** `add_bboxes`: the group kinds carry their `group_id` (which the source
      looks up unconditionally), the others none. */
  function AddBboxes(blocks: seq<InBlock>, kind: BlockType): (r: seq<PreBlock>)
    requires IsGroupKind(kind) ==> GroupIdsPresent(blocks)
    ensures |r| == |blocks|
    ensures forall i :: 0 <= i < |r| ==>
      r[i].bbox == blocks[i].bbox && r[i].kind == kind && r[i].score == blocks[i].score
      && (r[i].groupId.Some? <==> IsGroupKind(kind))
  {
    seq(|blocks|, i requires 0 <= i < |blocks| =>
      PreBlock(blocks[i].bbox, kind, blocks[i].score, if IsGroupKind(kind) then blocks[i].groupId else None))
  }

  // ---------------------------------------------------------------------
  // The three overlap rules. Each collects the losers without repetition,
  // then removes them by value. Looping over the whole list and ignoring
  // pairs of the wrong kinds visits the relevant pairs in the same order
  // as the source's loops over the pre-filtered lists.
  // ---------------------------------------------------------------------

  function TitlePick(a: PreBlock, b: PreBlock): Option<PreBlock> {
    if a.kind == BlockType.Text && b.kind == BlockType.Title && IouAbove(a.bbox, b.bbox, 0.8) then Some(b) else None
  }

  /** `fix_text_overlap_title_blocks`. */
  function FixTextOverlapTitle(all: seq<PreBlock>): (r: seq<PreBlock>)
    ensures multiset(r) <= multiset(all)
  {
    RemoveAll(all, PairNeed(all, TitlePick, |all|))
  }

  /** A title is shadowed when some text block has IoU above 0.8 with it. */
  predicate ShadowedTitle(all: seq<PreBlock>, b: PreBlock) {
    b.kind == BlockType.Title && exists t :: t in all && t.kind == BlockType.Text && IouAbove(t.bbox, b.bbox, 0.8)
  }

  lemma TitlePickIff(all: seq<PreBlock>, b: PreBlock)
    requires b in all
    ensures Picked(all, TitlePick, |all|, b) == ShadowedTitle(all, b)
  {
    if ShadowedTitle(all, b) {
      var t :| t in all && t.kind == BlockType.Text && IouAbove(t.bbox, b.bbox, 0.8);
      var a :| 0 <= a < |all| && all[a] == t;
      var k :| 0 <= k < |all| && all[k] == b;
      assert TitlePick(all[a], all[k]) == Some(b);
    }
    if Picked(all, TitlePick, |all|, b) {
      var a, k :| 0 <= a < |all| && 0 <= k < |all| && TitlePick(all[a], all[k]) == Some(b);
      assert all[a] in all;
    }
  }

  /** On a duplicate-free list the rule drops exactly the shadowed titles
      and keeps the order of the rest: text wins over title. */
  lemma FixTextOverlapTitleSpec(all: seq<PreBlock>)
    requires Distinct(all)
    ensures FixTextOverlapTitle(all) == Filter(all, b => !ShadowedTitle(all, b))
  {
    RemovePickedDistinct(all, TitlePick);
    forall b | b in all ensures Picked(all, TitlePick, |all|, b) == ShadowedTitle(all, b) {
      TitlePickIff(all, b);
    }
    FilterCongruent(all, y => !Picked(all, TitlePick, |all|, y), b => !ShadowedTitle(all, b));
  }

  /** With repeated blocks, one copy of each shadowed title's value is
      removed and everything else keeps its multiplicity. */
  lemma FixTextOverlapTitleCounts(all: seq<PreBlock>)
    ensures forall b :: (multiset(FixTextOverlapTitle(all))[b]
                         == multiset(all)[b] - (if b in all && ShadowedTitle(all, b) then 1 else 0))
  {
    PairNeedCounts(all, TitlePick);
    forall b ensures Picked(all, TitlePick, |all|, b) <==> b in all && ShadowedTitle(all, b) {
      if b in all {
        TitlePickIff(all, b);
      }
    }
  }

  function InterlinePick(a: PreBlock, b: PreBlock): Option<PreBlock> {
    if a.kind == BlockType.InterlineEquation && b.kind == BlockType.Text && IouAbove(a.bbox, b.bbox, 0.8) then Some(b) else None
  }

  /** `fix_interline_equation_overlap_text_blocks_with_hi_iou`. */
  function FixInterlineOverlapText(all: seq<PreBlock>): (r: seq<PreBlock>)
    ensures multiset(r) <= multiset(all)
  {
    RemoveAll(all, PairNeed(all, InterlinePick, |all|))
  }

  /** A text block is shadowed when some interline equation has IoU above
      0.8 with it. */
  predicate ShadowedText(all: seq<PreBlock>, b: PreBlock) {
    b.kind == BlockType.Text && exists e :: e in all && e.kind == BlockType.InterlineEquation && IouAbove(e.bbox, b.bbox, 0.8)
  }

  lemma InterlinePickIff(all: seq<PreBlock>, b: PreBlock)
    requires b in all
    ensures Picked(all, InterlinePick, |all|, b) == ShadowedText(all, b)
  {
    if ShadowedText(all, b) {
      var e :| e in all && e.kind == BlockType.InterlineEquation && IouAbove(e.bbox, b.bbox, 0.8);
      var a :| 0 <= a < |all| && all[a] == e;
      var k :| 0 <= k < |all| && all[k] == b;
      assert InterlinePick(all[a], all[k]) == Some(b);
    }
    if Picked(all, InterlinePick, |all|, b) {
      var a, k :| 0 <= a < |all| && 0 <= k < |all| && InterlinePick(all[a], all[k]) == Some(b);
      assert all[a] in all;
    }
  }

  /** On a duplicate-free list the rule drops exactly the shadowed text
      blocks: the equation wins over text. */
  lemma FixInterlineOverlapTextSpec(all: seq<PreBlock>)
    requires Distinct(all)
    ensures FixInterlineOverlapText(all) == Filter(all, b => !ShadowedText(all, b))
  {
    RemovePickedDistinct(all, InterlinePick);
    forall b | b in all ensures Picked(all, InterlinePick, |all|, b) == ShadowedText(all, b) {
      InterlinePickIff(all, b);
    }
    FilterCongruent(all, y => !Picked(all, InterlinePick, |all|, y), b => !ShadowedText(all, b));
  }

  /** With repeated blocks, one copy of each shadowed text block's value is
      removed and everything else keeps its multiplicity. */
  lemma FixInterlineOverlapTextCounts(all: seq<PreBlock>)
    ensures forall b :: (multiset(FixInterlineOverlapText(all))[b]
                         == multiset(all)[b] - (if b in all && ShadowedText(all, b) then 1 else 0))
  {
    PairNeedCounts(all, InterlinePick);
    forall b ensures Picked(all, InterlinePick, |all|, b) <==> b in all && ShadowedText(all, b) {
      if b in all {
        InterlinePickIff(all, b);
      }
    }
  }

  /** More than 60% of the block's area lies in some discarded region. */
  predicate CoveredByDiscarded(discarded: seq<InBlock>, b: PreBlock) {
    exists d :: d in discarded && OverlapRatioInFirst(b.bbox, d.bbox) > 0.6
  }

  /** `remove_need_drop_blocks`: the first matching region is enough (the
      `break`), and each value is collected once. */
  function RemoveNeedDrop(all: seq<PreBlock>, discarded: seq<InBlock>): (r: seq<PreBlock>)
    ensures multiset(r) <= multiset(all)
  {
    RemoveAll(all, Dedup(Filter(all, b => CoveredByDiscarded(discarded, b))))
  }

  /** Removing by value the deduplicated list of matches of `p` is filtering
      by `p`'s negation, on a duplicate-free list. */
  lemma RemoveMatchesDistinct(all: seq<PreBlock>, p: PreBlock -> bool, q: PreBlock -> bool)
    requires Distinct(all)
    requires forall b :: q(b) == !p(b)
    ensures RemoveAll(all, Dedup(Filter(all, p))) == Filter(all, q)
  {
    FilterDistinct(all, p);
    DedupDistinct(Filter(all, p));
    RemoveAllFiltered(all, p, q);
  }

  /** The discarded region wins: blocks mostly inside one are dropped. */
  lemma RemoveNeedDropSpec(all: seq<PreBlock>, discarded: seq<InBlock>)
    requires Distinct(all)
    ensures RemoveNeedDrop(all, discarded) == Filter(all, b => !CoveredByDiscarded(discarded, b))
  {
    RemoveMatchesDistinct(all, b => CoveredByDiscarded(discarded, b), b => !CoveredByDiscarded(discarded, b));
  }

  /** With repeated blocks, one copy of each covered block's value is
      removed and everything else keeps its multiplicity. */
  lemma RemoveNeedDropCounts(all: seq<PreBlock>, discarded: seq<InBlock>)
    ensures forall b :: (multiset(RemoveNeedDrop(all, discarded))[b]
                         == multiset(all)[b] - (if b in all && CoveredByDiscarded(discarded, b) then 1 else 0))
  {
    var need := Dedup(Filter(all, b => CoveredByDiscarded(discarded, b)));
    RemoveAllCounts(all, need);
  }

  // ---------------------------------------------------------------------
  // Page footnotes
  // ---------------------------------------------------------------------

  /** A discarded block wider than a third of the page, taller than 10 and
      starting in the lower half is a page footnote. */
  predicate IsPageFootnote(d: InBlock, pageW: real, pageH: real) {
    d.bbox.x1 - d.bbox.x0 > pageW / 3.0 && d.bbox.y1 - d.bbox.y0 > 10.0 && d.bbox.y0 > pageH / 2.0
  }

  function PageFootnotes(discarded: seq<InBlock>, pageW: real, pageH: real): (r: seq<Box>)
    ensures forall f :: f in r <==> exists d :: d in discarded && IsPageFootnote(d, pageW, pageH) && d.bbox == f
  {
    if |discarded| == 0 then []
    else
      var d := discarded[|discarded| - 1];
      var init := discarded[..|discarded| - 1];
      assert forall x :: x in discarded <==> x in init || x == d;
      PageFootnotes(init, pageW, pageH) + (if IsPageFootnote(d, pageW, pageH) then [d.bbox] else [])
  }

  /** The block starts below footnote `f` and `f` spans at least 80% of its
      horizontal extent. */
  predicate UnderFootnote(footnotes: seq<Box>, b: PreBlock) {
    exists f :: f in footnotes && b.bbox.y0 >= f.y1 && VerticalProjectionOverlapRatio(b.bbox, f) >= 0.8
  }

  /** `find_blocks_under_footnote`. */
  function FindBlocksUnderFootnote(all: seq<PreBlock>, footnotes: seq<Box>): (r: seq<PreBlock>)
    ensures Distinct(r)
    ensures forall b :: b in r <==> b in all && UnderFootnote(footnotes, b)
  {
    Dedup(Filter(all, b => UnderFootnote(footnotes, b)))
  }

  // ---------------------------------------------------------------------
  // Small blocks inside larger ones
  // ---------------------------------------------------------------------

  /** The loop state of `remove_overlaps_min_blocks`: the current (possibly
      widened) blocks, and the positions of the blocks collected for removal
      (the source collects references, so later widening is visible). */
  datatype MinState = MinState(blocks: seq<PreBlock>, need: seq<nat>)

  predicate ValidState(st: MinState) {
    (forall k :: 0 <= k < |st.need| ==> st.need[k] < |st.blocks|) && Distinct(st.need)
  }

  /** `block_to_remove not in need_remove`, by value. */
  predicate Collected(st: MinState, x: PreBlock)
    requires ValidState(st)
  {
    exists k :: 0 <= k < |st.need| && st.blocks[st.need[k]] == x
  }

  /** The first position whose box equals `b` (the `next(...)` search). */
  function FirstWithBox(blocks: seq<PreBlock>, b: Box): (r: Option<nat>)
    ensures r.Some? ==> r.value < |blocks| && blocks[r.value].bbox == b
    ensures r.Some? ==> forall k :: 0 <= k < r.value ==> blocks[k].bbox != b
    ensures r.None? ==> forall k :: 0 <= k < |blocks| ==> blocks[k].bbox != b
  {
    if |blocks| == 0 then None
    else if blocks[0].bbox == b then Some(0)
    else
      var rest := FirstWithBox(blocks[1..], b);
      if rest.Some? then Some(rest.value + 1) else None
  }

  /** One `(block1, block2)` iteration. */
  function MinStep(st: MinState, i: nat, j: nat): (r: MinState)
    requires ValidState(st) && i < |st.blocks| && j < |st.blocks|
    ensures ValidState(r)
    ensures |r.blocks| == |st.blocks|
  {
    var b1 := st.blocks[i];
    var b2 := st.blocks[j];
    if b1 == b2 then st
    else
      var ob := MinBoxIfOverlapByRatio(b1.bbox, b2.bbox, 0.8);
      if ob.None? then st
      else
        var t := FirstWithBox(st.blocks, ob.value);
        if t.None? || Collected(st, st.blocks[t.value]) then st
        else
          Absorb(st, t.value, if b1 != st.blocks[t.value] then i else j)
  }

  /** Block `small` is collected and its box merged into block `large`. */
  function Absorb(st: MinState, small: nat, large: nat): (r: MinState)
    requires ValidState(st) && small < |st.blocks| && large < |st.blocks|
    requires !Collected(st, st.blocks[small])
    ensures ValidState(r)
    ensures |r.blocks| == |st.blocks|
  {
    var lb := st.blocks[large];
    assert small !in st.need;
    DistinctCons(small, st.need);
    DistinctPermutation([small] + st.need, st.need + [small]);
    MinState(st.blocks[large := lb.(bbox := UnionBox(lb.bbox, st.blocks[small].bbox))], st.need + [small])
  }

  /** The block at a position is still the original one, possibly widened. */
  predicate Widened(orig: PreBlock, now: PreBlock) {
    now.kind == orig.kind && now.score == orig.score && now.groupId == orig.groupId && IsIn(orig.bbox, now.bbox)
  }

  predicate AllWidened(orig: seq<PreBlock>, now: seq<PreBlock>) {
    |orig| == |now| && forall p :: 0 <= p < |orig| ==> Widened(orig[p], now[p])
  }

  lemma WidenedTrans(a: PreBlock, b: PreBlock, c: PreBlock)
    requires Widened(a, b) && Widened(b, c)
    ensures Widened(a, c)
  {
    IsInOrder(a.bbox, b.bbox, c.bbox);
  }

  lemma AllWidenedTrans(a: seq<PreBlock>, b: seq<PreBlock>, c: seq<PreBlock>)
    requires AllWidened(a, b) && AllWidened(b, c)
    ensures AllWidened(a, c)
  {
    forall p | 0 <= p < |a| ensures Widened(a[p], c[p]) {
      WidenedTrans(a[p], b[p], c[p]);
    }
  }

  lemma MinStepWiden(st: MinState, i: nat, j: nat)
    requires ValidState(st) && i < |st.blocks| && j < |st.blocks|
    ensures AllWidened(st.blocks, MinStep(st, i, j).blocks)
  {
    forall p | 0 <= p < |st.blocks| ensures Widened(st.blocks[p], MinStep(st, i, j).blocks[p]) {
      IsInOrder(st.blocks[p].bbox, st.blocks[p].bbox, st.blocks[p].bbox);
    }
  }

  /** `b` extends `a`. */
  predicate Extends(a: seq<nat>, b: seq<nat>) {
    |a| <= |b| && b[..|a|] == a
  }

  /** `b` is a later state of the loop than `a`: every block kept, possibly
      widened, the collected positions only extended, and validity kept. */
  predicate Later(a: MinState, b: MinState) {
    AllWidened(a.blocks, b.blocks) && Extends(a.need, b.need) && (ValidState(a) ==> ValidState(b))
  }

  lemma LaterRefl(a: MinState)
    ensures Later(a, a)
  {
    forall p | 0 <= p < |a.blocks| ensures Widened(a.blocks[p], a.blocks[p]) {
      WidenedSelf(a.blocks[p]);
    }
  }

  lemma LaterTrans(a: MinState, b: MinState, c: MinState)
    requires Later(a, b) && Later(b, c)
    ensures Later(a, c)
  {
    AllWidenedTrans(a.blocks, b.blocks, c.blocks);
    assert c.need[..|a.need|] == c.need[..|b.need|][..|a.need|];
  }

  lemma MinStepLater(st: MinState, i: nat, j: nat)
    requires ValidState(st) && i < |st.blocks| && j < |st.blocks|
    ensures Later(st, MinStep(st, i, j))
  {
    MinStepWiden(st, i, j);
    var r := MinStep(st, i, j);
    assert r.need == st.need || r.need[..|st.need|] == st.need;
  }

  /** The loop body as a total function; the nested loops only ever call it
      on a valid state with both positions in range. */
  function LoopStep(st: MinState, i: nat, j: nat): MinState {
    if ValidState(st) && i < |st.blocks| && j < |st.blocks| then MinStep(st, i, j) else st
  }

  lemma LoopStepLater()
    ensures forall st: MinState, i: nat, j: nat :: Later(st, LoopStep(st, i, j))
  {
    forall st: MinState, i: nat, j: nat ensures Later(st, LoopStep(st, i, j)) {
      if ValidState(st) && i < |st.blocks| && j < |st.blocks| {
        MinStepLater(st, i, j);
      } else {
        LaterRefl(st);
      }
    }
  }

  // Nested loops `for i in range(n): for j in range(n): s = f(s, i, j)`,
  // for any loop body `f`.

  /** Columns `0 .. j - 1` of row `i`. */
  function Row<S>(f: (S, nat, nat) -> S, s: S, i: nat, j: nat): S {
    if j == 0 then s else f(Row(f, s, i, j - 1), i, j - 1)
  }

  /** Rows `0 .. i - 1`, each over `n` columns. */
  function Rows<S>(f: (S, nat, nat) -> S, s: S, n: nat, i: nat): S {
    if i == 0 then s else Row(f, Rows(f, s, n, i - 1), i - 1, n)
  }

  /** Columns `j .. n - 1` of row `i`. */
  function RowFrom<S>(f: (S, nat, nat) -> S, s: S, i: nat, j: nat, n: nat): S
    decreases n - j
  {
    if j >= n then s else RowFrom(f, f(s, i, j), i, j + 1, n)
  }

  /** Rows `i .. n - 1`. */
  function RowsFrom<S>(f: (S, nat, nat) -> S, s: S, i: nat, n: nat): S
    decreases n - i
  {
    if i >= n then s else RowsFrom(f, RowFrom(f, s, i, 0, n), i + 1, n)
  }

  /** A row is its first `j` columns followed by the rest. */
  lemma {:induction false} RowSplit<S>(f: (S, nat, nat) -> S, s: S, i: nat, j: nat, n: nat)
    requires j <= n
    ensures Row(f, s, i, n) == RowFrom(f, Row(f, s, i, j), i, j, n)
    decreases n - j
  {
    if j < n {
      RowSplit(f, s, i, j + 1, n);
    }
  }

  /** The whole loop is its first `i` rows followed by the rest. */
  lemma {:induction false} RowsSplit<S>(f: (S, nat, nat) -> S, s: S, n: nat, i: nat)
    requires i <= n
    ensures Rows(f, s, n, n) == RowsFrom(f, Rows(f, s, n, i), i, n)
    decreases n - i
  {
    if i < n {
      RowSplit(f, Rows(f, s, n, i), i, 0, n);
      RowsSplit(f, s, n, i + 1);
    }
  }

  /** A loop whose body never moves backwards never does either. */
  lemma {:induction false} RowLater(f: (MinState, nat, nat) -> MinState, s: MinState, i: nat, j: nat)
    requires forall st: MinState, i: nat, j: nat :: Later(st, f(st, i, j))
    ensures Later(s, Row(f, s, i, j))
  {
    if j == 0 {
      LaterRefl(s);
    } else {
      RowLater(f, s, i, j - 1);
      LaterTrans(s, Row(f, s, i, j - 1), Row(f, s, i, j));
    }
  }

  lemma {:induction false} RowsLater(f: (MinState, nat, nat) -> MinState, s: MinState, n: nat, i: nat)
    requires forall st: MinState, i: nat, j: nat :: Later(st, f(st, i, j))
    ensures Later(s, Rows(f, s, n, i))
  {
    if i == 0 {
      LaterRefl(s);
    } else {
      RowsLater(f, s, n, i - 1);
      RowLater(f, Rows(f, s, n, i - 1), i - 1, n);
      LaterTrans(s, Rows(f, s, n, i - 1), Rows(f, s, n, i));
    }
  }

  lemma {:induction false} RowFromLater(f: (MinState, nat, nat) -> MinState, s: MinState, i: nat, j: nat, n: nat)
    requires forall st: MinState, i: nat, j: nat :: Later(st, f(st, i, j))
    ensures Later(s, RowFrom(f, s, i, j, n))
    decreases n - j
  {
    if j >= n {
      LaterRefl(s);
    } else {
      RowFromLater(f, f(s, i, j), i, j + 1, n);
      LaterTrans(s, f(s, i, j), RowFrom(f, s, i, j, n));
    }
  }

  lemma {:induction false} RowsFromLater(f: (MinState, nat, nat) -> MinState, s: MinState, i: nat, n: nat)
    requires forall st: MinState, i: nat, j: nat :: Later(st, f(st, i, j))
    ensures Later(s, RowsFrom(f, s, i, n))
    decreases n - i
  {
    if i >= n {
      LaterRefl(s);
    } else {
      var next := RowFrom(f, s, i, 0, n);
      RowFromLater(f, s, i, 0, n);
      RowsFromLater(f, next, i + 1, n);
      LaterTrans(s, next, RowsFrom(f, s, i, n));
    }
  }

  /** A state every iteration leaves alone is left alone by the loop. */
  lemma {:induction false} RowFixed<S>(f: (S, nat, nat) -> S, s: S, i: nat, j: nat)
    requires forall i: nat, j: nat :: f(s, i, j) == s
    ensures Row(f, s, i, j) == s
  {
    if j > 0 {
      RowFixed(f, s, i, j - 1);
    }
  }

  lemma {:induction false} RowsFixed<S>(f: (S, nat, nat) -> S, s: S, n: nat, i: nat)
    requires forall i: nat, j: nat :: f(s, i, j) == s
    ensures Rows(f, s, n, i) == s
  {
    if i > 0 {
      RowsFixed(f, s, n, i - 1);
      RowFixed(f, s, i - 1, n);
    }
  }

  /** The loop over all ordered pairs. */
  function MinBlocksLoop(all: seq<PreBlock>): (st: MinState)
    ensures ValidState(st)
    ensures AllWidened(all, st.blocks)
  {
    LoopStepLater();
    RowsLater(LoopStep, MinState(all, []), |all|, |all|);
    Rows(LoopStep, MinState(all, []), |all|, |all|)
  }

  function NeedValues(st: MinState): (r: seq<PreBlock>)
    requires ValidState(st)
    ensures |r| == |st.need|
    ensures forall x :: x in r <==> Collected(st, x)
  {
    var r := At(st.blocks, st.need);
    assert forall x :: x in r <==> Collected(st, x) by {
      forall x ensures x in r <==> Collected(st, x) {
        if Collected(st, x) {
          var k :| 0 <= k < |st.need| && st.blocks[st.need[k]] == x;
          assert r[k] == x;
        }
      }
    }
    r
  }

  /** `remove_overlaps_min_blocks`: a block whose box is the smaller of an
      overlapping pair (more than 80% of it shared) is removed and its box is
      merged into the other block of the pair. */
  function RemoveOverlapsMinBlocks(all: seq<PreBlock>): (r: seq<PreBlock>)
    ensures |r| <= |all|
    ensures forall x :: x in r ==> exists p :: 0 <= p < |all| && Widened(all[p], x)
  {
    var st := MinBlocksLoop(all);
    var r := RemoveAll(st.blocks, NeedValues(st));
    assert forall x :: x in r ==> x in st.blocks by {
      forall x | x in r ensures x in st.blocks { assert x in multiset(r); }
    }
    r
  }

  /** No two distinct blocks overlap by more than 80% of the smaller one. */
  predicate NoNestedPair(blocks: seq<PreBlock>) {
    forall a, b :: 0 <= a < |blocks| && 0 <= b < |blocks| && blocks[a] != blocks[b] ==>
      MinBoxIfOverlapByRatio(blocks[a].bbox, blocks[b].bbox, 0.8).None?
  }

  /** Without any pair overlapping that much, nothing changes. */
  lemma RemoveOverlapsMinBlocksQuiet(all: seq<PreBlock>)
    requires NoNestedPair(all)
    ensures RemoveOverlapsMinBlocks(all) == all
  {
    var init := MinState(all, []);
    forall i: nat, j: nat ensures LoopStep(init, i, j) == init {
      if i < |all| && j < |all| && all[i] != all[j] {
        assert MinBoxIfOverlapByRatio(all[i].bbox, all[j].bbox, 0.8).None?;
      }
    }
    RowsFixed(LoopStep, init, |all|, |all|);
  }

  /** The smaller box of a nested pair of distinct blocks is collected by
      that pair's iteration, unless a block of the same value was collected
      before. */
  lemma MinStepCollects(st: MinState, i: nat, j: nat)
    requires ValidState(st) && i < |st.blocks| && j < |st.blocks|
    requires st.blocks[i] != st.blocks[j]
    requires st.blocks[j].bbox.WellFormed() && IsIn(st.blocks[j].bbox, st.blocks[i].bbox)
    ensures MinBoxIfOverlapByRatio(st.blocks[i].bbox, st.blocks[j].bbox, 0.8).Some?
    ensures var small := MinBoxIfOverlapByRatio(st.blocks[i].bbox, st.blocks[j].bbox, 0.8).value;
            var r := MinStep(st, i, j);
            small.Area() <= st.blocks[j].bbox.Area()
            && exists k :: 0 <= k < |r.need| && r.blocks[r.need[k]].bbox == small
  {
    var a := st.blocks[i].bbox;
    var b := st.blocks[j].bbox;
    OverlapRatioToMinBoxSymmetric(a, b);
    OverlapRatioToMinBoxInside(b, a);
    var ob := MinBoxIfOverlapByRatio(a, b, 0.8);
    var t := FirstWithBox(st.blocks, ob.value);
    assert ob.value == a || ob.value == b;
    assert t.Some?;
    var r := MinStep(st, i, j);
    if Collected(st, st.blocks[t.value]) {
      var k :| 0 <= k < |st.need| && st.blocks[st.need[k]] == st.blocks[t.value];
      assert r.need[k] == st.need[k];
      assert r.blocks[r.need[k]] == st.blocks[st.need[k]];
    } else {
      assert r.need[|st.need|] == t.value;
      assert r.blocks[t.value] == st.blocks[t.value];
    }
  }

  /** The loop state when iteration `(i, j)` begins. */
  function Before(all: seq<PreBlock>, i: nat, j: nat): (st: MinState)
    requires i < |all| && j <= |all|
    ensures ValidState(st) && |st.blocks| == |all|
  {
    var init := MinState(all, []);
    LoopStepLater();
    RowsLater(LoopStep, init, |all|, i);
    RowLater(LoopStep, Rows(LoopStep, init, |all|, i), i, j);
    Row(LoopStep, Rows(LoopStep, init, |all|, i), i, j)
  }

  /** After iteration `(i, j)` the loop runs the rest of row `i`, then the
      remaining rows. */
  lemma RestOfLoop<S>(f: (S, nat, nat) -> S, s: S, n: nat, i: nat, j: nat)
    requires i < n && j < n
    ensures Rows(f, s, n, n) == RowsFrom(f, RowFrom(f, Row(f, Rows(f, s, n, i), i, j + 1), i, j + 1, n), i + 1, n)
  {
    RowSplit(f, Rows(f, s, n, i), i, j + 1, n);
    RowsSplit(f, s, n, i + 1);
  }

  /** Every state after iteration `(i, j)` of a loop whose body never moves
      backwards leads to the final one. */
  lemma LaterToEnd(f: (MinState, nat, nat) -> MinState, s: MinState, n: nat, i: nat, j: nat)
    requires forall st: MinState, i: nat, j: nat :: Later(st, f(st, i, j))
    requires i < n && j < n
    ensures Later(Row(f, Rows(f, s, n, i), i, j + 1), Rows(f, s, n, n))
  {
    var after := Row(f, Rows(f, s, n, i), i, j + 1);
    var rest := RowFrom(f, after, i, j + 1, n);
    RestOfLoop(f, s, n, i, j);
    RowFromLater(f, after, i, j + 1, n);
    RowsFromLater(f, rest, i + 1, n);
    LaterTrans(after, rest, RowsFrom(f, rest, i + 1, n));
  }

  /** Every state after iteration `(i, j)` leads to the final one. */
  lemma AfterLater(all: seq<PreBlock>, i: nat, j: nat)
    requires i < |all| && j < |all|
    ensures Later(MinStep(Before(all, i, j), i, j), MinBlocksLoop(all))
  {
    LoopStepLater();
    LaterToEnd(LoopStep, MinState(all, []), |all|, i, j);
    assert Row(LoopStep, Rows(LoopStep, MinState(all, []), |all|, i), i, j + 1) == MinStep(Before(all, i, j), i, j);
  }

  /** One iteration over a pair overlapping by more than 80% of the smaller
      box: some block with the smaller box is collected; and when the first
      block with that box was not collected yet, it is the one collected
      and the other block of the pair takes the union of the two boxes. */
  lemma MinStepOutcome(st: MinState, i: nat, j: nat)
    requires ValidState(st) && i < |st.blocks| && j < |st.blocks|
    requires st.blocks[i] != st.blocks[j]
    requires MinBoxIfOverlapByRatio(st.blocks[i].bbox, st.blocks[j].bbox, 0.8).Some?
    ensures var small := MinBoxIfOverlapByRatio(st.blocks[i].bbox, st.blocks[j].bbox, 0.8).value;
      FirstWithBox(st.blocks, small).Some?
    ensures var small := MinBoxIfOverlapByRatio(st.blocks[i].bbox, st.blocks[j].bbox, 0.8).value;
      var r := MinStep(st, i, j);
      exists k :: 0 <= k < |r.need| && r.blocks[r.need[k]].bbox == small
    ensures var small := MinBoxIfOverlapByRatio(st.blocks[i].bbox, st.blocks[j].bbox, 0.8).value;
      var t := FirstWithBox(st.blocks, small).value;
      var large := if st.blocks[i] != st.blocks[t] then i else j;
      var r := MinStep(st, i, j);
      !Collected(st, st.blocks[t]) ==>
        large != t && r.need == st.need + [t] && r.blocks[t] == st.blocks[t]
        && r.blocks[large].bbox == UnionBox(st.blocks[large].bbox, small)
  {
    var small := MinBoxIfOverlapByRatio(st.blocks[i].bbox, st.blocks[j].bbox, 0.8).value;
    assert st.blocks[i].bbox == small || st.blocks[j].bbox == small;
    var t := FirstWithBox(st.blocks, small).value;
    var r := MinStep(st, i, j);
    if Collected(st, st.blocks[t]) {
      var k :| 0 <= k < |st.need| && st.blocks[st.need[k]] == st.blocks[t];
      assert r.need[k] == st.need[k];
      assert r.blocks[r.need[k]] == st.blocks[st.need[k]];
    } else {
      assert r.need[|st.need|] == t;
    }
  }

  /** `remove_overlaps_min_blocks` over a whole list: whenever an iteration
      meets two different blocks overlapping by more than 80% of the smaller
      box, a block covering that smaller box is among those removed at the
      end; and when the first block with the smaller box had not been
      collected yet, that very block is removed and the other block of the
      pair ends up covering the union of its box and the smaller one. */
  lemma MinLoopCollects(all: seq<PreBlock>, i: nat, j: nat)
    requires i < |all| && j < |all|
    requires Before(all, i, j).blocks[i] != Before(all, i, j).blocks[j]
    requires MinBoxIfOverlapByRatio(Before(all, i, j).blocks[i].bbox, Before(all, i, j).blocks[j].bbox, 0.8).Some?
    ensures var st := Before(all, i, j);
      var fin := MinBlocksLoop(all);
      var small := MinBoxIfOverlapByRatio(st.blocks[i].bbox, st.blocks[j].bbox, 0.8).value;
      exists k :: 0 <= k < |fin.need| && IsIn(small, fin.blocks[fin.need[k]].bbox)
    ensures var st := Before(all, i, j);
      var fin := MinBlocksLoop(all);
      var small := MinBoxIfOverlapByRatio(st.blocks[i].bbox, st.blocks[j].bbox, 0.8).value;
      FirstWithBox(st.blocks, small).Some?
      && var t := FirstWithBox(st.blocks, small).value;
         var large := if st.blocks[i] != st.blocks[t] then i else j;
         !Collected(st, st.blocks[t]) ==>
           t in fin.need && IsIn(UnionBox(st.blocks[large].bbox, small), fin.blocks[large].bbox)
  {
    var st := Before(all, i, j);
    var fin := MinBlocksLoop(all);
    var r := MinStep(st, i, j);
    var small := MinBoxIfOverlapByRatio(st.blocks[i].bbox, st.blocks[j].bbox, 0.8).value;
    MinStepOutcome(st, i, j);
    AfterLater(all, i, j);
    LaterKeepsCollected(r, fin, small);
    var t := FirstWithBox(st.blocks, small).value;
    var large := if st.blocks[i] != st.blocks[t] then i else j;
    if !Collected(st, st.blocks[t]) {
      LaterKeepsLast(st.need, r, fin, t, large);
    }
  }

  /** A collected block with box `small` stays collected, its box at least
      as large. */
  lemma LaterKeepsCollected(r: MinState, fin: MinState, small: Box)
    requires Later(r, fin) && ValidState(r)
    requires exists k :: 0 <= k < |r.need| && r.blocks[r.need[k]].bbox == small
    ensures exists k :: 0 <= k < |fin.need| && IsIn(small, fin.blocks[fin.need[k]].bbox)
  {
    var k :| 0 <= k < |r.need| && r.blocks[r.need[k]].bbox == small;
    assert fin.need[k] == r.need[k];
    assert Widened(r.blocks[r.need[k]], fin.blocks[fin.need[k]]);
  }

  /** The position collected last stays collected, and every block keeps
      at least its box. */
  lemma LaterKeepsLast(prev: seq<nat>, r: MinState, fin: MinState, t: nat, large: nat)
    requires Later(r, fin) && r.need == prev + [t] && large < |r.blocks|
    ensures t in fin.need && IsIn(r.blocks[large].bbox, fin.blocks[large].bbox)
  {
    assert fin.need[|prev|] == t;
    assert Widened(r.blocks[large], fin.blocks[large]);
  }

  /** The result is the final block list less one copy of each collected
      block's value: one block per collected position. */
  lemma RemoveOverlapsMinBlocksCounts(all: seq<PreBlock>)
    ensures var fin := MinBlocksLoop(all);
      multiset(RemoveOverlapsMinBlocks(all)) == multiset(fin.blocks) - multiset(NeedValues(fin))
      && |RemoveOverlapsMinBlocks(all)| == |all| - |fin.need|
  {
    var fin := MinBlocksLoop(all);
    AtSubMultiset(fin.blocks, fin.need);
    RemoveAllPresent(fin.blocks, NeedValues(fin));
  }

  // ---------------------------------------------------------------------
  // The whole preparation
  // ---------------------------------------------------------------------

  /** The sort key `x[0] + x[1]`. */
  function CornerKey(b: PreBlock): real { b.bbox.x0 + b.bbox.y0 }

  datatype PageBlocks = PageBlocks(
    imgBody: seq<InBlock>, imgCaption: seq<InBlock>, imgFootnote: seq<InBlock>,
    tableBody: seq<InBlock>, tableCaption: seq<InBlock>, tableFootnote: seq<InBlock>,
    discarded: seq<InBlock>, text: seq<InBlock>, title: seq<InBlock>, interline: seq<InBlock>)

  predicate GroupIdsOk(p: PageBlocks) {
    GroupIdsPresent(p.imgBody) && GroupIdsPresent(p.imgCaption) && GroupIdsPresent(p.imgFootnote)
    && GroupIdsPresent(p.tableBody) && GroupIdsPresent(p.tableCaption) && GroupIdsPresent(p.tableFootnote)
  }

  /** The blocks in the order `add_bboxes` appends them. */
  function Collect(p: PageBlocks): (r: seq<PreBlock>)
    requires GroupIdsOk(p)
    ensures forall b :: b in r ==> b.kind != BlockType.Discarded
  {
    AddBboxes(p.imgBody, BlockType.ImageBody) + AddBboxes(p.imgCaption, BlockType.ImageCaption)
    + AddBboxes(p.imgFootnote, BlockType.ImageFootnote) + AddBboxes(p.tableBody, BlockType.TableBody)
    + AddBboxes(p.tableCaption, BlockType.TableCaption) + AddBboxes(p.tableFootnote, BlockType.TableFootnote)
    + AddBboxes(p.text, BlockType.Text) + AddBboxes(p.title, BlockType.Title)
    + AddBboxes(p.interline, BlockType.InterlineEquation)
  }

  /** The blocks left by the three overlap rules, in the source's order:
      text over title, discarded regions, equations over text. */
  function Resolved(all: seq<PreBlock>, discarded: seq<InBlock>): (r: seq<PreBlock>)
    ensures multiset(r) <= multiset(all)
  {
    FixInterlineOverlapText(RemoveNeedDrop(FixTextOverlapTitle(all), discarded))
  }

  /** The first four rules of `ocr_prepare_bboxes_for_layout_split_v2`:
      the blocks still kept, and the discarded ones (the page's discarded
      blocks followed by those found under a page footnote). */
  function Cleaned(all: seq<PreBlock>, discarded: seq<InBlock>, pageW: real, pageH: real): (r: (seq<PreBlock>, seq<PreBlock>))
    ensures forall x :: x in r.0 ==> x in all
    ensures forall x :: x in r.1 ==> x in all || x in AddBboxes(discarded, BlockType.Discarded)
  {
    var a3 := Resolved(all, discarded);
    var under := FindBlocksUnderFootnote(a3, PageFootnotes(discarded, pageW, pageH));
    var a4 := RemoveAll(a3, under);
    CleanedFacts(all, a3, a4, under);
    (a4, AddBboxes(discarded, BlockType.Discarded) + under)
  }

  /** The footnote rule moves blocks rather than losing them: one copy of
      each block under a page footnote leaves the kept list, every other
      block keeps its multiplicity, and the discarded list is the page's
      discarded blocks plus exactly the blocks under a footnote. */
  lemma CleanedSpec(all: seq<PreBlock>, discarded: seq<InBlock>, pageW: real, pageH: real)
    ensures var a3 := Resolved(all, discarded);
      var fs := PageFootnotes(discarded, pageW, pageH);
      var r := Cleaned(all, discarded, pageW, pageH);
      forall x :: (multiset(r.0)[x] == multiset(a3)[x] - (if x in a3 && UnderFootnote(fs, x) then 1 else 0))
    ensures var a3 := Resolved(all, discarded);
      var fs := PageFootnotes(discarded, pageW, pageH);
      var r := Cleaned(all, discarded, pageW, pageH);
      forall x :: (x in r.1 <==> x in AddBboxes(discarded, BlockType.Discarded) || (x in a3 && UnderFootnote(fs, x)))
  {
    var a3 := Resolved(all, discarded);
    var under := FindBlocksUnderFootnote(a3, PageFootnotes(discarded, pageW, pageH));
    RemoveAllCounts(a3, under);
  }

  /** The preparation on the collected list: the kept blocks sorted by
      `x0 + y0`, and the discarded blocks (including those moved from under
      a page footnote), each after the small-inside-large rule. */
  function Prepare(all: seq<PreBlock>, discarded: seq<InBlock>, pageW: real, pageH: real): (r: (seq<PreBlock>, seq<PreBlock>))
    ensures SortedBy(r.0, CornerKey)
    ensures var kept := Cleaned(all, discarded, pageW, pageH).0;
      multiset(r.0) == multiset(RemoveOverlapsMinBlocks(kept))
    ensures forall x :: x in r.0 ==> exists b :: b in all && Widened(b, x)
    ensures forall x :: x in r.1 ==> exists b :: (b in all || b in AddBboxes(discarded, BlockType.Discarded)) && Widened(b, x)
  {
    var c := Cleaned(all, discarded, pageW, pageH);
    var a5 := RemoveOverlapsMinBlocks(c.0);
    var d2 := RemoveOverlapsMinBlocks(c.1);
    WidenedFrom(c.0, a5, all, []);
    WidenedFrom(c.1, d2, all, AddBboxes(discarded, BlockType.Discarded));
    var sorted := SortBy(a5, CornerKey);
    SubMultisetMembers(sorted, a5);
    (sorted, d2)
  }

  /** `ocr_prepare_bboxes_for_layout_split_v2` on a page's blocks: no kept
      block is a discarded one, and every block of either list is an input
      block, possibly widened. */
  function PrepareBlocks(p: PageBlocks, pageW: real, pageH: real): (r: (seq<PreBlock>, seq<PreBlock>))
    requires GroupIdsOk(p)
    ensures SortedBy(r.0, CornerKey)
    ensures forall x :: x in r.0 ==> exists b :: b in Collect(p) && Widened(b, x)
    ensures forall x :: x in r.1 ==> exists b :: (b in Collect(p) || b in AddBboxes(p.discarded, BlockType.Discarded)) && Widened(b, x)
    ensures forall x :: x in r.0 ==> x.kind != BlockType.Discarded
  {
    Prepare(Collect(p), p.discarded, pageW, pageH)
  }

  lemma SubMultisetMembers(a: seq<PreBlock>, b: seq<PreBlock>)
    requires multiset(a) <= multiset(b)
    ensures forall x :: x in a ==> x in b
  {
    forall x | x in a ensures x in b { assert x in multiset(a); }
  }

  lemma WidenedSelf(b: PreBlock)
    ensures Widened(b, b)
  {
    IsInOrder(b.bbox, b.bbox, b.bbox);
  }

  lemma CleanedFacts(all: seq<PreBlock>, a3: seq<PreBlock>, a4: seq<PreBlock>, under: seq<PreBlock>)
    requires multiset(a3) <= multiset(all)
    requires forall x :: x in under ==> x in a3
    requires multiset(a4) <= multiset(a3)
    ensures forall x :: x in a4 ==> x in all
    ensures forall x :: x in under ==> x in all
  {
    SubMultisetMembers(a3, all);
    SubMultisetMembers(a4, a3);
  }

  /** Widened blocks of a list drawn from `u + v` are widened blocks of
      `u + v`. */
  lemma WidenedFrom(src: seq<PreBlock>, out: seq<PreBlock>, u: seq<PreBlock>, v: seq<PreBlock>)
    requires forall x :: x in src ==> x in u || x in v
    requires forall x :: x in out ==> exists p :: 0 <= p < |src| && Widened(src[p], x)
    ensures forall x :: x in out ==> exists b :: (b in u || b in v) && Widened(b, x)
  {
    forall x | x in out ensures exists b :: (b in u || b in v) && Widened(b, x) {
      var p :| 0 <= p < |src| && Widened(src[p], x);
      assert src[p] in src;
    }
  }
}
