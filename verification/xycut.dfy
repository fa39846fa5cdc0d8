/** The recursive XY-cut reading order (layoutreader/xycut.py): the page's
    integer boxes are cut into horizontal bands by the gaps of their
    vertical projection, each band into columns by the gaps of its
    horizontal projection, and columns are cut again recursively. */
module XyCut {
  import opened Base

  /** A box after `astype(int)`: `[x0, y0, x1, y1]`. */
  datatype IBox = IBox(x0: int, y0: int, x1: int, y1: int)

  /** A box travelling with the index the caller gave it. */
  datatype Item = Item(box: IBox, idx: int)

  /** The half-open range `[start, end)` of one group of the profile. */
  datatype Interval = Interval(start: int, end: int)

  /** `boxes[:, axis::2]`: axis 0 selects `x0, x1`, axis 1 selects `y0, y1`. */
  function Lo(b: IBox, axis: int): int { if axis == 0 then b.x0 else b.y0 }
  function Hi(b: IBox, axis: int): int { if axis == 0 then b.x1 else b.y1 }

  /** numpy's reading of a slice bound `i` on an array of length `len`: a
      negative bound counts back from the end, and both ends are clipped
      to `[0, len]`. */
  function SliceBound(i: int, len: nat): (r: nat)
    ensures r <= len
    ensures 0 <= i <= len ==> r == i
    ensures -(len as int) <= i < 0 ==> r as int == len as int + i
    ensures i < -(len as int) ==> r == 0
  {
    if i < 0 then (if len + i < 0 then 0 else len + i) else if i > len then len else i
  }

  /** The slice `res[lo:hi]` a box marks on a profile of length `len`. */
  function ELo(b: IBox, axis: int, len: nat): nat { SliceBound(Lo(b, axis), len) }
  function EHi(b: IBox, axis: int, len: nat): nat { SliceBound(Hi(b, axis), len) }

  predicate NonNeg(b: IBox) { 0 <= b.x0 && 0 <= b.y0 && 0 <= b.x1 && 0 <= b.y1 }

  /** Positive extent on both axes. */
  predicate Proper(b: IBox) { b.x0 < b.x1 && b.y0 < b.y1 }

  predicate AllNonNeg(s: seq<Item>) { forall it :: it in s ==> NonNeg(it.box) }
  predicate AllProper(s: seq<Item>) { forall it :: it in s ==> Proper(it.box) }

  function XKey(it: Item): real { it.box.x0 as real }
  function YKey(it: Item): real { it.box.y0 as real }
  function IdxOf(it: Item): int { it.idx }

  // ---------------------------------------------------------------------
  // projection_by_bboxes
  // ---------------------------------------------------------------------

  /** `np.max(boxes[:, axis::2])`. */
  function MaxCoord(items: seq<Item>, axis: int): (m: int)
    requires |items| > 0
    ensures forall k :: 0 <= k < |items| ==> Lo(items[k].box, axis) <= m && Hi(items[k].box, axis) <= m
    ensures exists k :: 0 <= k < |items| && (m == Lo(items[k].box, axis) || m == Hi(items[k].box, axis))
  {
    var b := items[|items| - 1].box;
    var here := if Lo(b, axis) < Hi(b, axis) then Hi(b, axis) else Lo(b, axis);
    if |items| == 1 then here
    else
      var m := MaxCoord(items[..|items| - 1], axis);
      if m < here then here else m
  }

  /** How many boxes mark position `k` of a profile of length `len`: the
      reference the projection histogram is held to. */
  function Depth(items: seq<Item>, axis: int, len: nat, k: int): nat {
    if |items| == 0 then 0
    else
      var b := items[|items| - 1].box;
      Depth(items[..|items| - 1], axis, len, k) + (if ELo(b, axis, len) <= k < EHi(b, axis, len) then 1 else 0)
  }

  /** `res[start:end] += 1` for bounds already read as numpy reads them. */
  function AddSlice(res: seq<int>, start: int, end: int): (r: seq<int>)
    ensures |r| == |res|
  {
    seq(|res|, k requires 0 <= k < |res| => res[k] + (if start <= k < end then 1 else 0))
  }

  /** The accumulation loop of `projection_by_bboxes`, box by box. */
  function Stack(items: seq<Item>, axis: int, length: nat): (r: seq<int>)
    ensures |r| == length
    ensures forall k :: 0 <= k < length ==> r[k] == Depth(items, axis, length, k)
  {
    if |items| == 0 then seq(length, k => 0)
    else
      var b := items[|items| - 1].box;
      AddSlice(Stack(items[..|items| - 1], axis, length), ELo(b, axis, length), EHi(b, axis, length))
  }

  /** `projection_by_bboxes`: `None` for an axis other than 0 or 1 (the
      `ValueError`), for no boxes at all (`np.max` of an empty array
      raises) and for a negative largest coordinate (`np.zeros` of a
      negative length raises). */
  function ProjectionByBboxes(items: seq<Item>, axis: int): (r: Option<seq<int>>)
    ensures r.Some? <==> (axis == 0 || axis == 1) && |items| > 0 && MaxCoord(items, axis) >= 0
    ensures AllNonNeg(items) && (axis == 0 || axis == 1) && |items| > 0 ==> r.Some?
    ensures r.Some? ==> |r.value| == MaxCoord(items, axis)
    ensures r.Some? ==> forall it :: it in items ==> Hi(it.box, axis) <= |r.value|
    ensures r.Some? ==> forall k :: 0 <= k < |r.value| ==> r.value[k] == Depth(items, axis, |r.value|, k)
  {
    if axis != 0 && axis != 1 then None
    else if |items| == 0 then None
    else
      var m := MaxCoord(items, axis);
      assert AllNonNeg(items) ==> m >= 0 by {
        if AllNonNeg(items) {
          assert items[0] in items;
        }
      }
      if m < 0 then None
      else
        forall it | it in items ensures Hi(it.box, axis) <= m {
          var j :| 0 <= j < |items| && items[j] == it;
        }
        Some(Stack(items, axis, m))
  }

  /** With non-negative boxes numpy's slice bounds are the coordinates
      themselves. */
  lemma ExactBounds(items: seq<Item>, axis: int, j: nat)
    requires AllNonNeg(items) && j < |items|
    ensures ELo(items[j].box, axis, MaxCoord(items, axis)) == Lo(items[j].box, axis)
    ensures EHi(items[j].box, axis, MaxCoord(items, axis)) == Hi(items[j].box, axis)
  {
    assert items[j] in items;
  }

  /** A covering box makes the depth positive. */
  lemma {:induction false} DepthCovered(items: seq<Item>, axis: int, len: nat, k: int, j: nat)
    requires j < |items| && ELo(items[j].box, axis, len) <= k < EHi(items[j].box, axis, len)
    ensures Depth(items, axis, len, k) > 0
  {
    if j < |items| - 1 {
      DepthCovered(items[..|items| - 1], axis, len, k, j);
    }
  }

  /** A positive depth has a covering box behind it. */
  lemma {:induction false} DepthWitness(items: seq<Item>, axis: int, len: nat, k: int) returns (j: nat)
    requires Depth(items, axis, len, k) > 0
    ensures j < |items| && ELo(items[j].box, axis, len) <= k < EHi(items[j].box, axis, len)
  {
    var b := items[|items| - 1].box;
    if ELo(b, axis, len) <= k < EHi(b, axis, len) {
      j := |items| - 1;
    } else {
      j := DepthWitness(items[..|items| - 1], axis, len, k);
    }
  }

  // ---------------------------------------------------------------------
  // split_projection_profile
  // ---------------------------------------------------------------------

  predicate Increasing(s: seq<int>) {
    forall i, j :: 0 <= i < j < |s| ==> s[i] < s[j]
  }

  /** `np.where(arr_values > min_value)[0]`. */
  function Above(arr: seq<int>, minValue: real): (r: seq<int>)
    ensures Increasing(r)
    ensures forall k :: k in r <==> 0 <= k < |arr| && arr[k] as real > minValue
  {
    if |arr| == 0 then []
    else
      var n := |arr| - 1;
      var rest := Above(arr[..n], minValue);
      assert forall k :: 0 <= k < n ==> arr[..n][k] == arr[k];
      forall i | 0 <= i < |rest| ensures rest[i] < n {
        assert rest[i] in rest;
      }
      if arr[n] as real > minValue then rest + [n] else rest
  }

  /** Groups increasing positions into runs; a new run starts where the step
      from the previous position exceeds `min_gap`. Each run is reported as
      the half-open `[first, last + 1)`. */
  function Runs(idx: seq<int>, minGap: real): (r: seq<Interval>)
    requires |idx| > 0
    ensures |r| > 0
    ensures r[|r| - 1].end == idx[|idx| - 1] + 1
  {
    if |idx| == 1 then [Interval(idx[0], idx[0] + 1)]
    else
      var prev := Runs(idx[..|idx| - 1], minGap);
      var x := idx[|idx| - 1];
      if (x - idx[|idx| - 2]) as real > minGap then prev + [Interval(x, x + 1)]
      else prev[..|prev| - 1] + [Interval(prev[|prev| - 1].start, x + 1)]
  }

  /** Runs are non-empty, ordered, separated by more than `min_gap`, start at
      a listed position, and every listed position lies in one of them. */
  ghost predicate Separated(ivs: seq<Interval>) {
    (forall i :: 0 <= i < |ivs| ==> ivs[i].start < ivs[i].end) &&
    (forall i, j :: 0 <= j < i < |ivs| ==> ivs[j].end <= ivs[i].start)
  }

  ghost predicate Gapped(ivs: seq<Interval>, minGap: real) {
    forall i, j :: 0 <= j < i < |ivs| ==> (ivs[i].start - ivs[j].end + 1) as real > minGap
  }

  /** The runs are ordered and separated by more than `min_gap`. */
  lemma {:induction false} RunsSeparated(idx: seq<int>, minGap: real)
    requires |idx| > 0 && Increasing(idx)
    ensures Separated(Runs(idx, minGap))
    ensures Gapped(Runs(idx, minGap), minGap)
    decreases |idx|
  {
    if |idx| > 1 {
      var init := idx[..|idx| - 1];
      assert Increasing(init);
      RunsSeparated(init, minGap);
      var prev := Runs(init, minGap);
      var x := idx[|idx| - 1];
      var p := idx[|idx| - 2];
      assert p == init[|init| - 1] && p < x;
      RunsEndBelow(prev, p);
      if (x - p) as real > minGap {
        assert Runs(idx, minGap) == prev + [Interval(x, x + 1)];
        RunsAppendSeparated(prev, p, x, minGap);
      } else {
        assert Runs(idx, minGap) == prev[..|prev| - 1] + [Interval(prev[|prev| - 1].start, x + 1)];
        RunsExtendSeparated(prev, x, minGap);
      }
    }
  }

  lemma RunsAppendSeparated(prev: seq<Interval>, p: int, x: int, minGap: real)
    requires Separated(prev) && Gapped(prev, minGap)
    requires forall i :: 0 <= i < |prev| ==> prev[i].end <= p + 1
    requires p < x && (x - p) as real > minGap
    ensures Separated(prev + [Interval(x, x + 1)])
    ensures Gapped(prev + [Interval(x, x + 1)], minGap)
  {
  }

  lemma RunsExtendSeparated(prev: seq<Interval>, x: int, minGap: real)
    requires |prev| > 0 && Separated(prev) && Gapped(prev, minGap)
    requires prev[|prev| - 1].end <= x + 1
    ensures Separated(prev[..|prev| - 1] + [Interval(prev[|prev| - 1].start, x + 1)])
    ensures Gapped(prev[..|prev| - 1] + [Interval(prev[|prev| - 1].start, x + 1)], minGap)
  {
    var last := |prev| - 1;
    var r := prev[..last] + [Interval(prev[last].start, x + 1)];
    assert forall i :: 0 <= i < last ==> r[i] == prev[i];
  }

  lemma RunsEndBelow(prev: seq<Interval>, p: int)
    requires |prev| > 0 && Separated(prev) && prev[|prev| - 1].end == p + 1
    ensures forall i :: 0 <= i < |prev| ==> prev[i].end <= p + 1
  {
    forall i | 0 <= i < |prev| - 1 ensures prev[i].end <= p + 1 {
      assert prev[i].end <= prev[|prev| - 1].start;
    }
  }

  /** Every run starts at a listed position. */
  lemma {:induction false} RunsStarts(idx: seq<int>, minGap: real)
    requires |idx| > 0
    ensures forall i :: 0 <= i < |Runs(idx, minGap)| ==> Runs(idx, minGap)[i].start in idx
    decreases |idx|
  {
    if |idx| > 1 {
      var init := idx[..|idx| - 1];
      RunsStarts(init, minGap);
      var prev := Runs(init, minGap);
      var r := Runs(idx, minGap);
      forall i | 0 <= i < |r| ensures r[i].start in idx {
        if i < |prev| {
          assert r[i].start == prev[i].start;
          assert prev[i].start in init;
        }
      }
    }
  }

  /** Every listed position lies in a run. */
  lemma {:induction false} RunsCover(idx: seq<int>, minGap: real, k: nat)
    requires k < |idx| && Increasing(idx)
    ensures exists i :: 0 <= i < |Runs(idx, minGap)| && Runs(idx, minGap)[i].start <= idx[k] < Runs(idx, minGap)[i].end
    decreases |idx|
  {
    var r := Runs(idx, minGap);
    if k == |idx| - 1 {
      assert r[|r| - 1].start <= idx[k] < r[|r| - 1].end by {
        RunsEndStart(idx, minGap);
      }
    } else {
      var init := idx[..|idx| - 1];
      assert Increasing(init);
      RunsCover(init, minGap, k);
      var prev := Runs(init, minGap);
      var i :| 0 <= i < |prev| && prev[i].start <= init[k] < prev[i].end;
      RunsEndStart(init, minGap);
      assert r[i].start <= idx[k] < r[i].end;
    }
  }

  /** The last run starts no later than the last position. */
  lemma {:induction false} RunsEndStart(idx: seq<int>, minGap: real)
    requires |idx| > 0 && Increasing(idx)
    ensures Runs(idx, minGap)[|Runs(idx, minGap)| - 1].start <= idx[|idx| - 1]
    ensures forall i :: 0 <= i < |Runs(idx, minGap)| - 1 ==> Runs(idx, minGap)[i] == Runs(idx[..|idx| - 1], minGap)[i]
    decreases |idx|
  {
    if |idx| > 1 {
      var init := idx[..|idx| - 1];
      assert Increasing(init);
      RunsEndStart(init, minGap);
      assert init[|init| - 1] < idx[|idx| - 1];
    }
  }

  /** `split_projection_profile`: `None` when no value exceeds `min_value`,
      otherwise the runs of the positions that do. */
  function SplitProjectionProfile(arr: seq<int>, minValue: real, minGap: real): (r: Option<seq<Interval>>)
    ensures r.None? <==> forall k :: 0 <= k < |arr| ==> arr[k] as real <= minValue
  {
    var idx := Above(arr, minValue);
    if |idx| == 0 then
      assert forall k :: k !in idx;
      None
    else
      assert idx[0] in idx;
      Some(Runs(idx, minGap))
  }

  /** The groups are ordered and disjoint, separated by more than
      `min_gap`, each starts at a position above `min_value`, and every
      position above `min_value` lies in one of them. */
  ghost predicate GroupsOf(arr: seq<int>, minValue: real, minGap: real, ivs: seq<Interval>) {
    Separated(ivs) && Gapped(ivs, minGap) &&
    (forall i :: 0 <= i < |ivs| ==> 0 <= ivs[i].start < |arr| && arr[ivs[i].start] as real > minValue) &&
    (forall k :: Lit(arr, minValue, k) ==> exists i :: 0 <= i < |ivs| && ivs[i].start <= k < ivs[i].end)
  }

  /** Position `k` of the profile is above `min_value`. */
  predicate Lit(arr: seq<int>, minValue: real, k: int) {
    0 <= k < |arr| && arr[k] as real > minValue
  }

  lemma SplitProjectionProfileSpec(arr: seq<int>, minValue: real, minGap: real, ivs: seq<Interval>)
    requires SplitProjectionProfile(arr, minValue, minGap) == Some(ivs)
    ensures GroupsOf(arr, minValue, minGap, ivs)
  {
    var idx := Above(arr, minValue);
    RunsSeparated(idx, minGap);
    RunsStarts(idx, minGap);
    forall k | Lit(arr, minValue, k)
      ensures exists i :: 0 <= i < |ivs| && ivs[i].start <= k < ivs[i].end
    {
      assert k in idx;
      var m :| 0 <= m < |idx| && idx[m] == k;
      RunsCover(idx, minGap, m);
    }
  }

  // ---------------------------------------------------------------------
  // The profile of a set of boxes
  // ---------------------------------------------------------------------

  /** The item's low edge on the axis lies in the interval. */
  predicate InIv(iv: Interval, axis: int, it: Item) {
    iv.start <= Lo(it.box, axis) < iv.end
  }

  /** The selection masks `(r0 <= boxes[:, 1]) & (boxes[:, 1] < r1)` and
      `(c0 <= boxes[:, 0]) & (boxes[:, 0] < c1)`. */
  function InBand(iv: Interval, axis: int): Item -> bool {
    it => InIv(iv, axis, it)
  }

  /** Every interval starts at the low edge of some item. */
  ghost predicate Anchored(items: seq<Item>, axis: int, ivs: seq<Interval>) {
    forall i :: 0 <= i < |ivs| ==> AnchoredAt(items, axis, ivs[i].start)
  }

  ghost predicate AnchoredAt(items: seq<Item>, axis: int, start: int) {
    exists k :: 0 <= k < |items| && Lo(items[k].box, axis) == start
  }

  /** `split_projection_profile(projection_by_bboxes(boxes, axis), 0, 1)`. */
  function Profile(items: seq<Item>, axis: int): Option<seq<Interval>>
    requires ProjectionByBboxes(items, axis).Some?
  {
    SplitProjectionProfile(ProjectionByBboxes(items, axis).value, 0.0, 1.0)
  }

  /** A zero depth means no box covers the position. */
  lemma {:induction false} DepthZero(items: seq<Item>, axis: int, len: nat, k: int)
    requires Depth(items, axis, len, k) == 0
    ensures forall j :: 0 <= j < |items| ==> !(ELo(items[j].box, axis, len) <= k < EHi(items[j].box, axis, len))
  {
    if |items| > 0 {
      DepthZero(items[..|items| - 1], axis, len, k);
      assert forall j :: 0 <= j < |items| - 1 ==> items[..|items| - 1][j] == items[j];
    }
  }

  /** With a minimum gap of 1, no group covers the position just before
      another group's start. */
  lemma BeforeStartUncovered(ivs: seq<Interval>, i: nat)
    requires i < |ivs| && Separated(ivs) && Gapped(ivs, 1.0)
    ensures forall j :: 0 <= j < |ivs| ==> !(ivs[j].start <= ivs[i].start - 1 < ivs[j].end)
  {
    forall j | 0 <= j < |ivs| ensures !(ivs[j].start <= ivs[i].start - 1 < ivs[j].end) {
      if j < i {
        assert (ivs[i].start - ivs[j].end + 1) as real > 1.0;
      } else if j > i {
        assert ivs[i].end <= ivs[j].start;
      }
    }
  }

  /** ... and so that position holds no box. */
  lemma BeforeStartEmpty(arr: seq<int>, ivs: seq<Interval>, i: nat)
    requires GroupsOf(arr, 0.0, 1.0, ivs)
    requires i < |ivs| && 0 < ivs[i].start
    ensures arr[ivs[i].start - 1] <= 0
  {
    BeforeStartUncovered(ivs, i);
    assert !Lit(arr, 0.0, ivs[i].start - 1);
  }

  /** A profile is missing only when no item has extent on the axis. */
  lemma ProfileSome(items: seq<Item>, axis: int, j: nat)
    requires |items| > 0 && AllNonNeg(items) && (axis == 0 || axis == 1)
    requires j < |items| && Lo(items[j].box, axis) < Hi(items[j].box, axis)
    ensures Profile(items, axis).Some?
    ensures forall ivs :: Profile(items, axis) == Some(ivs) ==>
      exists i :: 0 <= i < |ivs| && InIv(ivs[i], axis, items[j])
  {
    var arr := ProjectionByBboxes(items, axis).value;
    var lo := Lo(items[j].box, axis);
    assert items[j] in items;
    ExactBounds(items, axis, j);
    DepthCovered(items, axis, |arr|, lo, j);
    assert Lit(arr, 0.0, lo);
    forall ivs: seq<Interval> | Profile(items, axis) == Some(ivs)
      ensures exists i :: 0 <= i < |ivs| && InIv(ivs[i], axis, items[j])
    {
      SplitProjectionProfileSpec(arr, 0.0, 1.0, ivs);
      var i :| 0 <= i < |ivs| && ivs[i].start <= lo < ivs[i].end;
      assert InIv(ivs[i], axis, items[j]);
    }
  }

  /** The groups of a profile are ordered and disjoint, and each starts at
      the low edge of an item. */
  lemma ProfileAnchored(items: seq<Item>, axis: int, ivs: seq<Interval>)
    requires ProjectionByBboxes(items, axis).Some? && Profile(items, axis) == Some(ivs)
    ensures Separated(ivs)
    ensures AllNonNeg(items) ==> Anchored(items, axis, ivs)
  {
    var arr := ProjectionByBboxes(items, axis).value;
    SplitProjectionProfileSpec(arr, 0.0, 1.0, ivs);
    if AllNonNeg(items) {
      ProfileAnchoredNonNeg(items, axis, ivs);
    }
  }

  lemma ProfileAnchoredNonNeg(items: seq<Item>, axis: int, ivs: seq<Interval>)
    requires ProjectionByBboxes(items, axis).Some? && Profile(items, axis) == Some(ivs)
    requires AllNonNeg(items)
    ensures Anchored(items, axis, ivs)
  {
    var arr := ProjectionByBboxes(items, axis).value;
    SplitProjectionProfileSpec(arr, 0.0, 1.0, ivs);
    forall i | 0 <= i < |ivs| ensures AnchoredAt(items, axis, ivs[i].start) {
      StartAnchored(items, axis, arr, ivs, i);
    }
  }

  /** One group: the box covering its first position starts there, since
      the position before it is covered by no box. */
  lemma StartAnchored(items: seq<Item>, axis: int, arr: seq<int>, ivs: seq<Interval>, i: nat)
    requires ProjectionByBboxes(items, axis) == Some(arr) && AllNonNeg(items)
    requires GroupsOf(arr, 0.0, 1.0, ivs) && i < |ivs|
    ensures AnchoredAt(items, axis, ivs[i].start)
  {
    var s := ivs[i].start;
    var k := DepthWitness(items, axis, |arr|, s);
    ExactBounds(items, axis, k);
    if 0 < s {
      BeforeStartEmpty(arr, ivs, i);
      DepthZero(items, axis, |arr|, s - 1);
    }
    assert Lo(items[k].box, axis) == s;
  }

  // ---------------------------------------------------------------------
  // recursive_xy_cut
  // ---------------------------------------------------------------------

  /** The boxes selected by one interval of the list. */
  function Chunk(s: seq<Item>, iv: Interval, axis: int): seq<Item> {
    Filter(s, InBand(iv, axis))
  }

  /** An anchored interval selects something; when there are at least two,
      it also leaves something out. */
  lemma ChunkSize(s: seq<Item>, axis: int, ivs: seq<Interval>, i: nat)
    requires i < |ivs| && Separated(ivs)
    ensures Anchored(s, axis, ivs) ==> 0 < |Chunk(s, ivs[i], axis)|
    ensures Anchored(s, axis, ivs) && 2 <= |ivs| ==> |Chunk(s, ivs[i], axis)| < |s|
  {
    if Anchored(s, axis, ivs) {
      ChunkSizeAnchored(s, axis, ivs, i);
    }
  }

  lemma ChunkSizeAnchored(s: seq<Item>, axis: int, ivs: seq<Interval>, i: nat)
    requires i < |ivs| && Separated(ivs) && Anchored(s, axis, ivs)
    ensures 0 < |Chunk(s, ivs[i], axis)|
    ensures 2 <= |ivs| ==> |Chunk(s, ivs[i], axis)| < |s|
  {
    assert AnchoredAt(s, axis, ivs[i].start);
    var k :| 0 <= k < |s| && Lo(s[k].box, axis) == ivs[i].start;
    assert s[k] in Chunk(s, ivs[i], axis);
    if 2 <= |ivs| {
      var m := if i == 0 then 1 else 0;
      assert AnchoredAt(s, axis, ivs[m].start);
      var k' :| 0 <= k' < |s| && Lo(s[k'].box, axis) == ivs[m].start;
      assert !InIv(ivs[i], axis, s[k']);
      FilterMisses(s, InBand(ivs[i], axis), s[k']);
    }
  }

  /** A chunk keeps what holds of every item of the list. */
  lemma ChunkKeeps(s: seq<Item>, iv: Interval, axis: int)
    ensures AllNonNeg(s) ==> AllNonNeg(Chunk(s, iv, axis))
    ensures AllProper(s) ==> AllProper(Chunk(s, iv, axis))
  {
  }

  lemma SortKeepsMembers(items: seq<Item>, key: Item -> real)
    ensures forall it :: it in SortBy(items, key) <==> it in items
  {
    var r := SortBy(items, key);
    assert forall it :: it in r <==> it in multiset(r);
  }

  /** The first `n` chunks of a list, concatenated. */
  function Chunks(s: seq<Item>, ivs: seq<Interval>, axis: int, n: nat): seq<Item>
    requires n <= |ivs|
  {
    if n == 0 then [] else Chunks(s, ivs, axis, n - 1) + Chunk(s, ivs[n - 1], axis)
  }

  /** Over disjoint intervals, each item is selected by at most one chunk. */
  lemma {:induction false} ChunksCount(s: seq<Item>, ivs: seq<Interval>, axis: int, n: nat, x: Item)
    requires n <= |ivs| && Separated(ivs)
    ensures multiset(Chunks(s, ivs, axis, n))[x] ==
      if exists i :: 0 <= i < n && InIv(ivs[i], axis, x) then multiset(s)[x] else 0
  {
    if n > 0 {
      ChunksCount(s, ivs, axis, n - 1, x);
      FilterCount(s, InBand(ivs[n - 1], axis), x);
      if InIv(ivs[n - 1], axis, x) {
        assert forall i :: 0 <= i < n - 1 ==> ivs[i].end <= ivs[n - 1].start;
      }
    }
  }

  /** Chunks over disjoint intervals never repeat an item; they lose only
      the items no interval selects. */
  lemma ChunksKeep(s: seq<Item>, ivs: seq<Interval>, axis: int)
    requires Separated(ivs)
    ensures multiset(Chunks(s, ivs, axis, |ivs|)) <= multiset(s)
    ensures (forall it :: it in s ==> exists i :: 0 <= i < |ivs| && InIv(ivs[i], axis, it)) ==>
      multiset(Chunks(s, ivs, axis, |ivs|)) == multiset(s)
  {
    forall x ensures multiset(Chunks(s, ivs, axis, |ivs|))[x] <= multiset(s)[x] {
      ChunksCount(s, ivs, axis, |ivs|, x);
    }
    if forall it :: it in s ==> exists i :: 0 <= i < |ivs| && InIv(ivs[i], axis, it) {
      forall x ensures multiset(Chunks(s, ivs, axis, |ivs|))[x] == multiset(s)[x] {
        ChunksCount(s, ivs, axis, |ivs|, x);
        if x in multiset(s) {
          assert x in s;
        }
      }
    }
  }

  /** A list of proper boxes has a profile, and every item is selected by
      one of its groups. */
  lemma ProperProfile(items: seq<Item>, axis: int)
    requires axis == 0 || axis == 1
    ensures |items| > 0 && AllNonNeg(items) && AllProper(items) ==>
      ProjectionByBboxes(items, axis).Some? && Profile(items, axis).Some?
    ensures |items| > 0 && AllNonNeg(items) && AllProper(items) ==> forall it :: it in items ==>
      exists i :: 0 <= i < |Profile(items, axis).value| && InIv(Profile(items, axis).value[i], axis, it)
  {
    if |items| > 0 && AllNonNeg(items) && AllProper(items) {
      assert items[0] in items;
      ProfileSome(items, axis, 0);
      var ivs := Profile(items, axis).value;
      forall it | it in items ensures exists i :: 0 <= i < |ivs| && InIv(ivs[i], axis, it) {
        var j :| 0 <= j < |items| && items[j] == it;
        ProfileSome(items, axis, j);
      }
    }
  }

  /** `recursive_xy_cut` on boxes paired with their indices: sort by `y0`,
      cut into bands, and emit each band. The result lists items rather
      than bare indices; `RecursiveXYCut` projects the indices out. None
      stands for the call raising: a projection that raises, or a column
      holding every box of the call, which the source cuts again with the
      same boxes and so without end (a `RecursionError`). Each item comes
      out at most as often as it went in. Non-negative boxes never fail,
      and with positive width and height every box comes out. */
  function XYCut(items: seq<Item>): (r: Option<seq<Item>>)
    ensures r.Some? ==> multiset(r.value) <= multiset(items)
    ensures |items| > 0 && AllNonNeg(items) ==> r.Some?
    ensures |items| > 0 && AllNonNeg(items) && AllProper(items) ==>
      r.Some? && multiset(r.value) == multiset(items)
    decreases |items|, 3, 0
  {
    var ys := SortBy(items, YKey);
    SortKeepsMembers(items, YKey);
    match ProjectionByBboxes(ys, 1)
    case None => None
    case Some(arr) =>
      ProperProfile(ys, 1);
      match SplitProjectionProfile(arr, 0.0, 1.0)
      case None => Some([])
      case Some(bands) =>
        SplitProjectionProfileSpec(arr, 0.0, 1.0, bands);
        ProfileAnchored(ys, 1, bands);
        ChunksKeep(ys, bands, 1);
        Bands(ys, bands, |bands|)
  }

  /** The loop over the first `n` bands; its output follows the bands'
      selections. */
  function Bands(ys: seq<Item>, bands: seq<Interval>, n: nat): (r: Option<seq<Item>>)
    requires n <= |bands| && Separated(bands)
    ensures r.Some? ==> multiset(r.value) <= multiset(Chunks(ys, bands, 1, n))
    ensures AllNonNeg(ys) && Anchored(ys, 1, bands) ==> r.Some?
    ensures AllNonNeg(ys) && Anchored(ys, 1, bands) && AllProper(ys) ==>
      multiset(r.value) == multiset(Chunks(ys, bands, 1, n))
    decreases |ys|, 2, n
  {
    if n == 0 then Some([])
    else
      var chunk := Chunk(ys, bands[n - 1], 1);
      ChunkKeeps(ys, bands[n - 1], 1);
      ChunkSize(ys, 1, bands, n - 1);
      match Bands(ys, bands, n - 1)
      case None => None
      case Some(prev) =>
        match BandOut(chunk, |ys|)
        case None => None
        case Some(out) =>
          MultisetConcat(prev, out, Chunks(ys, bands, 1, n - 1), chunk);
          Some(prev + out)
  }

  /** One band of a call on `top` boxes: sort by `x0`, cut into columns; a
      band without horizontal extent emits nothing, a single column emits
      the band in `x0` order, several columns are cut again one by one. */
  function BandOut(chunk: seq<Item>, top: nat): (r: Option<seq<Item>>)
    requires |chunk| <= top
    ensures r.Some? ==> multiset(r.value) <= multiset(chunk)
    ensures |chunk| > 0 && AllNonNeg(chunk) ==> r.Some?
    ensures |chunk| > 0 && AllNonNeg(chunk) && AllProper(chunk) ==> multiset(r.value) == multiset(chunk)
    decreases top, 1, 0
  {
    var xs := SortBy(chunk, XKey);
    SortKeepsMembers(chunk, XKey);
    match ProjectionByBboxes(xs, 0)
    case None => None
    case Some(arr) =>
      ProperProfile(xs, 0);
      match SplitProjectionProfile(arr, 0.0, 1.0)
      case None => Some([])
      case Some(cols) =>
        if |cols| == 1 then Some(xs)
        else
          SplitProjectionProfileSpec(arr, 0.0, 1.0, cols);
          ProfileAnchored(xs, 0, cols);
          ChunksKeep(xs, cols, 0);
          Columns(xs, cols, |cols|, top)
  }

  /** A band whose x profile forms a single column is emitted whole, in
      `x0` order. */
  lemma BandOutSingleColumn(chunk: seq<Item>, top: nat)
    requires |chunk| <= top
    ensures var xs := SortBy(chunk, XKey);
      ProjectionByBboxes(xs, 0).Some? && SplitProjectionProfile(ProjectionByBboxes(xs, 0).value, 0.0, 1.0).Some?
      && |SplitProjectionProfile(ProjectionByBboxes(xs, 0).value, 0.0, 1.0).value| == 1
      ==> BandOut(chunk, top) == Some(xs) && SortedBy(xs, XKey) && multiset(xs) == multiset(chunk)
  {
  }

  /** The loop over the first `n` columns of a band of a call on `top`
      boxes. A column as large as the call holds all of its boxes: the
      recursion on it repeats the call and never ends (None). */
  function Columns(xs: seq<Item>, cols: seq<Interval>, n: nat, top: nat): (r: Option<seq<Item>>)
    requires n <= |cols| && 2 <= |cols| && Separated(cols) && |xs| <= top
    ensures r.Some? ==> multiset(r.value) <= multiset(Chunks(xs, cols, 0, n))
    ensures AllNonNeg(xs) && Anchored(xs, 0, cols) ==> r.Some?
    ensures AllNonNeg(xs) && Anchored(xs, 0, cols) && AllProper(xs) ==>
      multiset(r.value) == multiset(Chunks(xs, cols, 0, n))
    decreases top, 0, n
  {
    if n == 0 then Some([])
    else
      var chunk := Chunk(xs, cols[n - 1], 0);
      ChunkKeeps(xs, cols[n - 1], 0);
      ChunkSize(xs, 0, cols, n - 1);
      match Columns(xs, cols, n - 1, top)
      case None => None
      case Some(prev) =>
        if |chunk| == top then None
        else
          match XYCut(chunk)
          case None => None
          case Some(out) =>
            MultisetConcat(prev, out, Chunks(xs, cols, 0, n - 1), chunk);
            Some(prev + out)
  }

  // ---------------------------------------------------------------------
  // The entry point
  // ---------------------------------------------------------------------

  /** Pairs each box with the index at the same position. */
  function Zip(boxes: seq<IBox>, indices: seq<int>): (r: seq<Item>)
    requires |boxes| == |indices|
    ensures |r| == |boxes|
    ensures forall k :: 0 <= k < |r| ==> r[k] == Item(boxes[k], indices[k])
  {
    seq(|boxes|, k requires 0 <= k < |boxes| => Item(boxes[k], indices[k]))
  }

  /** `recursive_xy_cut(boxes, indices, res)` started with an empty `res`:
      a length mismatch stops without emitting anything; no boxes at all
      is an error (`np.max` of an empty array), and so is every failure of
      the cut itself. Non-negative boxes always cut. */
  function RecursiveXYCut(boxes: seq<IBox>, indices: seq<int>): (r: Option<seq<int>>)
    ensures |boxes| != |indices| ==> r == Some([])
    ensures |boxes| == |indices| == 0 ==> r.None?
    ensures |boxes| == |indices| > 0 && (forall b :: b in boxes ==> NonNeg(b)) ==> r.Some?
  {
    if |boxes| != |indices| then Some([])
    else if |boxes| == 0 then None
    else
      var items := Zip(boxes, indices);
      assert forall it :: it in items ==> it.box in boxes;
      match XYCut(items)
      case None => None
      case Some(out) => Some(Map(out, IdxOf))
  }

  /** The emitted indices come from `indices`, each at most as often as it
      occurs there, so distinct indices come out distinct; when every box
      is non-negative with positive width and height the result is a
      permutation of `indices`. */
  lemma RecursiveXYCutPermutes(boxes: seq<IBox>, indices: seq<int>)
    requires |boxes| == |indices| && RecursiveXYCut(boxes, indices).Some?
    ensures multiset(RecursiveXYCut(boxes, indices).value) <= multiset(indices)
    ensures Distinct(indices) ==> Distinct(RecursiveXYCut(boxes, indices).value)
    ensures (forall b :: b in boxes ==> NonNeg(b) && Proper(b)) ==>
      multiset(RecursiveXYCut(boxes, indices).value) == multiset(indices)
  {
    var items := Zip(boxes, indices);
    assert forall it :: it in items ==> it.box in boxes;
    var out := XYCut(items).value;
    assert Map(items, IdxOf) == indices;
    MapSubMultiset(out, items, IdxOf);
    if Distinct(indices) {
      DistinctCounts(indices);
      DistinctCounts(Map(out, IdxOf));
    }
    if forall b :: b in boxes ==> NonNeg(b) && Proper(b) {
      assert AllProper(items) && AllNonNeg(items);
      MapSubMultiset(items, out, IdxOf);
    }
  }

  /** A one-box list sorts to itself. */
  lemma SortOne(it: Item, key: Item -> real)
    ensures SortBy([it], key) == [it]
  {
    var t := SortBy([it], key);
    assert multiset(t) == multiset([it]);
    assert |t| == 1 && t[0] in multiset(t);
  }

  /** A box reaching above the page top fails the cut: numpy reads its
      `y0 = -1` as position 1, so its band `[1, 2)` selects no box, and the
      horizontal projection of no boxes raises. */
  lemma NegativeTopFails()
    ensures RecursiveXYCut([IBox(0, -1, 1, 2)], [0]) == None
  {
    var it := Item(IBox(0, -1, 1, 2), 0);
    assert Zip([IBox(0, -1, 1, 2)], [0]) == [it];
    SortOne(it, YKey);
    var arr := ProjectionByBboxes([it], 1).value;
    assert arr == [0, 1];
    assert Above(arr, 0.0) == [1] by {
      assert Above(arr[..1], 0.0) == [];
    }
    var bands := [Interval(1, 2)];
    assert SplitProjectionProfile(arr, 0.0, 1.0) == Some(bands);
    assert Chunk([it], bands[0], 1) == [] by {
      assert [it][..0] == [];
    }
    SortOne(it, XKey);
    assert SortBy([], XKey) == [];
    assert BandOut([], 1).None?;
    assert Bands([it], bands, 1).None?;
  }

  /** The band of that box: its x profile `[0, 1]` is one column. */
  lemma NegativeLeftColumn()
    ensures BandOut([Item(IBox(-1, 0, 2, 1), 0)], 1) == Some([Item(IBox(-1, 0, 2, 1), 0)])
  {
    var it := Item(IBox(-1, 0, 2, 1), 0);
    SortOne(it, XKey);
    var xs := ProjectionByBboxes([it], 0).value;
    assert xs == [0, 1];
    assert Above(xs, 0.0) == [1] by {
      assert Above(xs[..1], 0.0) == [];
    }
    assert SplitProjectionProfile(xs, 0.0, 1.0) == Some([Interval(1, 2)]);
    BandOutSingleColumn([it], 1);
  }

  /** A box reaching past the left edge still cuts: numpy reads its
      `x0 = -1` as position 1, and the single column emits it. */
  lemma NegativeLeftCuts()
    ensures RecursiveXYCut([IBox(-1, 0, 2, 1)], [0]) == Some([0])
  {
    var it := Item(IBox(-1, 0, 2, 1), 0);
    assert Zip([IBox(-1, 0, 2, 1)], [0]) == [it];
    SortOne(it, YKey);
    SortOne(it, XKey);
    var ys := ProjectionByBboxes([it], 1).value;
    assert ys == [1];
    assert Above(ys, 0.0) == [0];
    var bands := [Interval(0, 1)];
    assert SplitProjectionProfile(ys, 0.0, 1.0) == Some(bands);
    assert Chunk([it], bands[0], 1) == [it] by {
      assert [it][..0] == [];
    }
    NegativeLeftColumn();
    assert Bands([it], bands, 1) == Some([it]) by {
      assert Bands([it], bands, 0) == Some([]);
    }
    assert XYCut([it]) == Some([it]);
    assert Map([it], IdxOf) == [0];
  }

  // ---------------------------------------------------------------------
  // Corner points
  // ---------------------------------------------------------------------

  function Min4(a: real, b: real, c: real, d: real): real { MinR(MinR(a, b), MinR(c, d)) }
  function Max4(a: real, b: real, c: real, d: real): real { MaxR(MaxR(a, b), MaxR(c, d)) }

  /** `points_to_bbox`: the extremes of the four corners, clamped at 0;
      anything but eight values is an error. */
  function PointsToBbox(points: seq<real>): (r: Option<seq<real>>)
    ensures r.Some? <==> |points| == 8
    ensures r.Some? ==> |r.value| == 4
    ensures r.Some? ==> 0.0 <= r.value[0] <= r.value[2] && 0.0 <= r.value[1] <= r.value[3]
    ensures r.Some? ==> forall k :: 0 <= k < 4 ==>
      MaxR(points[2 * k], 0.0) <= r.value[2] && MaxR(points[2 * k + 1], 0.0) <= r.value[3]
  {
    if |points| != 8 then None
    else
      var xs := [points[0], points[2], points[4], points[6]];
      var ys := [points[1], points[3], points[5], points[7]];
      Some([MaxR(Min4(xs[0], xs[1], xs[2], xs[3]), 0.0), MaxR(Min4(ys[0], ys[1], ys[2], ys[3]), 0.0),
            MaxR(Max4(xs[0], xs[1], xs[2], xs[3]), 0.0), MaxR(Max4(ys[0], ys[1], ys[2], ys[3]), 0.0)])
  }

  /** `bbox2points`: the corners clockwise from the top-left; unpacking
      anything but four values is an error. */
  function BboxToPoints(bbox: seq<real>): (r: Option<seq<real>>)
    ensures r.Some? <==> |bbox| == 4
    ensures r.Some? ==> |r.value| == 8
  {
    if |bbox| != 4 then None
    else
      var left, top, right, bottom := bbox[0], bbox[1], bbox[2], bbox[3];
      Some([left, top, right, top, right, bottom, left, bottom])
  }

  /** A box with non-negative, ordered coordinates survives the trip through
      its corners unchanged. */
  lemma PointsRoundTrip(bbox: seq<real>)
    requires |bbox| == 4 && 0.0 <= bbox[0] <= bbox[2] && 0.0 <= bbox[1] <= bbox[3]
    ensures PointsToBbox(BboxToPoints(bbox).value) == Some(bbox)
  {
    assert bbox == [bbox[0], bbox[1], bbox[2], bbox[3]];
  }
}
