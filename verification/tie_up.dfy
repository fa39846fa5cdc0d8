/** `__tie_up_category_by_distance_v2` and its two users: every caption or
    footnote (the objects) is attached to at most one image or table body
    (the subjects), chosen among the subjects it faces on exactly one side. */
module TieUp {
  import opened Base
  import opened BoxBase
  import opened MagicModel

  /** The `{'bbox', 'score'}` record the tie-up works on. */
  datatype Sub = Sub(bbox: Box, score: real)

  /** `PosRelationEnum`. */
  datatype PosRelation = Left | Right | Up | Bottom | All

  /** The four keys of `dis_by_directions`. */
  datatype Side = Top | Below | LeftSide | RightSide

  /** A `[index, distance]` entry of `dis_by_directions`; `[-1, inf]` when empty. */
  datatype Cand = Cand(idx: int, dist: Dist)

  const NoCand: Cand := Cand(-1, Inf)

  /** An entry names a subject exactly when its distance is finite. */
  predicate ValidCand(c: Cand, n: nat) {
    (c.dist.Fin? ==> 0 <= c.idx < n) && (c.dist.Inf? ==> c == NoCand)
  }

  function Project(dets: seq<Det>, cat: int): seq<Sub> {
    var f := OfCategory(dets, cat);
    seq(|f|, i requires 0 <= i < |f| => Sub(f[i].bbox, f[i].score))
  }

  /** `__reduct_overlap` keeps the box at `i` unless it lies inside the box
      at some other position. */
  predicate KeptAt(s: seq<Sub>, i: nat)
    requires i < |s|
  {
    forall j :: 0 <= j < |s| && j != i ==> !IsIn(s[i].bbox, s[j].bbox)
  }

  /** No box of `s` lies inside another element of `s`, and no element repeats. */
  predicate NonNested(s: seq<Sub>) {
    Distinct(s) && forall x, y :: x in s && y in s && x != y ==> !IsIn(x.bbox, y.bbox)
  }

  /** Some position below `n` holding `x` is kept. */
  predicate KeptBelow(s: seq<Sub>, n: nat, x: Sub)
    requires n <= |s|
  {
    exists i :: 0 <= i < n && KeptAt(s, i) && s[i] == x
  }

  lemma KeptBelowStep(s: seq<Sub>, n: nat, x: Sub)
    requires 0 < n <= |s|
    ensures KeptBelow(s, n, x) <==> KeptBelow(s, n - 1, x) || (KeptAt(s, n - 1) && s[n - 1] == x)
  {
    if KeptBelow(s, n, x) {
      var i :| 0 <= i < n && KeptAt(s, i) && s[i] == x;
      if i < n - 1 {
        assert KeptBelow(s, n - 1, x);
      }
    }
    if KeptBelow(s, n - 1, x) {
      var i :| 0 <= i < n - 1 && KeptAt(s, i) && s[i] == x;
      assert KeptBelow(s, n, x);
    }
    if KeptAt(s, n - 1) && s[n - 1] == x {
      assert KeptBelow(s, n, x);
    }
  }

  function ReductPrefix(s: seq<Sub>, n: nat): (r: seq<Sub>)
    requires n <= |s|
    ensures forall x :: x in r <==> KeptBelow(s, n, x)
    ensures NonNested(r)
  {
    if n == 0 then []
    else
      var prev := ReductPrefix(s, n - 1);
      assert forall x :: KeptBelow(s, n, x) <==> KeptBelow(s, n - 1, x) || (KeptAt(s, n - 1) && s[n - 1] == x) by {
        forall x ensures KeptBelow(s, n, x) <==> KeptBelow(s, n - 1, x) || (KeptAt(s, n - 1) && s[n - 1] == x) {
          KeptBelowStep(s, n, x);
        }
      }
      if !KeptAt(s, n - 1) then prev
      else
        ReductStep(s, n, prev);
        prev + [s[n - 1]]
  }

  lemma ReductStep(s: seq<Sub>, n: nat, prev: seq<Sub>)
    requires 0 < n <= |s| && KeptAt(s, n - 1)
    requires forall x :: x in prev <==> KeptBelow(s, n - 1, x)
    requires NonNested(prev)
    ensures NonNested(prev + [s[n - 1]])
  {
    var x := s[n - 1];
    forall y | y in prev ensures y != x && !IsIn(y.bbox, x.bbox) && !IsIn(x.bbox, y.bbox) {
      var i :| 0 <= i < n - 1 && KeptAt(s, i) && s[i] == y;
      IsInOrder(x.bbox, y.bbox, y.bbox);
    }
    DistinctCons(x, prev);
    DistinctPermutation([x] + prev, prev + [x]);
  }

  /** `__reduct_overlap`: drop every box contained in another one; two equal
      boxes contain each other and are both dropped. */
  function ReductOverlap(s: seq<Sub>): (r: seq<Sub>)
    ensures forall x :: x in r <==> KeptBelow(s, |s|, x)
    ensures NonNested(r)
  {
    ReductPrefix(s, |s|)
  }

  /** The sort key `x0 ** 2 + y0 ** 2`. */
  function OriginKey(s: Sub): real {
    s.bbox.x0 * s.bbox.x0 + s.bbox.y0 * s.bbox.y0
  }

  /** The reduced records of one category, sorted by distance from the page
      origin. */
  function Prepared(dets: seq<Det>, cat: int): (r: seq<Sub>)
    ensures NonNested(r)
    ensures SortedBy(r, OriginKey)
    ensures forall x :: x in r ==> x in Project(dets, cat)
  {
    var red := ReductOverlap(Project(dets, cat));
    var r := SortBy(red, OriginKey);
    DistinctPermutation(red, r);
    assert forall x :: x in r <==> x in red by {
      forall x ensures x in r <==> x in red { assert x in r <==> x in multiset(r); }
    }
    r
  }

  function Flag(p: RelPos, side: Side): bool {
    match side
    case Top => p.top
    case Below => p.bottom
    case LeftSide => p.left
    case RightSide => p.right
  }

  /** The object faces subject box `sub` on `side` alone: the relative
      position is taken after `_remove_overlap_between_bbox`, and pairs set
      in two directions are skipped. */
  predicate Faces(obj: Box, sub: Box, side: Side, deoverlap: (Box, Box) -> (Box, Box)) {
    var (b1, b2) := deoverlap(obj, sub);
    RelativePos(b1, b2).FlagCount() <= 1 && Flag(RelativePos(b1, b2), side)
  }

  /** `dis_by_directions[side][i]` after subjects `0..n-1`: the nearest
      subject the object faces on that side, the earliest on ties. */
  function SideCand(obj: Box, subs: seq<Sub>, side: Side, deoverlap: (Box, Box) -> (Box, Box),
                    sqrt: real -> real, n: nat): Cand
    requires n <= |subs|
  {
    if n == 0 then NoCand
    else
      var prev := SideCand(obj, subs, side, deoverlap, sqrt, n - 1);
      var d := BboxDistance(obj, subs[n - 1].bbox, sqrt);
      if Faces(obj, subs[n - 1].bbox, side, deoverlap) && Fin(d).Less(prev.dist) then Cand(n - 1, Fin(d))
      else prev
  }

  /** The side's candidate is absent exactly when the object faces no
      subject on that side; otherwise it is a faced subject at the least
      distance, the earliest of those. */
  lemma {:induction false} SideCandSpec(obj: Box, subs: seq<Sub>, side: Side, deoverlap: (Box, Box) -> (Box, Box),
                                        sqrt: real -> real, n: nat)
    requires n <= |subs|
    ensures var c := SideCand(obj, subs, side, deoverlap, sqrt, n);
      (c.dist.Inf? <==> forall j :: 0 <= j < n ==> !Faces(obj, subs[j].bbox, side, deoverlap))
      && (c.dist.Inf? ==> c == NoCand)
      && (c.dist.Fin? ==> 0 <= c.idx < n && Faces(obj, subs[c.idx].bbox, side, deoverlap)
                          && c.dist.v == BboxDistance(obj, subs[c.idx].bbox, sqrt))
      && (c.dist.Fin? ==> forall j :: 0 <= j < n && Faces(obj, subs[j].bbox, side, deoverlap) ==>
                            c.dist.v <= BboxDistance(obj, subs[j].bbox, sqrt)
                            && (j < c.idx ==> c.dist.v < BboxDistance(obj, subs[j].bbox, sqrt)))
  {
    if n > 0 {
      SideCandSpec(obj, subs, side, deoverlap, sqrt, n - 1);
    }
  }

  /** The candidate `left_or_right` settles on. `tieLeft`/`tieRight` are the
      terms added to each side's height mismatch when the two distances are
      within half an axis unit. */
  function LeftOrRightWith(obj: Box, subs: seq<Sub>, l: Cand, r: Cand, tieLeft: real, tieRight: real): (c: Cand)
    requires ValidCand(l, |subs|) && ValidCand(r, |subs|)
    ensures c == l || c == r
    ensures c.dist.Inf? <==> l.dist.Inf? && r.dist.Inf?
    ensures l.dist.Fin? && r.dist.Fin? && Abs(l.dist.v - r.dist.v) > 0.5 * MinR(obj.Width(), obj.Height()) ==>
            c.dist.v == MinR(l.dist.v, r.dist.v)
  {
    var axis := MinR(obj.Width(), obj.Height());
    if l.dist.Fin? || r.dist.Fin? then
      if l.dist.Fin? && r.dist.Fin? then
        if 0.5 * axis >= Abs(l.dist.v - r.dist.v) then
          if Abs(subs[l.idx].bbox.Height() - obj.Height()) + tieLeft
             > Abs(subs[r.idx].bbox.Height() - obj.Height()) + tieRight then r
          else l
        else if l.dist.v > r.dist.v then r else l
      else if l.dist.Inf? then r else l
    else NoCand
  }

  /** `left_or_right` as written: the subjects' positions in the sorted list
      break near-ties. This is the rule the decision uses. */
  function LeftOrRightAsWritten(obj: Box, subs: seq<Sub>, l: Cand, r: Cand): (c: Cand)
    requires ValidCand(l, |subs|) && ValidCand(r, |subs|)
    ensures c == l || c == r
    ensures c.dist.Inf? <==> l.dist.Inf? && r.dist.Inf?
  {
    LeftOrRightWith(obj, subs, l, r, l.idx as real, r.idx as real)
  }

  /** A distance-based alternative to `left_or_right`, breaking near-ties
      by distance as `top_or_bottom` does; kept only to compare with the
      rule as written. */
  function LeftOrRight(obj: Box, subs: seq<Sub>, l: Cand, r: Cand): (c: Cand)
    requires ValidCand(l, |subs|) && ValidCand(r, |subs|)
    ensures c == l || c == r
    ensures c.dist.Inf? <==> l.dist.Inf? && r.dist.Inf?
  {
    LeftOrRightWith(obj, subs, l, r,
      if l.dist.Fin? then l.dist.v else 0.0, if r.dist.Fin? then r.dist.v else 0.0)
  }

  /** With equally well-fitting subjects on both sides, the distance-based
      alternative attaches to the strictly nearer one. */
  lemma LeftOrRightPrefersNearer(obj: Box, subs: seq<Sub>, l: Cand, r: Cand)
    requires l.dist.Fin? && r.dist.Fin?
    requires 0 <= l.idx < |subs| && 0 <= r.idx < |subs|
    requires Abs(subs[l.idx].bbox.Height() - obj.Height()) == Abs(subs[r.idx].bbox.Height() - obj.Height())
    requires l.dist.v != r.dist.v
    ensures LeftOrRight(obj, subs, l, r).dist.v == MinR(l.dist.v, r.dist.v)
  {
  }

  /** The rule as written can attach to the farther side: a left subject at
      distance 1 but sorted fifth loses to a right subject at distance 2
      sorted first, although both fit the object's height equally. */
  lemma LeftOrRightAsWrittenPrefersFarther()
    ensures var obj := Box(0.0, 0.0, 4.0, 4.0);
            var subs := seq(6, i => Sub(Box(10.0, 0.0, 20.0, 4.0), 1.0));
            var l := Cand(5, Fin(1.0));
            var r := Cand(0, Fin(2.0));
            LeftOrRightAsWritten(obj, subs, l, r) == r && LeftOrRight(obj, subs, l, r) == l
  {
    var obj := Box(0.0, 0.0, 4.0, 4.0);
    assert MinR(obj.Width(), obj.Height()) == 4.0;
  }

  /** `top_or_bottom`: width mismatch plus distance breaks near-ties. */
  function TopOrBottom(obj: Box, subs: seq<Sub>, t: Cand, b: Cand): (c: Cand)
    requires ValidCand(t, |subs|) && ValidCand(b, |subs|)
    ensures c == t || c == b
    ensures c.dist.Inf? <==> t.dist.Inf? && b.dist.Inf?
    ensures t.dist.Fin? && b.dist.Fin? && Abs(t.dist.v - b.dist.v) > 0.5 * MinR(obj.Width(), obj.Height()) ==>
            c.dist.v == MinR(t.dist.v, b.dist.v)
  {
    var axis := MinR(obj.Width(), obj.Height());
    if t.dist.Fin? || b.dist.Fin? then
      if t.dist.Fin? && b.dist.Fin? then
        if 0.5 * axis >= Abs(t.dist.v - b.dist.v) then
          if Abs(subs[b.idx].bbox.Width() - obj.Width()) + b.dist.v
             > Abs(subs[t.idx].bbox.Width() - obj.Width()) + t.dist.v then t
          else b
        else if t.dist.v > b.dist.v then b else t
      else if t.dist.Inf? then b else t
    else NoCand
  }

  datatype Cands = Cands(top: Cand, below: Cand, left: Cand, right: Cand)

  function CandsOf(obj: Box, subs: seq<Sub>, deoverlap: (Box, Box) -> (Box, Box), sqrt: real -> real): Cands {
    Cands(SideCand(obj, subs, Side.Top, deoverlap, sqrt, |subs|),
          SideCand(obj, subs, Side.Below, deoverlap, sqrt, |subs|),
          SideCand(obj, subs, Side.LeftSide, deoverlap, sqrt, |subs|),
          SideCand(obj, subs, Side.RightSide, deoverlap, sqrt, |subs|))
  }

  /** The object faces some subject on some side alone. */
  predicate FacesAny(obj: Box, subs: seq<Sub>, deoverlap: (Box, Box) -> (Box, Box)) {
    exists j, side :: 0 <= j < |subs| && Faces(obj, subs[j].bbox, side, deoverlap)
  }

  /** The candidate names subject `k`. */
  predicate Names(c: Cand, k: nat) {
    c.dist.Fin? && c.idx == k
  }

  /** The decision of `__tie_up_category_by_distance_v2` among the four
      side candidates: the preferred vertical side when both vertical
      candidates exist and are close, otherwise the better of
      `left_or_right` and `top_or_bottom`, near-ties going to the smaller
      relative size mismatch. The object's sides are divided by. */
  function Choose(obj: Box, subs: seq<Sub>, c: Cands, prio: PosRelation): (r: Option<nat>)
    requires obj.WellFormed()
    requires ValidCand(c.top, |subs|) && ValidCand(c.below, |subs|)
    requires ValidCand(c.left, |subs|) && ValidCand(c.right, |subs|)
    ensures r.Some? ==> Names(c.top, r.value) || Names(c.below, r.value) || Names(c.left, r.value) || Names(c.right, r.value)
    ensures r.None? <==> c.top.dist.Inf? && c.below.dist.Inf? && c.left.dist.Inf? && c.right.dist.Inf?
    ensures c.top.dist.Fin? && c.below.dist.Fin? && (prio == PosRelation.Bottom || prio == PosRelation.Up)
      && Abs(c.top.dist.v - c.below.dist.v) < 3.0 * MinR(obj.Width(), obj.Height())
      ==> r == Some(if prio == PosRelation.Bottom then c.below.idx as nat else c.top.idx as nat)
  {
    var axis := MinR(obj.Width(), obj.Height());
    var lr := LeftOrRightAsWritten(obj, subs, c.left, c.right);
    var tb := TopOrBottom(obj, subs, c.top, c.below);
    if c.top.dist.Fin? && c.below.dist.Fin? && (prio == PosRelation.Bottom || prio == PosRelation.Up)
       && Abs(c.top.dist.v - c.below.dist.v) < 3.0 * axis then
      Some(if prio == PosRelation.Bottom then c.below.idx as nat else c.top.idx as nat)
    else if lr.dist.Fin? || tb.dist.Fin? then
      if lr.dist.Fin? && tb.dist.Fin? then
        if 0.5 * axis >= Abs(lr.dist.v - tb.dist.v) then
          var yAxis := subs[lr.idx].bbox;
          var xAxis := subs[tb.idx].bbox;
          if Abs(xAxis.Width() - obj.Width()) / obj.Width() > Abs(yAxis.Height() - obj.Height()) / obj.Height()
          then Some(lr.idx as nat) else Some(tb.idx as nat)
        else if lr.dist.v > tb.dist.v then Some(tb.idx as nat) else Some(lr.idx as nat)
      else if lr.dist.Fin? then Some(lr.idx as nat) else Some(tb.idx as nat)
    else None
  }

  /** The subject index the object is appended to, if any. The object's
      sides are divided by, so it has positive width and height. */
  function Assign(obj: Box, subs: seq<Sub>, prio: PosRelation, deoverlap: (Box, Box) -> (Box, Box),
                  sqrt: real -> real): (r: Option<nat>)
    requires obj.WellFormed()
    ensures r.Some? ==> r.value < |subs|
    ensures r.Some? ==> exists side :: Faces(obj, subs[r.value].bbox, side, deoverlap)
    ensures r.None? <==> !FacesAny(obj, subs, deoverlap)
  {
    var c := CandsOf(obj, subs, deoverlap, sqrt);
    CandsValid(obj, subs, deoverlap, sqrt);
    var r := Choose(obj, subs, c, prio);
    if r.Some? then
      NamedFaces(obj, subs, deoverlap, sqrt, r.value);
      r
    else
      assert !FacesAny(obj, subs, deoverlap) by {
        forall j, side | 0 <= j < |subs| ensures !Faces(obj, subs[j].bbox, side, deoverlap) {
          SideCandSpec(obj, subs, side, deoverlap, sqrt, |subs|);
          assert side == Side.Top || side == Side.Below || side == Side.LeftSide || side == Side.RightSide;
        }
      }
      r
  }

  /** Each side's candidate names a subject exactly when it is finite. */
  lemma CandsValid(obj: Box, subs: seq<Sub>, deoverlap: (Box, Box) -> (Box, Box), sqrt: real -> real)
    ensures var c := CandsOf(obj, subs, deoverlap, sqrt);
      ValidCand(c.top, |subs|) && ValidCand(c.below, |subs|)
      && ValidCand(c.left, |subs|) && ValidCand(c.right, |subs|)
  {
    SideCandSpec(obj, subs, Side.Top, deoverlap, sqrt, |subs|);
    SideCandSpec(obj, subs, Side.Below, deoverlap, sqrt, |subs|);
    SideCandSpec(obj, subs, Side.LeftSide, deoverlap, sqrt, |subs|);
    SideCandSpec(obj, subs, Side.RightSide, deoverlap, sqrt, |subs|);
  }

  /** A subject some candidate names is one the object faces on that side. */
  lemma NamedFaces(obj: Box, subs: seq<Sub>, deoverlap: (Box, Box) -> (Box, Box), sqrt: real -> real, k: nat)
    requires var c := CandsOf(obj, subs, deoverlap, sqrt);
      Names(c.top, k) || Names(c.below, k) || Names(c.left, k) || Names(c.right, k)
    ensures k < |subs|
    ensures exists side :: Faces(obj, subs[k].bbox, side, deoverlap)
  {
    var c := CandsOf(obj, subs, deoverlap, sqrt);
    SideCandSpec(obj, subs, Side.Top, deoverlap, sqrt, |subs|);
    SideCandSpec(obj, subs, Side.Below, deoverlap, sqrt, |subs|);
    SideCandSpec(obj, subs, Side.LeftSide, deoverlap, sqrt, |subs|);
    SideCandSpec(obj, subs, Side.RightSide, deoverlap, sqrt, |subs|);
    if Names(c.top, k) {
      assert Faces(obj, subs[k].bbox, Side.Top, deoverlap);
    } else if Names(c.below, k) {
      assert Faces(obj, subs[k].bbox, Side.Below, deoverlap);
    } else if Names(c.left, k) {
      assert Faces(obj, subs[k].bbox, Side.LeftSide, deoverlap);
    } else {
      assert Faces(obj, subs[k].bbox, Side.RightSide, deoverlap);
    }
  }

  /** One record of the result: a subject, the objects attached to it in
      object order, and the subject's position. */
  datatype TieRecord = TieRecord(sub: Sub, objs: seq<Sub>, subIdx: nat)

  /** `sub_obj_map_h[i]` mapped to records: the objects among the first `n`
      that are attached to subject `i`. */
  function AttachedTo(objs: seq<Sub>, assign: seq<Option<nat>>, i: nat, n: nat): (r: seq<Sub>)
    requires |assign| == |objs| && n <= |objs|
    ensures forall x :: x in r <==> exists o :: 0 <= o < n && assign[o] == Some(i) && objs[o] == x
  {
    if n == 0 then []
    else AttachedTo(objs, assign, i, n - 1) + (if assign[n - 1] == Some(i) then [objs[n - 1]] else [])
  }

  predicate AllObjectsWellFormed(objs: seq<Sub>) {
    forall x :: x in objs ==> x.bbox.WellFormed()
  }

  function Assignments(objs: seq<Sub>, subs: seq<Sub>, prio: PosRelation, deoverlap: (Box, Box) -> (Box, Box),
                       sqrt: real -> real): (a: seq<Option<nat>>)
    requires AllObjectsWellFormed(objs)
    ensures |a| == |objs|
    ensures forall o :: 0 <= o < |objs| ==> a[o] == Assign(objs[o].bbox, subs, prio, deoverlap, sqrt)
  {
    seq(|objs|, o requires 0 <= o < |objs| => Assign(objs[o].bbox, subs, prio, deoverlap, sqrt))
  }

  /** The records for prepared subjects and objects. */
  function TieUpPrepared(subs: seq<Sub>, objs: seq<Sub>, prio: PosRelation,
                         deoverlap: (Box, Box) -> (Box, Box), sqrt: real -> real): (r: seq<TieRecord>)
    requires AllObjectsWellFormed(objs)
    ensures |r| == |subs|
    ensures forall i :: 0 <= i < |r| ==> r[i].sub == subs[i] && r[i].subIdx == i
  {
    var a := Assignments(objs, subs, prio, deoverlap, sqrt);
    seq(|subs|, i requires 0 <= i < |subs| => TieRecord(subs[i], AttachedTo(objs, a, i, |objs|), i))
  }

  /** A record lists only prepared objects whose own choice is that record's
      subject. */
  lemma TieUpPreparedSound(subs: seq<Sub>, objs: seq<Sub>, prio: PosRelation,
                           deoverlap: (Box, Box) -> (Box, Box), sqrt: real -> real, i: nat, x: Sub)
    requires AllObjectsWellFormed(objs)
    requires i < |subs| && x in TieUpPrepared(subs, objs, prio, deoverlap, sqrt)[i].objs
    ensures x in objs && x.bbox.WellFormed()
    ensures Assign(x.bbox, subs, prio, deoverlap, sqrt) == Some(i)
  {
    var a := Assignments(objs, subs, prio, deoverlap, sqrt);
    assert TieUpPrepared(subs, objs, prio, deoverlap, sqrt)[i].objs == AttachedTo(objs, a, i, |objs|);
  }

  /** Every prepared object ends up in exactly one record when it faces some
      subject on a single side, and in none otherwise. */
  lemma {:induction false} TieUpPreparedPartition(subs: seq<Sub>, objs: seq<Sub>, prio: PosRelation,
                                                  deoverlap: (Box, Box) -> (Box, Box), sqrt: real -> real, o: nat)
    requires AllObjectsWellFormed(objs)
    requires o < |objs|
    ensures var r := TieUpPrepared(subs, objs, prio, deoverlap, sqrt);
            (FacesAny(objs[o].bbox, subs, deoverlap) <==> exists i :: 0 <= i < |r| && objs[o] in r[i].objs)
            && forall i1, i2 :: 0 <= i1 < |r| && 0 <= i2 < |r| && objs[o] in r[i1].objs && objs[o] in r[i2].objs ==> i1 == i2
  {
    var r := TieUpPrepared(subs, objs, prio, deoverlap, sqrt);
    var a := Assignments(objs, subs, prio, deoverlap, sqrt);
    var x := objs[o];
    assert ByValue(objs, a);
    forall i | 0 <= i < |r| ensures x in r[i].objs <==> a[o] == Some(i) {
      AttachedIff(objs, a, i, o);
    }
    if FacesAny(x.bbox, subs, deoverlap) {
      var i := a[o].value;
      assert x in r[i].objs;
    }
  }

  /** Equal objects get equal assignments. */
  predicate ByValue(objs: seq<Sub>, assign: seq<Option<nat>>)
    requires |assign| == |objs|
  {
    forall o, o' :: 0 <= o < |objs| && 0 <= o' < |objs| && objs[o] == objs[o'] ==> assign[o] == assign[o']
  }

  /** When equal objects get equal assignments, an object is attached to
      record `i` exactly when its own assignment is `i`. */
  lemma AttachedIff(objs: seq<Sub>, assign: seq<Option<nat>>, i: nat, o: nat)
    requires |assign| == |objs| && o < |objs| && ByValue(objs, assign)
    ensures objs[o] in AttachedTo(objs, assign, i, |objs|) <==> assign[o] == Some(i)
  {
    if objs[o] in AttachedTo(objs, assign, i, |objs|) {
      var o' :| 0 <= o' < |objs| && assign[o'] == Some(i) && objs[o'] == objs[o];
    }
  }

  /** `__tie_up_category_by_distance_v2` for one page: one record per
      reduced, sorted subject, each listing the objects attached to it. */
  function TieUpByDistance(dets: seq<Det>, subCat: int, objCat: int, prio: PosRelation,
                           deoverlap: (Box, Box) -> (Box, Box), sqrt: real -> real): (r: seq<TieRecord>)
    requires AllWellFormed(dets)
    ensures |r| == |Prepared(dets, subCat)|
    ensures forall i :: 0 <= i < |r| ==> r[i].sub == Prepared(dets, subCat)[i] && r[i].subIdx == i
    ensures forall i, x :: 0 <= i < |r| && x in r[i].objs ==> x in Prepared(dets, objCat)
  {
    PreparedWellFormed(dets, objCat);
    var r := TieUpPrepared(Prepared(dets, subCat), Prepared(dets, objCat), prio, deoverlap, sqrt);
    forall i, x | 0 <= i < |r| && x in r[i].objs ensures x in Prepared(dets, objCat) {
      TieUpPreparedSound(Prepared(dets, subCat), Prepared(dets, objCat), prio, deoverlap, sqrt, i, x);
    }
    r
  }

  lemma PreparedWellFormed(dets: seq<Det>, cat: int)
    requires AllWellFormed(dets)
    ensures AllObjectsWellFormed(Prepared(dets, cat))
  {
    var objs := Prepared(dets, cat);
    forall x | x in objs ensures x.bbox.WellFormed() {
      var p := Project(dets, cat);
      var k :| 0 <= k < |p| && p[k] == x;
      assert OfCategory(dets, cat)[k] in dets;
    }
  }

  /** The first record with subject position `k`: `next(filter(...))`. */
  function FindBySubIdx(recs: seq<TieRecord>, k: nat): (r: Option<TieRecord>)
    ensures r.Some? ==> r.value in recs && r.value.subIdx == k
    ensures (exists p :: 0 <= p < |recs| && recs[p].subIdx == k) ==> r.Some?
  {
    if |recs| == 0 then None
    else if recs[0].subIdx == k then Some(recs[0])
    else
      var rest := FindBySubIdx(recs[1..], k);
      assert (exists p :: 0 <= p < |recs| && recs[p].subIdx == k) ==> exists p :: 0 <= p < |recs[1..]| && recs[1..][p].subIdx == k by {
        if exists p :: 0 <= p < |recs| && recs[p].subIdx == k {
          var p :| 0 <= p < |recs| && recs[p].subIdx == k;
          assert recs[1..][p - 1] == recs[p];
        }
      }
      rest
  }

  /** An image or table group: the body and its captions and footnotes. */
  datatype Group = Group(body: Sub, captions: seq<Sub>, footnotes: seq<Sub>)

  /** Joins the caption and footnote tie-ups of the same subjects. */
  function JoinGroups(withCaptions: seq<TieRecord>, withFootnotes: seq<TieRecord>): (r: seq<Group>)
    requires |withCaptions| == |withFootnotes|
    requires forall i :: 0 <= i < |withCaptions| ==> withCaptions[i].subIdx == i && withFootnotes[i].subIdx == i
    requires forall i :: 0 <= i < |withCaptions| ==> withCaptions[i].sub == withFootnotes[i].sub
    ensures |r| == |withCaptions|
    ensures forall i :: 0 <= i < |r| ==>
      r[i] == Group(withCaptions[i].sub, withCaptions[i].objs, withFootnotes[i].objs)
  {
    seq(|withCaptions|, i requires 0 <= i < |withCaptions| =>
      var v := withCaptions[i];
      assert withFootnotes[v.subIdx].subIdx == v.subIdx;
      var d := FindBySubIdx(withFootnotes, v.subIdx);
      Group(v.sub, v.objs, d.value.objs))
  }

  /** `get_imgs_v2`: image bodies (3) with captions (4, preferring the
      subject below) and image footnotes (preferring none). */
  function GetImages(dets: seq<Det>, deoverlap: (Box, Box) -> (Box, Box), sqrt: real -> real): (r: seq<Group>)
    requires AllWellFormed(dets)
    ensures |r| == |Prepared(dets, 3)|
    ensures forall i :: 0 <= i < |r| ==> r[i].body == Prepared(dets, 3)[i]
    ensures forall i, x :: 0 <= i < |r| && x in r[i].captions ==> x in Prepared(dets, 4)
    ensures forall i, x :: 0 <= i < |r| && x in r[i].footnotes ==> x in Prepared(dets, ImageFootnoteCategory)
  {
    JoinGroups(TieUpByDistance(dets, 3, 4, PosRelation.Bottom, deoverlap, sqrt),
               TieUpByDistance(dets, 3, ImageFootnoteCategory, PosRelation.All, deoverlap, sqrt))
  }

  /** `get_tables_v2`: table bodies (5) with captions (6, preferring the
      subject above) and footnotes (7). */
  function GetTables(dets: seq<Det>, deoverlap: (Box, Box) -> (Box, Box), sqrt: real -> real): (r: seq<Group>)
    requires AllWellFormed(dets)
    ensures |r| == |Prepared(dets, 5)|
    ensures forall i :: 0 <= i < |r| ==> r[i].body == Prepared(dets, 5)[i]
    ensures forall i, x :: 0 <= i < |r| && x in r[i].captions ==> x in Prepared(dets, 6)
    ensures forall i, x :: 0 <= i < |r| && x in r[i].footnotes ==> x in Prepared(dets, 7)
  {
    JoinGroups(TieUpByDistance(dets, 5, 6, PosRelation.Up, deoverlap, sqrt),
               TieUpByDistance(dets, 5, 7, PosRelation.All, deoverlap, sqrt))
  }
}
