/** Page assembly in `pdf_parse_union_core_v2.py` and its class twin
    `PDFParser` in `preprocessor/pdf_parser_core.py`: group ids for the
    image and table groups, the filter that drops spans outside every block,
    the regrouping of image and table members after ranking, the final sort,
    the shapes of empty and skipped pages, and the page range. */
module Page {
  import opened Base
  import opened BoxBase
  import opened Layout
  import Conflict
  import TieUp

  // ---------------------------------------------------------------------
  // process_groups
  // ---------------------------------------------------------------------

  /** Which list of a group: `*_caption_list` or `*_footnote_list`. */
  datatype Part = Captions | Footnotes

  function PartOf(g: TieUp.Group, p: Part): seq<TieUp.Sub> {
    match p
    case Captions => g.captions
    case Footnotes => g.footnotes
  }

  /** A sub-block with `group_id` set to `i`. */
  function Tag(s: TieUp.Sub, i: int): Conflict.InBlock {
    Conflict.InBlock(s.bbox, s.score, Some(i))
  }

  function Untag(b: Conflict.InBlock): TieUp.Sub {
    TieUp.Sub(b.bbox, b.score)
  }

  function Tagged(subs: seq<TieUp.Sub>, i: int): (r: seq<Conflict.InBlock>)
    ensures |r| == |subs|
    ensures forall k :: 0 <= k < |subs| ==> r[k] == Tag(subs[k], i)
  {
    seq(|subs|, k requires 0 <= k < |subs| => Tag(subs[k], i))
  }

  /** The captions (or footnotes) of all groups, each tagged with its group's position. */
  function TaggedPart(groups: seq<TieUp.Group>, p: Part): seq<Conflict.InBlock> {
    if |groups| == 0 then []
    else TaggedPart(groups[..|groups| - 1], p) + Tagged(PartOf(groups[|groups| - 1], p), |groups| - 1)
  }

  /** The captions (or footnotes) of all groups, untagged, in group order. */
  function Parts(groups: seq<TieUp.Group>, p: Part): seq<TieUp.Sub> {
    if |groups| == 0 then [] else Parts(groups[..|groups| - 1], p) + PartOf(groups[|groups| - 1], p)
  }

  datatype Grouped = Grouped(bodies: seq<Conflict.InBlock>, captions: seq<Conflict.InBlock>, footnotes: seq<Conflict.InBlock>)

  function PartList(r: Grouped, p: Part): seq<Conflict.InBlock> {
    match p
    case Captions => r.captions
    case Footnotes => r.footnotes
  }

  /** `process_groups`: the `i`-th group's body and every caption and footnote
      of it get `group_id == i`; the three lists come back flattened. */
  function ProcessGroups(groups: seq<TieUp.Group>): (r: Grouped)
    ensures |r.bodies| == |groups|
    ensures forall i :: 0 <= i < |groups| ==> Untag(r.bodies[i]) == groups[i].body && r.bodies[i].groupId == Some(i)
  {
    Grouped(seq(|groups|, i requires 0 <= i < |groups| => Tag(groups[i].body, i)),
            TaggedPart(groups, Captions), TaggedPart(groups, Footnotes))
  }

  /** Stripping the group ids from the caption (footnote) list gives the
      groups' own captions (footnotes) in order; the ids are valid group
      positions and never decrease along the list. */
  lemma {:induction false} ProcessGroupsParts(groups: seq<TieUp.Group>, p: Part)
    ensures var t := PartList(ProcessGroups(groups), p);
      |t| == |Parts(groups, p)|
      && (forall k :: 0 <= k < |t| ==> Untag(t[k]) == Parts(groups, p)[k])
      && (forall k :: 0 <= k < |t| ==> t[k].groupId.Some? && 0 <= t[k].groupId.value < |groups|)
      && (forall a, b :: 0 <= a < b < |t| && t[a].groupId.Some? && t[b].groupId.Some? ==> t[a].groupId.value <= t[b].groupId.value)
  {
    TaggedPartFacts(groups, p);
  }

  lemma {:induction false} TaggedPartFacts(groups: seq<TieUp.Group>, p: Part)
    ensures var t := TaggedPart(groups, p);
      |t| == |Parts(groups, p)|
      && (forall k :: 0 <= k < |t| ==> Untag(t[k]) == Parts(groups, p)[k])
      && (forall k :: 0 <= k < |t| ==> t[k].groupId.Some? && 0 <= t[k].groupId.value < |groups|)
      && (forall a, b :: 0 <= a < b < |t| && t[a].groupId.Some? && t[b].groupId.Some? ==> t[a].groupId.value <= t[b].groupId.value)
  {
    if |groups| > 0 {
      var n := |groups| - 1;
      var init := groups[..n];
      TaggedPartFacts(init, p);
      var head := TaggedPart(init, p);
      var last := Tagged(PartOf(groups[n], p), n);
      var t := TaggedPart(groups, p);
      assert t == head + last;
      assert Parts(groups, p) == Parts(init, p) + PartOf(groups[n], p);
      forall k | 0 <= k < |t|
        ensures Untag(t[k]) == Parts(groups, p)[k]
        ensures t[k].groupId.Some? && 0 <= t[k].groupId.value < |groups|
      {
        if k >= |head| { assert t[k] == last[k - |head|]; }
      }
    }
  }

  /** A sub-block appears in the caption (footnote) list exactly when it is
      one of some group's captions (footnotes), tagged with that group. */
  lemma ProcessGroupsMembers(groups: seq<TieUp.Group>, p: Part, x: Conflict.InBlock)
    ensures x in PartList(ProcessGroups(groups), p)
      <==> exists i, k :: 0 <= i < |groups| && 0 <= k < |PartOf(groups[i], p)| && x == Tag(PartOf(groups[i], p)[k], i)
  {
    TaggedPartMembers(groups, p, x);
  }

  lemma {:induction false} TaggedPartMembers(groups: seq<TieUp.Group>, p: Part, x: Conflict.InBlock)
    ensures x in TaggedPart(groups, p)
      <==> exists i, k :: 0 <= i < |groups| && 0 <= k < |PartOf(groups[i], p)| && x == Tag(PartOf(groups[i], p)[k], i)
  {
    if |groups| > 0 {
      var n := |groups| - 1;
      var init := groups[..n];
      TaggedPartMembers(init, p, x);
      var last := Tagged(PartOf(groups[n], p), n);
      assert TaggedPart(groups, p) == TaggedPart(init, p) + last;
      if x in last {
        var k :| 0 <= k < |last| && last[k] == x;
        assert x == Tag(PartOf(groups[n], p)[k], n);
      }
      if exists i, k :: 0 <= i < |groups| && 0 <= k < |PartOf(groups[i], p)| && x == Tag(PartOf(groups[i], p)[k], i) {
        var i, k :| 0 <= i < |groups| && 0 <= k < |PartOf(groups[i], p)| && x == Tag(PartOf(groups[i], p)[k], i);
        if i == n { assert last[k] == x; } else { assert groups[i] == init[i]; }
      }
    }
  }

  // ---------------------------------------------------------------------
  // revert_group_blocks / process_block_list
  // ---------------------------------------------------------------------

  datatype Family = ImageFamily | TableFamily

  /** The group family a block kind belongs to, if any. */
  function FamilyOf(t: BlockType): (r: Option<Family>)
    ensures r.Some? <==> IsGroupKind(t)
  {
    if t == BlockType.ImageBody || t == BlockType.ImageCaption || t == BlockType.ImageFootnote then Some(ImageFamily)
    else if t == BlockType.TableBody || t == BlockType.TableCaption || t == BlockType.TableFootnote then Some(TableFamily)
    else None
  }

  function BodyKind(f: Family): BlockType {
    match f
    case ImageFamily => BlockType.ImageBody
    case TableFamily => BlockType.TableBody
  }

  function CompositeKind(f: Family): BlockType {
    match f
    case ImageFamily => BlockType.Image
    case TableFamily => BlockType.Table
  }

  /** An entry of the page's block list after regrouping: a block that
      belongs to no group, or an image / table with its members. A missing
      body leaves `bbox` as the source's empty list (None here). */
  datatype PageItem =
    | Single(block: Block)
    | Composite(kind: BlockType, bbox: Option<Box>, members: seq<Block>, index: real)

  /** The blocks that belong to no group, in order. */
  function Loose(blocks: seq<Block>): (r: seq<Block>)
    ensures |r| <= |blocks|
    ensures forall b {:trigger b in r} :: b in r <==> b in blocks && FamilyOf(b.kind).None?
  {
    if |blocks| == 0 then []
    else
      var init := Loose(blocks[..|blocks| - 1]);
      var b := blocks[|blocks| - 1];
      assert forall x :: x in blocks <==> x in blocks[..|blocks| - 1] || x == b;
      if FamilyOf(b.kind).None? then init + [b] else init
  }

  /** The blocks of family `f`, in order. */
  function OfFamily(blocks: seq<Block>, f: Family): (r: seq<Block>)
    ensures |r| <= |blocks|
    ensures forall b {:trigger b in r} :: b in r <==> b in blocks && FamilyOf(b.kind) == Some(f)
  {
    if |blocks| == 0 then []
    else
      var init := OfFamily(blocks[..|blocks| - 1], f);
      var b := blocks[|blocks| - 1];
      assert forall x :: x in blocks <==> x in blocks[..|blocks| - 1] || x == b;
      if FamilyOf(b.kind) == Some(f) then init + [b] else init
  }

  /** The blocks with `group_id == g`, in order: one dictionary entry. */
  function WithGroup(blocks: seq<Block>, g: int): (r: seq<Block>)
    ensures |r| <= |blocks|
    ensures forall b {:trigger b in r} :: b in r <==> b in blocks && b.groupId == Some(g)
  {
    if |blocks| == 0 then []
    else
      var init := WithGroup(blocks[..|blocks| - 1], g);
      var b := blocks[|blocks| - 1];
      assert forall x :: x in blocks <==> x in blocks[..|blocks| - 1] || x == b;
      if b.groupId == Some(g) then init + [b] else init
  }

  /** The dictionary's keys in insertion order; a member without `group_id`
      raises KeyError (None). */
  function GroupKeys(fam: seq<Block>): Option<seq<int>> {
    if |fam| == 0 then Some([])
    else
      match GroupKeys(fam[..|fam| - 1])
      case None => None
      case Some(keys) =>
        match fam[|fam| - 1].groupId
        case None => None
        case Some(g) => Some(if g in keys then keys else keys + [g])
  }

  /** The keys exist exactly when every member has a group id; they are then
      distinct and are exactly the ids that occur. */
  lemma {:induction false} GroupKeysSpec(fam: seq<Block>)
    ensures GroupKeys(fam).Some? <==> forall k :: 0 <= k < |fam| ==> fam[k].groupId.Some?
    ensures GroupKeys(fam).Some? ==> Distinct(GroupKeys(fam).value)
    ensures GroupKeys(fam).Some? ==> forall g :: g in GroupKeys(fam).value <==> exists k :: 0 <= k < |fam| && fam[k].groupId == Some(g)
  {
    if |fam| > 0 {
      var init := fam[..|fam| - 1];
      GroupKeysSpec(init);
      assert forall k :: 0 <= k < |init| ==> init[k] == fam[k];
      if GroupKeys(init).Some? && fam[|fam| - 1].groupId.Some? {
        var keys := GroupKeys(init).value;
        var g := fam[|fam| - 1].groupId.value;
        var r := GroupKeys(fam).value;
        forall h ensures h in r <==> exists k :: 0 <= k < |fam| && fam[k].groupId == Some(h) {
          if h in keys {
            var k :| 0 <= k < |init| && init[k].groupId == Some(h);
            assert fam[k].groupId == Some(h);
          } else if h == g {
            assert fam[|fam| - 1].groupId == Some(h);
          } else {
            forall k | 0 <= k < |fam| ensures fam[k].groupId != Some(h) {
              if k < |init| { assert init[k] == fam[k]; }
            }
          }
        }
        forall a, b | 0 <= a < b < |r| ensures r[a] != r[b] {
          if b == |keys| { assert r[a] in keys; }
        }
      }
    }
  }

  /** `next(block['bbox'] for block in blocks if block['type'] == body)`, or
      None for the source's `[]` default. */
  function FirstOfKind(members: seq<Block>, body: BlockType): Option<Box> {
    if |members| == 0 then None
    else if members[0].kind == body then Some(members[0].bbox)
    else FirstOfKind(members[1..], body)
  }

  /** The bbox found is that of the first member of kind `body`, and there
      is one exactly when some member has that kind. */
  lemma {:induction false} FirstOfKindFirst(members: seq<Block>, body: BlockType)
    ensures FirstOfKind(members, body).Some? <==> exists k :: 0 <= k < |members| && members[k].kind == body
    ensures FirstOfKind(members, body).Some? ==> exists k :: (0 <= k < |members| && members[k].kind == body
      && members[k].bbox == FirstOfKind(members, body).value
      && forall j :: 0 <= j < k ==> members[j].kind != body)
  {
    if |members| > 0 && members[0].kind != body {
      var rest := members[1..];
      FirstOfKindFirst(rest, body);
      assert forall k :: 1 <= k < |members| ==> members[k] == rest[k - 1];
      if FirstOfKind(rest, body).Some? {
        var k :| 0 <= k < |rest| && rest[k].kind == body && rest[k].bbox == FirstOfKind(rest, body).value
          && forall j :: 0 <= j < k ==> rest[j].kind != body;
        assert members[k + 1].kind == body;
        forall j | 0 <= j < k + 1 ensures members[j].kind != body {
          if j > 0 { assert members[j] == rest[j - 1]; }
        }
      }
    }
  }

  /** The members' indices in order, or None once one has none. */
  function MemberIndices(members: seq<Block>): Option<seq<real>> {
    if |members| == 0 then Some([])
    else
      match members[0].index
      case None => None
      case Some(x) =>
        match MemberIndices(members[1..])
        case None => None
        case Some(rest) => Some([x] + rest)
  }

  /** The indices exist exactly when every member has one, and are then the
      members' indices position by position. */
  lemma {:induction false} MemberIndicesSpec(members: seq<Block>)
    ensures MemberIndices(members).Some? <==> forall k :: 0 <= k < |members| ==> members[k].index.Some?
    ensures MemberIndices(members).Some? ==> (|MemberIndices(members).value| == |members|
      && forall k :: 0 <= k < |members| ==> members[k].index == Some(MemberIndices(members).value[k]))
  {
    if |members| > 0 {
      MemberIndicesSpec(members[1..]);
      assert forall k :: 1 <= k < |members| ==> members[k] == members[1..][k - 1];
    }
  }

  /** `process_block_list`: the composite of one group. Its index is the
      median of the members' indices; a member without one raises (None). */
  function ProcessBlockList(members: seq<Block>, f: Family): (r: Option<PageItem>)
    requires |members| > 0
    ensures r.Some? ==> (r.value.Composite? && r.value.kind == CompositeKind(f) && r.value.members == members
      && r.value.bbox == FirstOfKind(members, BodyKind(f)))
    ensures r.Some? ==> (MemberIndices(members).Some? && |MemberIndices(members).value| > 0
      && r.value.index == Median(MemberIndices(members).value))
  {
    MemberIndicesSpec(members);
    match MemberIndices(members)
    case None => None
    case Some(ix) =>
      assert |ix| > 0 by { MemberIndicesSpec(members); }
      Some(Composite(CompositeKind(f), FirstOfKind(members, BodyKind(f)), members, Median(ix)))
  }

  /** The group raises exactly when one of its members lacks an index. */
  lemma ProcessBlockListSome(members: seq<Block>, f: Family)
    requires |members| > 0
    ensures ProcessBlockList(members, f).Some? <==> forall k :: 0 <= k < |members| ==> members[k].index.Some?
  {
    MemberIndicesSpec(members);
  }

  /** The composite's index is the median of its members' indices: the
      middle of any ascending arrangement of them, between the smallest and
      the largest. */
  lemma CompositeIndexBetween(members: seq<Block>, f: Family)
    requires |members| > 0
    requires ProcessBlockList(members, f).Some?
    ensures MemberIndices(members).Some?
      && IsMedian(MemberIndices(members).value, ProcessBlockList(members, f).value.index)
    ensures var c := ProcessBlockList(members, f).value;
      (exists j :: 0 <= j < |members| && members[j].index.Some? && members[j].index.value <= c.index)
      && (exists j :: 0 <= j < |members| && members[j].index.Some? && c.index <= members[j].index.value)
  {
    MemberIndicesSpec(members);
    var ix := MemberIndices(members).value;
    MedianIsMedian(ix);
    MedianBounds(ix);
    var lo :| 0 <= lo < |ix| && ix[lo] <= Median(ix);
    var hi :| 0 <= hi < |ix| && Median(ix) <= ix[hi];
    assert members[lo].index == Some(ix[lo]);
    assert members[hi].index == Some(ix[hi]);
  }

  /** One group's composite, or None when a member lacks its index. */
  function CompositeOf(fam: seq<Block>, g: int, f: Family): Option<PageItem> {
    var members := WithGroup(fam, g);
    if |members| == 0 then None else ProcessBlockList(members, f)
  }

  /** The composites of the groups `keys`, or None once one raises. */
  function Composites(fam: seq<Block>, keys: seq<int>, f: Family): (r: Option<seq<PageItem>>)
    ensures r.Some? ==> |r.value| == |keys|
  {
    if |keys| == 0 then Some([])
    else
      match CompositeOf(fam, keys[0], f)
      case None => None
      case Some(c) =>
        match Composites(fam, keys[1..], f)
        case None => None
        case Some(rest) => Some([c] + rest)
  }

  lemma {:induction false} CompositesAt(fam: seq<Block>, keys: seq<int>, f: Family, i: nat)
    requires Composites(fam, keys, f).Some? && i < |keys|
    ensures CompositeOf(fam, keys[i], f) == Some(Composites(fam, keys, f).value[i])
  {
    var c := CompositeOf(fam, keys[0], f).value;
    var rest := Composites(fam, keys[1..], f).value;
    assert Composites(fam, keys, f).value == [c] + rest;
    if i > 0 {
      CompositesAt(fam, keys[1..], f, i - 1);
      assert keys[i] == keys[1..][i - 1];
    }
  }

  lemma {:induction false} CompositesSomeIff(fam: seq<Block>, keys: seq<int>, f: Family)
    ensures Composites(fam, keys, f).Some? <==> forall i :: 0 <= i < |keys| ==> CompositeOf(fam, keys[i], f).Some?
  {
    if |keys| > 0 {
      CompositesSomeIff(fam, keys[1..], f);
      assert forall i :: 1 <= i < |keys| ==> keys[i] == keys[1..][i - 1];
    }
  }

  /** Every block wrapped as a single entry. */
  function Singles(blocks: seq<Block>): (r: seq<PageItem>)
    ensures |r| == |blocks|
    ensures forall k :: 0 <= k < |blocks| ==> r[k] == Single(blocks[k])
  {
    seq(|blocks|, k requires 0 <= k < |blocks| => Single(blocks[k]))
  }

  /** The composites of one family, one per group id in first-appearance
      order (the iteration order of the source's dictionary). */
  function FamilyComposites(blocks: seq<Block>, f: Family): (r: Option<seq<PageItem>>)
    ensures r.Some? ==> GroupKeys(OfFamily(blocks, f)).Some? && |r.value| == |GroupKeys(OfFamily(blocks, f)).value|
  {
    var fam := OfFamily(blocks, f);
    match GroupKeys(fam)
    case None => None
    case Some(keys) => Composites(fam, keys, f)
  }

  /** `revert_group_blocks`: the ungrouped blocks in order, then one
      composite per image group, then one per table group. */
  function RevertGroupBlocks(blocks: seq<Block>): Option<seq<PageItem>> {
    var ci := FamilyComposites(blocks, ImageFamily);
    var ct := FamilyComposites(blocks, TableFamily);
    if ci.Some? && ct.Some? then Some(Singles(Loose(blocks)) + ci.value + ct.value) else None
  }

  /** Every block of a group carries a `group_id` and every group member an `index`. */
  predicate Regroupable(blocks: seq<Block>) {
    forall k :: 0 <= k < |blocks| && IsGroupKind(blocks[k].kind) ==> blocks[k].groupId.Some? && blocks[k].index.Some?
  }

  lemma CompositesSucceed(fam: seq<Block>, keys: seq<int>, f: Family)
    requires forall k :: 0 <= k < |fam| ==> fam[k].index.Some?
    requires forall g :: g in keys ==> exists k :: 0 <= k < |fam| && fam[k].groupId == Some(g)
    ensures Composites(fam, keys, f).Some?
  {
    forall i | 0 <= i < |keys| ensures CompositeOf(fam, keys[i], f).Some? {
      var g := keys[i];
      assert g in keys;
      var k :| 0 <= k < |fam| && fam[k].groupId == Some(g);
      assert fam[k] in fam;
      assert fam[k] in WithGroup(fam, g);
      var m := WithGroup(fam, g);
      forall j | 0 <= j < |m| ensures m[j].index.Some? {
        assert m[j] in m;
        assert m[j] in fam;
      }
      ProcessBlockListSome(m, f);
    }
    CompositesSomeIff(fam, keys, f);
  }

  lemma CompositesFail(fam: seq<Block>, keys: seq<int>, f: Family, b: Block)
    requires b in fam && b.index.None? && b.groupId.Some? && b.groupId.value in keys
    ensures Composites(fam, keys, f).None?
  {
    var g := b.groupId.value;
    var i :| 0 <= i < |keys| && keys[i] == g;
    var m := WithGroup(fam, g);
    assert b in m;
    var j :| 0 <= j < |m| && m[j] == b;
    ProcessBlockListSome(m, f);
    assert CompositeOf(fam, keys[i], f).None?;
    CompositesSomeIff(fam, keys, f);
  }

  /** A member's group id is among the keys. */
  lemma KeyPresent(fam: seq<Block>, j: nat)
    requires GroupKeys(fam).Some? && j < |fam|
    ensures fam[j].groupId.Some? && fam[j].groupId.value in GroupKeys(fam).value
  {
    GroupKeysSpec(fam);
    assert fam[j].groupId == Some(fam[j].groupId.value);
  }

  lemma FamilySucceeds(blocks: seq<Block>, f: Family)
    ensures FamilyComposites(blocks, f).Some?
      <==> forall k :: 0 <= k < |blocks| && FamilyOf(blocks[k].kind) == Some(f) ==> blocks[k].groupId.Some? && blocks[k].index.Some?
  {
    if forall k :: 0 <= k < |blocks| && FamilyOf(blocks[k].kind) == Some(f) ==> blocks[k].groupId.Some? && blocks[k].index.Some? {
      FamilyComplete(blocks, f);
    } else {
      var k :| 0 <= k < |blocks| && FamilyOf(blocks[k].kind) == Some(f) && !(blocks[k].groupId.Some? && blocks[k].index.Some?);
      FamilyIncomplete(blocks, f, k);
    }
  }

  lemma FamilyComplete(blocks: seq<Block>, f: Family)
    requires forall k :: 0 <= k < |blocks| && FamilyOf(blocks[k].kind) == Some(f) ==> blocks[k].groupId.Some? && blocks[k].index.Some?
    ensures FamilyComposites(blocks, f).Some?
  {
    var fam := OfFamily(blocks, f);
    forall k | 0 <= k < |fam| ensures fam[k].groupId.Some? && fam[k].index.Some? {
      assert fam[k] in fam;
      assert fam[k] in blocks;
      var j :| 0 <= j < |blocks| && blocks[j] == fam[k];
    }
    GroupKeysSpec(fam);
    CompositesSucceed(fam, GroupKeys(fam).value, f);
  }

  lemma FamilyIncomplete(blocks: seq<Block>, f: Family, k: nat)
    requires k < |blocks| && FamilyOf(blocks[k].kind) == Some(f) && !(blocks[k].groupId.Some? && blocks[k].index.Some?)
    ensures FamilyComposites(blocks, f).None?
  {
    var fam := OfFamily(blocks, f);
    var b := blocks[k];
    assert b in blocks;
    assert b in fam;
    var j :| 0 <= j < |fam| && fam[j] == b;
    if GroupKeys(fam).Some? {
      KeyPresent(fam, j);
      CompositesFail(fam, GroupKeys(fam).value, f, b);
    }
  }

  /** Regrouping succeeds exactly when no group member lacks its id or index. */
  lemma RevertSucceeds(blocks: seq<Block>)
    ensures RevertGroupBlocks(blocks).Some? <==> Regroupable(blocks)
  {
    FamilySucceeds(blocks, ImageFamily);
    FamilySucceeds(blocks, TableFamily);
  }

  /** The regrouped list, or empty when regrouping raises. */
  function Regrouped(blocks: seq<Block>): seq<PageItem> {
    if RevertGroupBlocks(blocks).Some? then RevertGroupBlocks(blocks).value else []
  }

  /** Family `f`'s group ids in first-appearance order. */
  function Keys(blocks: seq<Block>, f: Family): seq<int> {
    var keys := GroupKeys(OfFamily(blocks, f));
    if keys.Some? then keys.value else []
  }

  /** Family `f`'s composites. */
  function Made(blocks: seq<Block>, f: Family): seq<PageItem> {
    var c := FamilyComposites(blocks, f);
    if c.Some? then c.value else []
  }

  /** Where family `f`'s composites start in the regrouped list. */
  function Offset(blocks: seq<Block>, f: Family): nat {
    |Loose(blocks)| + (if f == ImageFamily then 0 else |Made(blocks, ImageFamily)|)
  }

  /** After its first `n` entries, `r` is `b + c`, position by position. */
  predicate SplicedAfter<T(==)>(r: seq<T>, n: nat, b: seq<T>, c: seq<T>) {
    |r| == n + |b| + |c|
    && (forall k :: n <= k < n + |b| ==> r[k] == b[k - n])
    && (forall k :: n + |b| <= k < |r| ==> r[k] == c[k - n - |b|])
  }

  lemma RevertSplit(blocks: seq<Block>)
    requires RevertGroupBlocks(blocks).Some?
    ensures FamilyComposites(blocks, ImageFamily).Some? && FamilyComposites(blocks, TableFamily).Some?
    ensures SplicedAfter(Regrouped(blocks), |Loose(blocks)|, Made(blocks, ImageFamily), Made(blocks, TableFamily))
  {
    RevertUnfold(blocks);
    ConcatParts(Singles(Loose(blocks)), Made(blocks, ImageFamily), Made(blocks, TableFamily), Regrouped(blocks));
  }

  lemma RevertPrefix(blocks: seq<Block>)
    requires RevertGroupBlocks(blocks).Some?
    ensures Regrouped(blocks)[..|Loose(blocks)|] == Singles(Loose(blocks))
  {
    RevertUnfold(blocks);
    ConcatParts(Singles(Loose(blocks)), Made(blocks, ImageFamily), Made(blocks, TableFamily), Regrouped(blocks));
  }

  lemma RevertUnfold(blocks: seq<Block>)
    requires RevertGroupBlocks(blocks).Some?
    ensures FamilyComposites(blocks, ImageFamily).Some? && FamilyComposites(blocks, TableFamily).Some?
    ensures Regrouped(blocks) == Singles(Loose(blocks)) + Made(blocks, ImageFamily) + Made(blocks, TableFamily)
  {
  }

  lemma ConcatParts<T>(a: seq<T>, b: seq<T>, c: seq<T>, r: seq<T>)
    requires r == a + b + c
    ensures r[..|a|] == a
    ensures SplicedAfter(r, |a|, b, c)
  {
  }

  /** Family `f`'s `i`-th composite is that of its `i`-th key's group. */
  lemma MadeAt(blocks: seq<Block>, f: Family, i: nat)
    requires FamilyComposites(blocks, f).Some? && i < |Made(blocks, f)|
    ensures |Made(blocks, f)| == |Keys(blocks, f)|
    ensures CompositeOf(OfFamily(blocks, f), Keys(blocks, f)[i], f) == Some(Made(blocks, f)[i])
  {
    CompositesAt(OfFamily(blocks, f), Keys(blocks, f), f, i);
  }

  /** Where entry `k >= |Loose(blocks)|` of the regrouped list comes from:
      position `i` of family `f`'s composites. */
  lemma RevertAt(blocks: seq<Block>, k: nat) returns (f: Family, i: nat)
    requires RevertGroupBlocks(blocks).Some?
    requires |Loose(blocks)| <= k < |Regrouped(blocks)|
    ensures f == ImageFamily || f == TableFamily
    ensures FamilyComposites(blocks, f).Some?
    ensures i < |Made(blocks, f)| && Regrouped(blocks)[k] == Made(blocks, f)[i] && k == Offset(blocks, f) + i
  {
    RevertSplit(blocks);
    var inFirst;
    inFirst, i := SplicedPick(Regrouped(blocks), |Loose(blocks)|, Made(blocks, ImageFamily), Made(blocks, TableFamily), k);
    f := if inFirst then ImageFamily else TableFamily;
  }

  /** Entry `k` past the first `n` of a spliced list comes from `b` or `c`. */
  lemma SplicedPick<T>(r: seq<T>, n: nat, b: seq<T>, c: seq<T>, k: nat) returns (inB: bool, i: nat)
    requires SplicedAfter(r, n, b, c) && n <= k < |r|
    ensures inB ==> i < |b| && r[k] == b[i] && k == n + i
    ensures !inB ==> i < |c| && r[k] == c[i] && k == n + |b| + i
  {
    if k < n + |b| {
      inB, i := true, k - n;
    } else {
      inB, i := false, k - n - |b|;
    }
  }

  /** The regrouped list: the ungrouped blocks first, in order, then
      composites only, one per distinct group id of each family. */
  lemma RevertShape(blocks: seq<Block>)
    requires RevertGroupBlocks(blocks).Some?
    ensures |Regrouped(blocks)| == |Loose(blocks)| + |Keys(blocks, ImageFamily)| + |Keys(blocks, TableFamily)|
    ensures Regrouped(blocks)[..|Loose(blocks)|] == Singles(Loose(blocks))
    ensures forall k :: |Loose(blocks)| <= k < |Regrouped(blocks)| ==> Regrouped(blocks)[k].Composite?
    ensures Distinct(Keys(blocks, ImageFamily)) && Distinct(Keys(blocks, TableFamily))
  {
    RevertPrefix(blocks);
    RevertSplit(blocks);
    GroupKeysSpec(OfFamily(blocks, ImageFamily));
    GroupKeysSpec(OfFamily(blocks, TableFamily));
    forall k | |Loose(blocks)| <= k < |Regrouped(blocks)| ensures Regrouped(blocks)[k].Composite? {
      var f, i := RevertAt(blocks, k);
      MadeAt(blocks, f, i);
    }
  }

  /** The composite at `k` is that of group `g` of family `f`, whose key
      sits at `k`'s place among the family's keys. */
  lemma RevertCompositeAt(blocks: seq<Block>, k: nat) returns (f: Family, g: int)
    requires RevertGroupBlocks(blocks).Some?
    requires k < |Regrouped(blocks)| && Regrouped(blocks)[k].Composite?
    ensures f == ImageFamily || f == TableFamily
    ensures |WithGroup(OfFamily(blocks, f), g)| > 0
    ensures ProcessBlockList(WithGroup(OfFamily(blocks, f), g), f) == Some(Regrouped(blocks)[k])
    ensures Offset(blocks, f) <= k < Offset(blocks, f) + |Keys(blocks, f)| && Keys(blocks, f)[k - Offset(blocks, f)] == g
  {
    RevertSplit(blocks);
    if k < |Loose(blocks)| {
      assert false;
    }
    var i;
    f, i := RevertAt(blocks, k);
    MadeAt(blocks, f, i);
    g := Keys(blocks, f)[i];
  }

  /** Each composite collects one whole group: its members share one family
      and one group id, and they are exactly the page's blocks of that
      family and id. */
  lemma RevertComposite(blocks: seq<Block>, k: nat)
    requires RevertGroupBlocks(blocks).Some?
    requires k < |Regrouped(blocks)| && Regrouped(blocks)[k].Composite?
    ensures |Regrouped(blocks)[k].members| > 0
    ensures exists f: Family, g: int ::
      Regrouped(blocks)[k].kind == CompositeKind(f)
      && (forall b :: b in Regrouped(blocks)[k].members <==> b in blocks && FamilyOf(b.kind) == Some(f) && b.groupId == Some(g))
  {
    var f, g := RevertCompositeAt(blocks, k);
    var fam := OfFamily(blocks, f);
    var m := Regrouped(blocks)[k].members;
    assert m == WithGroup(fam, g);
    forall b ensures b in m <==> b in blocks && FamilyOf(b.kind) == Some(f) && b.groupId == Some(g) {
      assert b in m <==> b in fam && b.groupId == Some(g);
      assert b in fam <==> b in blocks && FamilyOf(b.kind) == Some(f);
    }
  }

  /** A composite holding `b` sits at `b`'s own family and group position. */
  lemma HolderIsUnique(blocks: seq<Block>, k: nat, b: Block) returns (f: Family)
    requires RevertGroupBlocks(blocks).Some?
    requires k < |Regrouped(blocks)| && Regrouped(blocks)[k].Composite?
    requires b in Regrouped(blocks)[k].members
    ensures f == ImageFamily || f == TableFamily
    ensures FamilyOf(b.kind) == Some(f) && b.groupId.Some?
    ensures Offset(blocks, f) <= k < Offset(blocks, f) + |Keys(blocks, f)|
    ensures Keys(blocks, f)[k - Offset(blocks, f)] == b.groupId.value
  {
    var g;
    f, g := RevertCompositeAt(blocks, k);
    var fam := OfFamily(blocks, f);
    assert b in WithGroup(fam, g);
    assert b in fam && b.groupId == Some(g);
  }

  /** The composite of family `f`'s `i`-th key sits at `Offset(blocks, f) + i`. */
  lemma RevertFrom(blocks: seq<Block>, f: Family, i: nat)
    requires RevertGroupBlocks(blocks).Some? && i < |Made(blocks, f)|
    ensures Offset(blocks, f) + i < |Regrouped(blocks)|
    ensures Regrouped(blocks)[Offset(blocks, f) + i] == Made(blocks, f)[i]
  {
    RevertSplit(blocks);
    if f == ImageFamily {
      SplicedPlace(Regrouped(blocks), |Loose(blocks)|, Made(blocks, ImageFamily), Made(blocks, TableFamily), true, i);
    } else {
      SplicedPlace(Regrouped(blocks), |Loose(blocks)|, Made(blocks, ImageFamily), Made(blocks, TableFamily), false, i);
    }
  }

  /** Position `i` of `b` (or of `c`) is found again in a spliced list. */
  lemma SplicedPlace<T>(r: seq<T>, n: nat, b: seq<T>, c: seq<T>, inB: bool, i: nat)
    requires SplicedAfter(r, n, b, c)
    requires if inB then i < |b| else i < |c|
    ensures inB ==> n + i < |r| && r[n + i] == b[i]
    ensures !inB ==> n + |b| + i < |r| && r[n + |b| + i] == c[i]
  {
  }

  /** A block of family `f` has a group id, which is among the family's keys. */
  lemma FamilyKey(blocks: seq<Block>, f: Family, b: Block) returns (g: int)
    requires RevertGroupBlocks(blocks).Some?
    requires b in blocks && FamilyOf(b.kind) == Some(f)
    ensures b.groupId == Some(g) && g in Keys(blocks, f)
    ensures FamilyComposites(blocks, f).Some? && |Made(blocks, f)| == |Keys(blocks, f)|
  {
    RevertSucceeds(blocks);
    RevertUnfold(blocks);
    var j :| 0 <= j < |blocks| && blocks[j] == b;
    g := b.groupId.value;
    var fam := OfFamily(blocks, f);
    assert b in fam;
    var i :| 0 <= i < |fam| && fam[i] == b;
    GroupKeysSpec(fam);
  }

  /** A grouped block of the page lands in some composite. */
  lemma RevertHolder(blocks: seq<Block>, b: Block) returns (k: nat)
    requires RevertGroupBlocks(blocks).Some?
    requires b in blocks && IsGroupKind(b.kind)
    ensures k < |Regrouped(blocks)| && Regrouped(blocks)[k].Composite? && b in Regrouped(blocks)[k].members
  {
    var f := FamilyOf(b.kind).value;
    var fam := OfFamily(blocks, f);
    assert b in fam;
    var g := FamilyKey(blocks, f, b);
    var i :| 0 <= i < |Keys(blocks, f)| && Keys(blocks, f)[i] == g;
    MadeAt(blocks, f, i);
    RevertFrom(blocks, f, i);
    k := Offset(blocks, f) + i;
    assert b in WithGroup(fam, g);
  }

  lemma KeysDistinct(blocks: seq<Block>, f: Family)
    ensures Distinct(Keys(blocks, f))
  {
    GroupKeysSpec(OfFamily(blocks, f));
  }

  /** Every grouped block of the page lands in exactly one composite. */
  lemma RevertPlacesOnce(blocks: seq<Block>, b: Block)
    requires RevertGroupBlocks(blocks).Some?
    requires b in blocks && IsGroupKind(b.kind)
    ensures exists k :: 0 <= k < |Regrouped(blocks)| && Regrouped(blocks)[k].Composite? && b in Regrouped(blocks)[k].members
    ensures forall k1, k2 :: (0 <= k1 < |Regrouped(blocks)| && 0 <= k2 < |Regrouped(blocks)|
      && Regrouped(blocks)[k1].Composite? && Regrouped(blocks)[k2].Composite?
      && b in Regrouped(blocks)[k1].members && b in Regrouped(blocks)[k2].members) ==> k1 == k2
  {
    var k := RevertHolder(blocks, b);
    forall k1, k2 | (0 <= k1 < |Regrouped(blocks)| && 0 <= k2 < |Regrouped(blocks)|
      && Regrouped(blocks)[k1].Composite? && Regrouped(blocks)[k2].Composite?
      && b in Regrouped(blocks)[k1].members && b in Regrouped(blocks)[k2].members)
      ensures k1 == k2
    {
      HoldersAgree(blocks, b, k1, k2);
    }
  }

  /** Two composites holding the same block are the same entry. */
  lemma HoldersAgree(blocks: seq<Block>, b: Block, k1: nat, k2: nat)
    requires RevertGroupBlocks(blocks).Some?
    requires k1 < |Regrouped(blocks)| && Regrouped(blocks)[k1].Composite? && b in Regrouped(blocks)[k1].members
    requires k2 < |Regrouped(blocks)| && Regrouped(blocks)[k2].Composite? && b in Regrouped(blocks)[k2].members
    ensures k1 == k2
  {
    var f := HolderIsUnique(blocks, k1, b);
    var f2 := HolderIsUnique(blocks, k2, b);
    assert f2 == f;
    KeysDistinct(blocks, f);
    DistinctAt(Keys(blocks, f), k1 - Offset(blocks, f), k2 - Offset(blocks, f));
  }

  /** A composite's bbox is that of its first body member, and missing
      exactly when the group lost its body; its index is the median of its
      members' indices, so it lies between them. */
  lemma RevertCompositeBox(blocks: seq<Block>, k: nat)
    requires RevertGroupBlocks(blocks).Some?
    requires k < |Regrouped(blocks)| && Regrouped(blocks)[k].Composite?
    ensures exists f: Family :: (Regrouped(blocks)[k].kind == CompositeKind(f)
      && Regrouped(blocks)[k].bbox == FirstOfKind(Regrouped(blocks)[k].members, BodyKind(f)))
    ensures exists j :: (0 <= j < |Regrouped(blocks)[k].members| && Regrouped(blocks)[k].members[j].index.Some?
      && Regrouped(blocks)[k].members[j].index.value <= Regrouped(blocks)[k].index)
    ensures exists j :: (0 <= j < |Regrouped(blocks)[k].members| && Regrouped(blocks)[k].members[j].index.Some?
      && Regrouped(blocks)[k].index <= Regrouped(blocks)[k].members[j].index.value)
    ensures MemberIndices(Regrouped(blocks)[k].members).Some?
      && IsMedian(MemberIndices(Regrouped(blocks)[k].members).value, Regrouped(blocks)[k].index)
  {
    var f, g := RevertCompositeAt(blocks, k);
    CompositeIndexBetween(WithGroup(OfFamily(blocks, f), g), f);
  }

  // ---------------------------------------------------------------------
  // The final sort
  // ---------------------------------------------------------------------

  function ItemIndex(it: PageItem): Option<real> {
    match it
    case Single(b) => b.index
    case Composite(_, _, _, i) => Some(i)
  }

  function ItemKey(it: PageItem): real {
    if ItemIndex(it).Some? then ItemIndex(it).value else 0.0
  }

  function ByIndex(): PageItem -> real {
    (it: PageItem) => ItemKey(it)
  }

  /** `sorted(fix_blocks, key=lambda b: b['index'])`: a stable sort by index.
      The key is taken from every entry, whatever the length, so an entry
      without an index raises `KeyError` (None). */
  function SortItems(items: seq<PageItem>): (r: Option<seq<PageItem>>)
    ensures r.Some? <==> forall k :: 0 <= k < |items| ==> ItemIndex(items[k]).Some?
    ensures r.Some? ==> SortedBy(r.value, ByIndex()) && multiset(r.value) == multiset(items)
  {
    match AllSome(items, (it: PageItem) => ItemIndex(it))
    case None => None
    case Some(_) => Some(SortBy(items, ByIndex()))
  }

  // ---------------------------------------------------------------------
  // remove_outside_spans
  // ---------------------------------------------------------------------

  /** The block kinds a span of kind `c` must lie in: image spans in image
      bodies, table spans in table bodies, all others in any other kind. */
  predicate HostKind(c: ContentType, t: BlockType) {
    match c
    case Image => t == BlockType.ImageBody
    case Table => t == BlockType.TableBody
    case _ => t != BlockType.ImageBody && t != BlockType.TableBody
  }

  /** More than 40% of the span lies in a discarded block. */
  predicate InDiscarded(s: Span, discarded: seq<Conflict.PreBlock>) {
    exists k :: 0 <= k < |discarded| && discarded[k].kind == BlockType.Discarded
      && OverlapRatioInFirst(s.bbox, discarded[k].bbox) > 0.4
  }

  /** More than half of the span lies in a block of a kind that may host it. */
  predicate InHost(s: Span, all: seq<Conflict.PreBlock>) {
    exists k :: 0 <= k < |all| && HostKind(s.kind, all[k].kind)
      && OverlapRatioInFirst(s.bbox, all[k].bbox) > 0.5
  }

  predicate KeepSpan(s: Span, all: seq<Conflict.PreBlock>, discarded: seq<Conflict.PreBlock>) {
    InDiscarded(s, discarded) || InHost(s, all)
  }

  /** `a` is a subsequence of `b` (matched greedily from the back). */
  predicate IsSubsequence<T(==)>(a: seq<T>, b: seq<T>)
    decreases |b|
  {
    |a| == 0
    || (|b| > 0
        && if a[|a| - 1] == b[|b| - 1] then IsSubsequence(a[..|a| - 1], b[..|b| - 1])
           else IsSubsequence(a, b[..|b| - 1]))
  }

  /** `remove_outside_spans`: the spans inside a discarded block or a block
      that may host them, in their original order. */
  function RemoveOutsideSpans(spans: seq<Span>, all: seq<Conflict.PreBlock>, discarded: seq<Conflict.PreBlock>): (r: seq<Span>)
    ensures forall x {:trigger x in r} :: x in r <==> x in spans && KeepSpan(x, all, discarded)
  {
    if |spans| == 0 then []
    else
      var init := RemoveOutsideSpans(spans[..|spans| - 1], all, discarded);
      var s := spans[|spans| - 1];
      assert forall x :: x in spans <==> x in spans[..|spans| - 1] || x == s;
      if KeepSpan(s, all, discarded) then init + [s] else init
  }

  lemma {:induction false} SubsequenceExtend<T>(a: seq<T>, b: seq<T>, x: T)
    requires IsSubsequence(a, b)
    ensures IsSubsequence(a, b + [x])
    decreases |b|, 1
  {
    assert (b + [x])[..|b|] == b;
    if |a| > 0 && a[|a| - 1] == x {
      SubsequenceDrop(a, b);
    }
  }

  /** Dropping the last element of a subsequence leaves a subsequence. */
  lemma {:induction false} SubsequenceDrop<T>(a: seq<T>, b: seq<T>)
    requires |a| > 0 && IsSubsequence(a, b)
    ensures IsSubsequence(a[..|a| - 1], b)
    decreases |b|, 0
  {
    assert b[..|b| - 1] + [b[|b| - 1]] == b;
    if a[|a| - 1] != b[|b| - 1] {
      SubsequenceDrop(a, b[..|b| - 1]);
    }
    SubsequenceExtend(a[..|a| - 1], b[..|b| - 1], b[|b| - 1]);
  }

  /** The kept spans keep their relative order. */
  lemma {:induction false} RemoveOutsideSpansOrder(spans: seq<Span>, all: seq<Conflict.PreBlock>, discarded: seq<Conflict.PreBlock>)
    ensures IsSubsequence(RemoveOutsideSpans(spans, all, discarded), spans)
  {
    if |spans| > 0 {
      var init := spans[..|spans| - 1];
      var s := spans[|spans| - 1];
      RemoveOutsideSpansOrder(init, all, discarded);
      var r0 := RemoveOutsideSpans(init, all, discarded);
      if KeepSpan(s, all, discarded) {
        assert (r0 + [s])[..|r0|] == r0;
      } else {
        SubsequenceExtend(r0, init, s);
        assert init + [s] == spans;
      }
    }
  }

  /** A span lying wholly inside a discarded block is kept. */
  lemma InsideDiscardedKept(spans: seq<Span>, all: seq<Conflict.PreBlock>, discarded: seq<Conflict.PreBlock>, s: Span, k: nat)
    requires s in spans && s.bbox.WellFormed()
    requires k < |discarded| && discarded[k].kind == BlockType.Discarded && IsIn(s.bbox, discarded[k].bbox)
    ensures s in RemoveOutsideSpans(spans, all, discarded)
  {
    OverlapRatioInFirstFull(s.bbox, discarded[k].bbox);
  }

  /** A span that shares no area with any block is dropped. */
  lemma NowhereDropped(spans: seq<Span>, all: seq<Conflict.PreBlock>, discarded: seq<Conflict.PreBlock>, s: Span)
    requires forall k :: 0 <= k < |all| ==> !Overlaps(s.bbox, all[k].bbox)
    requires forall k :: 0 <= k < |discarded| ==> !Overlaps(s.bbox, discarded[k].bbox)
    ensures s !in RemoveOutsideSpans(spans, all, discarded)
  {
  }

  // ---------------------------------------------------------------------
  // Page records and the page range
  // ---------------------------------------------------------------------

  /** `drop_reason`: a list of reasons, or the bare string the skipped page carries. */
  datatype DropReason = Reasons(items: seq<string>) | Bare(text: string)

  /** The page dictionary of `ocr_construct_page_component_v2`, without the
      always-empty layout fields and the QA lists. */
  datatype PageInfo = PageInfo(
    blocks: seq<PageItem>, pageIdx: nat, width: real, height: real,
    discarded: seq<Block>, needDrop: bool, dropReason: DropReason)

  /** A page outside the requested range. */
  function SkippedPage(idx: nat, w: real, h: real): (r: PageInfo)
    ensures r.needDrop && r.blocks == [] && r.discarded == [] && r.dropReason == Bare("skip page")
  {
    PageInfo([], idx, w, h, [], true, Bare("skip page"))
  }

  /** Which of the two implementations. */
  datatype Variant = Functional | ClassBased

  /** The tail of `parse_page_core` / `parse_page`: a page without any kept
      block comes back with no blocks (the class variant flags it for
      dropping); otherwise the regrouped blocks are sorted by index. */
  function FinishPage(v: Variant, idx: nat, w: real, h: real, all: seq<Conflict.PreBlock>,
                      discarded: seq<Block>, ranked: seq<Block>): (r: Option<PageInfo>)
    ensures |all| == 0 ==> (r.Some? && r.value.blocks == [] && r.value.discarded == discarded
      && (r.value.needDrop <==> v == ClassBased))
    ensures v == ClassBased && |all| == 0 ==> r.value.dropReason == Reasons(["No useful bboxes found"])
    ensures v == Functional && |all| == 0 ==> r.value.dropReason == Reasons([])
    ensures |all| > 0 && r.Some? ==> (!r.value.needDrop && r.value.dropReason == Reasons([])
      && SortedBy(r.value.blocks, ByIndex()) && RevertGroupBlocks(ranked).Some?
      && multiset(r.value.blocks) == multiset(RevertGroupBlocks(ranked).value))
    ensures |all| > 0 ==> (r.Some? <==> RevertGroupBlocks(ranked).Some? && SortItems(RevertGroupBlocks(ranked).value).Some?)
  {
    if |all| == 0 then
      match v
      case Functional => Some(PageInfo([], idx, w, h, discarded, false, Reasons([])))
      case ClassBased => Some(PageInfo([], idx, w, h, discarded, true, Reasons(["No useful bboxes found"])))
    else
      match RevertGroupBlocks(ranked)
      case None => None
      case Some(items) =>
        match SortItems(items)
        case None => None
        case Some(sorted) => Some(PageInfo(sorted, idx, w, h, discarded, false, Reasons([])))
  }

  /** The last page to parse: `pdf_parse_union` falls back to the last page
      for a missing or negative bound, the class variant only for a missing one. */
  function EndPage(v: Variant, endId: Option<int>, n: nat): (r: int)
    ensures r <= n - 1
    ensures endId.Some? && endId.value <= n - 1 && (v == ClassBased || 0 <= endId.value) ==> r == endId.value
    ensures v == Functional && (endId.None? || endId.value < 0 || endId.value > n - 1) ==> r == n - 1
    ensures v == ClassBased && (endId.None? || endId.value > n - 1) ==> r == n - 1
  {
    match v
    case Functional =>
      var e := if endId.Some? && endId.value >= 0 then endId.value else n - 1;
      if e > n - 1 then n - 1 else e
    case ClassBased =>
      var e := if endId.Some? then endId.value else n - 1;
      if e < n - 1 then e else n - 1
  }

  /** The page loop: pages in `[start, end]` are parsed by `parse`, the rest skipped. */
  function ParsePages(v: Variant, n: nat, start: int, endId: Option<int>,
                      parse: nat -> PageInfo, size: nat -> (real, real)): (r: seq<PageInfo>)
    ensures |r| == n
    ensures forall i :: 0 <= i < n ==>
      r[i] == (if start <= i <= EndPage(v, endId, n) then parse(i) else SkippedPage(i, size(i).0, size(i).1))
  {
    seq(n, i requires 0 <= i < n =>
      if start <= i <= EndPage(v, endId, n) then parse(i) else SkippedPage(i, size(i).0, size(i).1))
  }

  /** A page is parsed exactly when it lies between the start and the
      requested end (clamped to the document). */
  lemma ParsedIff(v: Variant, n: nat, start: int, endId: Option<int>,
                  parse: nat -> PageInfo, size: nat -> (real, real), i: nat)
    requires i < n
    requires forall j: nat :: !parse(j).needDrop || parse(j).dropReason != Bare("skip page")
    ensures var r := ParsePages(v, n, start, endId, parse, size);
      r[i].dropReason == Bare("skip page") && r[i].needDrop
      <==> i < start || (endId.Some? && endId.value < i && (v == ClassBased || 0 <= endId.value))
  {
  }

  /** The two variants differ on a negative end bound: the functional one
      parses from `start` to the last page, the class one skips every page. */
  lemma NegativeEndDiffers(n: nat, endId: int, parse: nat -> PageInfo, size: nat -> (real, real))
    requires endId < 0
    ensures forall i :: 0 <= i < n ==> ParsePages(Functional, n, 0, Some(endId), parse, size)[i] == parse(i)
    ensures forall i :: 0 <= i < n ==> ParsePages(ClassBased, n, 0, Some(endId), parse, size)[i].needDrop
  {
  }
}
