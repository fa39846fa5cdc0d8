# panda_vision page pipeline — a Dafny model

This project models the page-level core of `panda_vision`. That core turns raw layout
detections of a PDF page into an ordered tree of blocks, lines and spans. It then splits
the tree into paragraphs and renders it as Markdown or as standard-format records. Every
stage is written as immutable datatypes and pure functions over sequences. Each stage's
contract, and the lemmas next to it, state what the stage promises. The modules follow
the pipeline, leaves first:

- `Base`: shared building blocks. It holds options and `+inf` distances, Python's `int()`
  and `round()`, `list.remove` by value, the stable `list.sort`, `statistics.median` and
  `list.index`.
- `BoxBase` (`utils/boxbase.py`): the box algebra. It covers IoU, the overlap ratios,
  containment and partial overlap, `get_minbox_if_overlap_by_ratio`, the relative position
  flags and `bbox_distance`, and the vertical projection overlap.
- `MagicModel` and `TieUp` (`model/magic_model.py`): cleanup of the detections. This covers
  axis fixing, the low-score and high-IoU passes, footnote relabelling and overlap
  reduction. It also covers `get_all_spans`, and the directional tie-up of captions and
  footnotes to image and table bodies (`__tie_up_category_by_distance_v2`).
- `Conflict` (`pre_proc/ocr_detect_all_bboxes.py` and its copy in
  `preprocessor/optimized_code.py`): block conflict resolution. This is `add_bboxes` and
  the five passes in their order: title vs text, drop-on-discard, equation vs text,
  blocks under a footnote region, and the merge of contained small blocks. The kept list
  is then sorted by `x0 + y0`.
- `SpanOps` (`preprocessor/optimized_code.py`, `preprocessor/ocr_dict_merge.py`): the two
  span dedup passes, the greedy merge of spans into lines and the left-to-right sort, the
  exclusive placement of spans into blocks, and the block fixes.
- `CharFill` and `Page` (`pdf_parse_union_core_v2.py`, `preprocessor/pdf_parser_core.py`):
  the placement of characters into spans, and `remove_outside_spans`. They also cover the
  page record, empty and skipped pages, and the page-range logic of both parsers.
- `ReadingOrder` and `XyCut` (`pdf_parse_union_core_v2.py`, `layoutreader/xycut.py`): the
  reading order. This covers the synthetic line bands and the line height, the 200-line
  gate and the 0–1000 grid. A block's index is the median of its lines' ranks. The module
  also covers the recursive XY-cut fallback and the grouping of image and table parts.
- `ParaSplit` (`para/para_split_v3.py`): paragraph and list reconstruction. Text runs are
  bounded by titles and interline equations. Each block is classified Text, List or Index.
  Neighbouring blocks are merged backwards; a merged block is emptied with the
  `lines_deleted` tag, and spans that cross a page get the `cross_page` tag.
- `TextUtil`, `MarkdownUtils` and `MkContent` (`dict2md/ocr_mkcontent.py`,
  `libs/markdown_utils.py`): rendering. This is Markdown escaping, the line-end hyphen
  rule, `detect_language`, the paragraph text, Markdown entries, standard-format records
  and `union_make`.
- `OcrUtils` (`model/sub_modules/ocr/paddleocr/ocr_utils.py`): OCR interval arithmetic.
  It covers merging and removing intervals, merging overlapping spans, the point/box
  conversions, the angle test, and formula box adjustment.
- `Classify` (`filter/pdf_classify_by_type.py`): the text-vs-scan classifier and its
  criteria.
- `Commons` (`libs/commons.py`, `utils/commons.py`, `libs/path_utils.py`): the path
  helpers, `get_top_percent_list`, `mymax`, and the bucket/key and S3 path parsers.

Boxes and scores are `real`. Every integer conversion in the source (`int()`, `round()`,
`astype(int)`) is written out. The layoutreader model, the language detector,
`math.sqrt`, `_remove_overlap_between_bbox` and the random choices are parameters of the
functions that use them. The two Python operations that remove by value,
`list.remove` and `next(...)`, are modelled literally as value removal.

## Model

| member | source | states |
|---|---|---|
| Base.IndexOf | panda_vision/pdf_parse_union_core_v2.py:331 | `list.index` finds a value exactly when it is in the list, and then returns its first position |
| Base.Range | panda_vision/pdf_parse_union_core_v2.py:364 | `np.arange(n)` lists the indices 0 to n-1 in order |
| Base.Trunc | panda_vision/model/magic_model.py:46-52 | `int()` of a float truncates toward zero: the result is the integer at most one unit closer to zero than the value |
| Base.RoundHalfEven | panda_vision/pdf_parse_union_core_v2.py:481-484 | Python's `round()` returns an integer within one half of the value, and on a tie (exactly half-way) the even one |
| Base.RoundHalfEvenUnique | panda_vision/pdf_parse_union_core_v2.py:481-484 | those two rules fix the result: any integer within one half that is even on a tie is `round(x)` |
| Base.RemoveFirst | pre_proc/ocr_detect_all_bboxes.py:111-114 | `list.remove` drops exactly one copy of a present value and leaves a list without it unchanged |
| Base.RemoveAllCounts | pre_proc/ocr_detect_all_bboxes.py:253-255 | removing a duplicate-free list of present values lowers each value's count by one exactly when it is listed |
| Base.SortBy | pre_proc/ocr_detect_all_bboxes.py:121 | `list.sort(key=...)` yields a permutation of the input that is ordered by the key |
| Base.SortBySorted | pre_proc/ocr_detect_all_bboxes.py:121 | sorting a list that is already ordered by the key leaves it as it is |
| Base.InsertByStable | pre_proc/ocr_detect_all_bboxes.py:121 | one insertion step places the new element after the elements already there with its key |
| Base.SortByStable | pre_proc/ocr_detect_all_bboxes.py:121 | `list.sort` is stable: the elements sharing a key come out in their input order |
| Base.MedianOfSorted | panda_vision/pdf_parse_union_core_v2.py:326-343 | `statistics.median` depends only on the multiset of values: it is the middle element (or mean of the two middle ones) of any sorted permutation |
| Base.MedianBounds | panda_vision/pdf_parse_union_core_v2.py:326-343 | the median lies between the smallest and the largest value |
| Base.MedianIsMedian | panda_vision/pdf_parse_union_core_v2.py:336-337 | `statistics.median` is the middle of every ascending arrangement of the values, and it is the only value that is |
| Base.Dedup | pre_proc/ocr_detect_all_bboxes.py:210-213 | a duplicate-free list holding exactly the values of the input |
| BoxBase.IsInOrder | panda_vision/utils/boxbase.py:4-60 | `_is_in` is reflexive, transitive and antisymmetric; a well-ordered box inside another overlaps it and is not a partial overlap |
| BoxBase.UnionBox | pre_proc/ocr_detect_all_bboxes.py:244-250 | the min/max merge of two boxes contains both and lies inside every box containing both |
| BoxBase.Hull | panda_vision/preprocessor/ocr_dict_merge.py:6-21 | the merged bbox of a non-empty list contains every box and each of its four edges is an edge of some member |
| BoxBase.InterAreaBounds | panda_vision/utils/boxbase.py:428-440 | the intersection area is bounded by both box areas and positive exactly when the interiors overlap |
| BoxBase.OverlapArea | panda_vision/utils/boxbase.py:428-440 | `get_overlap_area` is non-negative, at most either area when the boxes meet, and positive exactly when they overlap |
| BoxBase.OverlapAreaSymmetric | panda_vision/utils/boxbase.py:428-440 | `get_overlap_area` does not depend on the argument order |
| BoxBase.IouDefinedWellFormed | panda_vision/utils/boxbase.py:158-187 | two boxes of positive size never hit the zero-union division |
| BoxBase.Iou | panda_vision/utils/boxbase.py:158-187 | `calculate_iou` lies in [0, 1], is positive exactly when the boxes overlap and is 0 for disjoint boxes |
| BoxBase.IouSymmetric | panda_vision/utils/boxbase.py:158-187 | IoU does not depend on the argument order |
| BoxBase.IouSelf | panda_vision/utils/boxbase.py:158-187 | a box of positive size has IoU 1 with itself |
| BoxBase.IouAboveSymmetric | panda_vision/utils/boxbase.py:158-187 | the "IoU above a threshold" test does not depend on the argument order |
| BoxBase.OverlapRatioToMinBox | panda_vision/utils/boxbase.py:190-208 | `calculate_overlap_area_2_minbox_area_ratio` lies in [0, 1] and is positive exactly when the boxes overlap |
| BoxBase.OverlapRatioToMinBoxSymmetric | panda_vision/utils/boxbase.py:190-208 | the ratio to the smaller box does not depend on the argument order |
| BoxBase.OverlapRatioToMinBoxInside | panda_vision/utils/boxbase.py:190-208 | a box of positive size inside another has ratio 1 |
| BoxBase.OverlapRatioInFirst | panda_vision/utils/boxbase.py:211-228 | `calculate_overlap_area_in_bbox1_area_ratio` lies in [0, 1] and is positive exactly when the boxes overlap |
| BoxBase.OverlapRatioInFirstFull | panda_vision/utils/boxbase.py:211-228 | for a box of positive size the ratio is 1 exactly when the first box is inside the second |
| BoxBase.InterShrinks | panda_vision/utils/boxbase.py:211-228 | a box not inside the other loses area to the intersection |
| BoxBase.MinBoxIfOverlapByRatio | panda_vision/utils/boxbase.py:231-245 | a box comes back exactly when the ratio to the smaller box exceeds the threshold; it is one of the two, the one of smaller area, and the first on equal areas |
| BoxBase.RelativePos | panda_vision/utils/boxbase.py:365-382 | left/right and top/bottom never both hold for ordered boxes, and no flag is set exactly when the boxes overlap or touch |
| BoxBase.RelativePosMirror | panda_vision/utils/boxbase.py:365-382 | swapping the boxes swaps left with right and top with bottom |
| BoxBase.PointDist | panda_vision/utils/boxbase.py:396-398 | the point distance is non-negative and positive for distinct x, given a square root with those properties |
| BoxBase.BboxDistance | panda_vision/utils/boxbase.py:385-421 | `bbox_distance` is 0 exactly for overlapping or touching boxes and is the straight gap for boxes side by side or one above the other |
| BoxBase.BboxDistanceSymmetric | panda_vision/utils/boxbase.py:385-421 | the distance does not depend on the argument order |
| BoxBase.VerticalProjectionOverlapRatio | panda_vision/utils/boxbase.py:443-474 | the share of the first box's width covered by the second lies in [0, 1], is 0 for a zero-width box and is 1 exactly when the second spans the first horizontally |
| BoxBase.OverlapsYExceedsThresholdFacts | panda_vision/utils/boxbase.py:144-155 | the vertical-overlap test is symmetric, holds when one box's y-range lies inside the other's and fails for boxes apart vertically |
| Conflict.AddBboxes | pre_proc/ocr_detect_all_bboxes.py:11-57 | one record per input block with its box, score and the given type; a group id is carried exactly for the image and table group kinds |
| Conflict.FixTextOverlapTitle | pre_proc/ocr_detect_all_bboxes.py:173-198 | the title pass only removes blocks |
| Conflict.TitlePickIff | pre_proc/ocr_detect_all_bboxes.py:173-198 | the pairwise loop marks a block exactly when it is a title with IoU above 0.8 against some text block |
| Conflict.FixTextOverlapTitleSpec | pre_proc/ocr_detect_all_bboxes.py:173-198 | on a duplicate-free list the pass keeps exactly the blocks that are not such shadowed titles, in order |
| Conflict.FixTextOverlapTitleCounts | pre_proc/ocr_detect_all_bboxes.py:173-198 | on any list each value loses one copy exactly when it is a shadowed title |
| Conflict.FixInterlineOverlapText | pre_proc/ocr_detect_all_bboxes.py:145-170 | the equation pass only removes blocks |
| Conflict.InterlinePickIff | pre_proc/ocr_detect_all_bboxes.py:145-170 | the pairwise loop marks a block exactly when it is a text block with IoU above 0.8 against some interline equation |
| Conflict.FixInterlineOverlapTextSpec | pre_proc/ocr_detect_all_bboxes.py:145-170 | on a duplicate-free list the pass keeps exactly the blocks that are not such shadowed text blocks, in order |
| Conflict.FixInterlineOverlapTextCounts | pre_proc/ocr_detect_all_bboxes.py:145-170 | on any list each value loses one copy exactly when it is a shadowed text block |
| Conflict.RemoveNeedDrop | pre_proc/ocr_detect_all_bboxes.py:201-219 | the discard pass only removes blocks |
| Conflict.RemoveMatchesDistinct | pre_proc/ocr_detect_all_bboxes.py:201-219 | removing the deduplicated matches of a test from a duplicate-free list keeps exactly the non-matching blocks |
| Conflict.RemoveNeedDropSpec | pre_proc/ocr_detect_all_bboxes.py:201-219 | on a duplicate-free list the pass keeps exactly the blocks whose own-area overlap with every discarded box is at most 0.6 |
| Conflict.RemoveNeedDropCounts | pre_proc/ocr_detect_all_bboxes.py:201-219 | on any list each value loses one copy exactly when a discarded box covers more than 0.6 of it |
| Conflict.PageFootnotes | pre_proc/ocr_detect_all_bboxes.py:102-107 | the footnote regions are exactly the discarded boxes wider than a third of the page, taller than 10 and starting below the middle of the page |
| Conflict.FindBlocksUnderFootnote | pre_proc/ocr_detect_all_bboxes.py:125-142 | a duplicate-free list of exactly the blocks starting at or below some footnote's bottom edge with at least 0.8 of their width under it |
| Conflict.FirstWithBox | pre_proc/ocr_detect_all_bboxes.py:235-238 | `next(...)` finds the first block whose box equals the given one, or none when no block has it |
| Conflict.MinStep | pre_proc/ocr_detect_all_bboxes.py:228-251 | one pair step keeps the loop state well-formed and the list length |
| Conflict.MinStepWiden | pre_proc/ocr_detect_all_bboxes.py:244-250 | a pair step only widens boxes, never shrinks or moves them |
| Conflict.MinStepLater | pre_proc/ocr_detect_all_bboxes.py:226-251 | a pair step only adds to the removal list and only widens boxes |
| Conflict.MinBlocksLoop | pre_proc/ocr_detect_all_bboxes.py:226-251 | after the double loop every block is a widening of the input block at its position |
| Conflict.NeedValues | pre_proc/ocr_detect_all_bboxes.py:253-255 | the removal list holds exactly the collected blocks, one entry each |
| Conflict.RemoveOverlapsMinBlocks | pre_proc/ocr_detect_all_bboxes.py:222-257 | the output is no longer than the input and each output block is a widening of some input block |
| Conflict.RemoveOverlapsMinBlocksQuiet | pre_proc/ocr_detect_all_bboxes.py:222-257 | a list with no pair overlapping by more than 0.8 of the smaller box comes back unchanged |
| Conflict.MinStepCollects | pre_proc/ocr_detect_all_bboxes.py:231-251 | a block of positive size inside another always triggers the merge, and a block with the smaller box joins the removal list |
| Conflict.MinStepOutcome | pre_proc/ocr_detect_all_bboxes.py:234-251 | for a triggering pair the smaller box is found; if it was not collected yet it joins the removal list and the other block of the pair is widened to the union |
| Conflict.MinLoopCollects | pre_proc/ocr_detect_all_bboxes.py:222-257 | every smaller box of a triggering pair ends inside some removed block, and a newly collected one leaves the larger block containing the union |
| Conflict.RemoveOverlapsMinBlocksCounts | pre_proc/ocr_detect_all_bboxes.py:222-257 | the output is the widened list minus exactly the collected blocks, and shorter by their number |
| Conflict.Collect | pre_proc/ocr_detect_all_bboxes.py:74-84 | the nine block lists are gathered into one list holding no discarded block |
| Conflict.Resolved | pre_proc/ocr_detect_all_bboxes.py:88-94 | the title, discard and equation passes only remove blocks |
| Conflict.Cleaned | pre_proc/ocr_detect_all_bboxes.py:98-114 | kept blocks come from the input; discarded ones are the discarded inputs or moved blocks |
| Conflict.CleanedSpec | pre_proc/ocr_detect_all_bboxes.py:98-114 | a block under a footnote leaves the kept list (one copy) and joins the discarded list, which holds exactly the discarded inputs and those moved blocks |
| Conflict.Prepare | pre_proc/ocr_detect_all_bboxes.py:86-122 | the kept list is ordered by x0+y0, is a permutation of the min-block pass output, and every kept or discarded block widens some input block |
| Conflict.PrepareBlocks | pre_proc/ocr_detect_all_bboxes.py:60-122 | `ocr_prepare_bboxes_for_layout_split_v2` returns a kept list ordered by x0+y0 without discarded blocks, and both lists hold widenings of input blocks |
| MagicModel.FixAxis | panda_vision/model/magic_model.py:29-57 | removing the degenerate detections by value leaves exactly the scaled detections of positive width and height, in order |
| MagicModel.RemoveLowConfidence | panda_vision/model/magic_model.py:59-69 | removing by value leaves exactly the detections scoring above 0.05, in order |
| MagicModel.RemoveHighIou | panda_vision/model/magic_model.py:71-107 | the high-IoU pass only removes detections |
| MagicModel.PickBeaten | panda_vision/model/magic_model.py:80-101 | a pair condemns a detection only when the other one beats it (IoU above 0.9, categories 0..9, score no higher) |
| MagicModel.BeatenPicked | panda_vision/model/magic_model.py:80-101 | a beaten detection is condemned by one of the two orders of its pair |
| MagicModel.PickedIffBeaten | panda_vision/model/magic_model.py:71-107 | a detection is collected for removal exactly when some detection beats it |
| MagicModel.RemoveHighIouSpec | panda_vision/model/magic_model.py:71-107 | on a duplicate-free page a detection survives exactly when nothing beats it |
| MagicModel.RemoveHighIouCounts | panda_vision/model/magic_model.py:71-107 | on any page each value loses one copy exactly when some detection beats it |
| MagicModel.RemoveHighIouOutcomes | panda_vision/model/magic_model.py:71-107 | categories outside 0..9 always survive; of an overlapping pair the lower score goes, and an equal-score pair loses both |
| MagicModel.SideLengths | panda_vision/model/magic_model.py:120-136 | the compared lengths are the first box's height or width (heights when the boxes are side by side) |
| MagicModel.ModelDistance | panda_vision/model/magic_model.py:120-136 | `_bbox_distance` is infinite for a diagonal relation or when the second side is longer by more than 30%, else the `bbox_distance`, and 0 for overlapping boxes with no such mismatch |
| MagicModel.DMin | panda_vision/model/magic_model.py:138-198 | `min` over distances picks one of its arguments and nothing smaller than it |
| MagicModel.NearestSpec | panda_vision/model/magic_model.py:138-198 | the nearest-candidate search finds nothing exactly when every candidate lies diagonally to the footnote (more than one position flag), and otherwise attains the least distance over the others |
| MagicModel.FixFootnote | panda_vision/model/magic_model.py:138-198 | `__fix_footnote` keeps the list length and treats each detection on its own |
| MagicModel.FixOne | panda_vision/model/magic_model.py:138-198 | one detection of `__fix_footnote`; stated by `MagicModel.FixOneSpec` |
| MagicModel.FixOneSpec | panda_vision/model/magic_model.py:138-198 | box and score are kept; a detection changes exactly when it is a footnote (7) with a figure candidate at a finite distance strictly nearer than every table candidate, and then becomes an image footnote; this is the source's test `RelabelFootnote` |
| MagicModel.FixFootnoteChangesOnlyFootnotes | panda_vision/model/magic_model.py:138-198 | the same per position of the output list |
| MagicModel.FixFootnoteKeeps | panda_vision/model/magic_model.py:138-198 | relabelling keeps the boxes of positive size and the scores above 0.05 |
| MagicModel.BuildPage | panda_vision/model/magic_model.py:109-118 | after the cleanup passes every detection has a box of positive size and a score above 0.05 |
| MagicModel.DetToSpan | panda_vision/model/magic_model.py:968-1012 | a detection of categories 3, 5, 13, 14, 15 becomes an image, table, inline equation, interline equation or text span with the same box and score |
| MagicModel.SpansOfMembers | panda_vision/model/magic_model.py:968-1012 | the collected spans are exactly the conversions of the span-category detections |
| MagicModel.GetAllSpans | panda_vision/model/magic_model.py:968-1012 | `get_all_spans` returns a duplicate-free list of exactly those spans |
| TieUp.KeptBelowStep | panda_vision/model/magic_model.py:200-209 | a value is kept among the first n positions exactly when it is kept among the first n-1 or sits, kept, at position n-1 |
| TieUp.ReductPrefix | panda_vision/model/magic_model.py:200-209 | the boxes kept from the first n positions are exactly those lying inside no other position's box, and none of them lies inside another |
| TieUp.ReductStep | panda_vision/model/magic_model.py:200-209 | appending the next kept box keeps the list free of nesting and repeats |
| TieUp.ReductOverlap | panda_vision/model/magic_model.py:200-209 | `__reduct_overlap` keeps exactly the boxes inside no other box (equal boxes drop each other), and its result has no nested pair |
| TieUp.Prepared | panda_vision/model/magic_model.py:619-645 | the subjects or objects of one category are reduced, free of nesting, ordered by x0²+y0², and drawn from that category |
| TieUp.SideCand | panda_vision/model/magic_model.py:656-703 | one side's candidate of the tie-up; stated by `TieUp.SideCandSpec` |
| TieUp.SideCandSpec | panda_vision/model/magic_model.py:656-703 | a side's entry is empty exactly when the object faces no subject on that side alone; otherwise it names a faced subject at the least distance, the earliest of those |
| TieUp.LeftOrRightWith | panda_vision/model/magic_model.py:725-763 | the horizontal choice is one of the two entries, empty only when both are, and the nearer one when their distances differ by more than half the object's shorter side |
| TieUp.LeftOrRightAsWritten | panda_vision/model/magic_model.py:745-753 | the horizontal choice with sorted positions breaking near-ties: one of the entries, empty only when both are |
| TieUp.LeftOrRight | panda_vision/model/magic_model.py:780-788 | the horizontal choice with distances breaking near-ties, as the vertical choice does: one of the entries, empty only when both are |
| TieUp.LeftOrRightPrefersNearer | panda_vision/model/magic_model.py:780-788 | with equal height mismatch, the distance rule attaches to the strictly nearer side |
| TieUp.LeftOrRightAsWrittenPrefersFarther | panda_vision/model/magic_model.py:745-753 | with equal height mismatch, the position rule can attach to the farther side: a subject at distance 1 sorted sixth loses to one at distance 2 sorted first |
| TieUp.TopOrBottom | panda_vision/model/magic_model.py:765-798 | the vertical choice is one of the two entries, empty only when both are, and the nearer one when their distances differ by more than half the object's shorter side |
| TieUp.Choose | panda_vision/model/magic_model.py:705-827 | the object is attached to a subject named by one of the four side entries, and to none exactly when all four are empty; when top and bottom both exist, the priority is BOTTOM or UP, and their distances differ by less than three times the shorter side, the priority side's subject wins |
| TieUp.Assign | panda_vision/model/magic_model.py:656-827 | an object is attached to an existing subject that it faces on one side alone, and is left out exactly when it faces no subject that way |
| TieUp.CandsValid | panda_vision/model/magic_model.py:649-654 | every side entry is `[-1, inf]` or names a subject |
| TieUp.NamedFaces | panda_vision/model/magic_model.py:656-703 | a subject named by a side entry exists and is faced by the object |
| TieUp.AttachedTo | panda_vision/model/magic_model.py:828-843 | a subject's object list holds exactly the objects assigned to it |
| TieUp.Assignments | panda_vision/model/magic_model.py:656-827 | one decision per object, each made on its own |
| TieUp.TieUpPrepared | panda_vision/model/magic_model.py:828-843 | one record per subject, in sorted order, carrying the subject and its position |
| TieUp.TieUpPreparedSound | panda_vision/model/magic_model.py:828-843 | every object listed under a subject is one of the objects and its decision names that subject |
| TieUp.TieUpPreparedPartition | panda_vision/model/magic_model.py:656-843 | an object appears under some subject exactly when it faces one, and never under two subjects |
| TieUp.AttachedIff | panda_vision/model/magic_model.py:836-839 | for assignments that depend only on the object's value, an object is listed under a subject exactly when it was assigned to it |
| TieUp.TieUpByDistance | panda_vision/model/magic_model.py:600-843 | one record per reduced, sorted subject of the subject category, whose objects all come from the object category |
| TieUp.PreparedWellFormed | panda_vision/model/magic_model.py:619-645 | the prepared records keep boxes of positive size |
| TieUp.FindBySubIdx | panda_vision/model/magic_model.py:859 | `next(filter(...))` finds a record with the given subject position whenever one exists |
| TieUp.JoinGroups | panda_vision/model/magic_model.py:852-862 | each body is paired with its caption list and its footnote list, position by position |
| TieUp.GetImages | panda_vision/model/magic_model.py:845-862 | `get_imgs_v2`: one group per reduced image body, captions from category 4 and footnotes from the image-footnote category |
| TieUp.GetTables | panda_vision/model/magic_model.py:864-881 | `get_tables_v2`: one group per reduced table body, captions from category 6 and footnotes from category 7 |
| SpanOps.LowConfidenceChoice | panda_vision/preprocessor/optimized_code.py:30-35 | a pair condemns a span exactly when its IoU exceeds 0.9; of two different spans the first goes exactly when it scores lower |
| SpanOps.TagOverlap | panda_vision/preprocessor/optimized_code.py:42-44 | every dropped span is tagged as an overlap and otherwise unchanged |
| SpanOps.DroppedPartition | panda_vision/preprocessor/optimized_code.py:42-44 | the kept spans and the dropped list together are exactly the input |
| SpanOps.RemoveOverlapsLowConfidenceSpans | panda_vision/preprocessor/optimized_code.py:20-46 | kept and dropped partition the input, and the dropped list is the collected spans, each tagged |
| SpanOps.LowConfidenceDroppedFromInput | panda_vision/preprocessor/optimized_code.py:20-40 | the collected spans are distinct and come from the input |
| SpanOps.LowConfidenceSeparates | panda_vision/preprocessor/optimized_code.py:20-46 | of two different spans with IoU above 0.9 at least one is dropped |
| SpanOps.LowConfidenceDroppedLost | panda_vision/preprocessor/optimized_code.py:20-46 | a dropped span lost a pair against another span of the input |
| SpanOps.LowConfidencePair | panda_vision/preprocessor/optimized_code.py:20-46 | of an overlapping pair the lower score is dropped and on equal scores exactly one of the two survives |
| SpanOps.FirstWithBbox | panda_vision/preprocessor/optimized_code.py:60 | `next(...)` returns an input span with the given box, and nothing exactly when no span has it |
| SpanOps.MinSpanChoice | panda_vision/preprocessor/optimized_code.py:58-62 | a span is chosen only for a pair overlapping above 0.65 of the smaller box, always for such a pair of present spans, and it carries the smaller box |
| SpanOps.RemoveOverlapsMinSpans | panda_vision/preprocessor/optimized_code.py:48-68 | kept and dropped partition the input, and the dropped list is the collected spans, each tagged |
| SpanOps.MinSpansDroppedFromInput | panda_vision/preprocessor/optimized_code.py:48-63 | the collected spans are distinct and come from the input |
| SpanOps.MinSpansSeparates | panda_vision/preprocessor/optimized_code.py:48-68 | for an overlapping pair of which neither is dropped, some span carrying the smaller box is dropped |
| SpanOps.Extend | panda_vision/preprocessor/ocr_dict_merge.py:34-58 | one loop step appends the span to the last line or a new one: the lines' concatenation grows by that span |
| SpanOps.Group | panda_vision/preprocessor/ocr_dict_merge.py:24-60 | the lines are non-empty, none exactly when there are no spans, and their concatenation is the input |
| SpanOps.ExtendWellGrouped | panda_vision/preprocessor/ocr_dict_merge.py:34-58 | a loop step keeps the line-break rule: a span continues its line exactly when it does not start a new one |
| SpanOps.OpenWellGrouped | panda_vision/preprocessor/ocr_dict_merge.py:36-46 | opening a new line for a span that starts one keeps the line-break rule |
| SpanOps.JoinWellGrouped | panda_vision/preprocessor/ocr_dict_merge.py:48-54 | appending a span that does not start a new line keeps the line-break rule |
| SpanOps.GroupWellGrouped | panda_vision/preprocessor/ocr_dict_merge.py:24-60 | every line the loop forms obeys the line-break rule |
| SpanOps.WellGroupedPlain | panda_vision/preprocessor/ocr_dict_merge.py:36-54 | in a line of two or more spans there is no image, table or interline equation |
| SpanOps.WellGroupedSpecialAlone | panda_vision/preprocessor/ocr_dict_merge.py:36-46 | an image, table or interline equation span is alone on its line |
| SpanOps.GroupFlatten | panda_vision/preprocessor/ocr_dict_merge.py:24-60 | regrouping the spans of lines that obey the rule gives those lines back |
| SpanOps.WellGroupedUnique | panda_vision/preprocessor/ocr_dict_merge.py:24-60 | two line lists obeying the rule over the same span order are equal |
| SpanOps.SortedMembers | panda_vision/preprocessor/ocr_dict_merge.py:29 | sorting keeps exactly the spans of the input |
| SpanOps.MergeSpansToLine | panda_vision/preprocessor/ocr_dict_merge.py:24-60 | `merge_spans_to_line` maps [] to []; it raises `ZeroDivisionError` (None) exactly when, in y0 order, two neighbouring spans are both neither image, table nor interline equation and the smaller of their heights is zero; otherwise its lines concatenate to the spans sorted by y0 and obey the line-break rule |
| SpanOps.GroupChecked | panda_vision/preprocessor/ocr_dict_merge.py:31-54 | when the loop runs to the end, its lines are exactly those of the division-free grouping |
| SpanOps.GroupCheckedFails | panda_vision/preprocessor/ocr_dict_merge.py:36-54 | the loop fails exactly when it reaches the y-overlap test (`boxbase.py` lines 151-155) for two non-special neighbours of which one has no height |
| SpanOps.LastLine | panda_vision/preprocessor/ocr_dict_merge.py:31-54 | the last line the loop holds ends with the last span so far, and holds an image, table or interline equation exactly when that span is one |
| SpanOps.DividesPrefix | panda_vision/preprocessor/ocr_dict_merge.py:31-54 | a zero division in the spans so far is one in the spans before the last, or one between the last two |
| SpanOps.MergeSpansSingle | panda_vision/preprocessor/ocr_dict_merge.py:24-60 | a single span, whatever its height, is one line of its own |
| SpanOps.MergeSpansSpecialAlone | panda_vision/preprocessor/ocr_dict_merge.py:36-46 | whenever the merge succeeds, image, table and interline-equation spans end up alone on their line |
| SpanOps.MergeSpansCharacterized | panda_vision/preprocessor/ocr_dict_merge.py:24-60 | any line list obeying the rule over the y0-sorted spans is the function's result, unless the spans hit the zero division, in which case the result is the error |
| SpanOps.Boxes | panda_vision/preprocessor/ocr_dict_merge.py:11-16 | the boxes of the spans, position by position |
| SpanOps.SortLineSpec | panda_vision/preprocessor/ocr_dict_merge.py:6-21 | a line's spans are a permutation ordered by x0, and its bbox contains them all with each edge taken from some span |
| SpanOps.HullWitness | panda_vision/preprocessor/ocr_dict_merge.py:11-16 | each edge of the line bbox is an edge of a span of the line |
| SpanOps.LineSortSpansByLeftToRight | panda_vision/preprocessor/ocr_dict_merge.py:6-21 | one line object per span list |
| SpanOps.LineSortAt | panda_vision/preprocessor/ocr_dict_merge.py:6-21 | the i-th line object is built from the i-th span list alone |
| SpanOps.LineSortSorted | panda_vision/preprocessor/ocr_dict_merge.py:6-21 | every line's spans are ordered by x0 and non-empty |
| SpanOps.LineSpansSnoc | panda_vision/preprocessor/ocr_dict_merge.py:6-21 | the spans of the lines followed by one more line are the old spans followed by its spans |
| SpanOps.LineSortKeepsSpans | panda_vision/preprocessor/ocr_dict_merge.py:6-21 | the line objects hold exactly the spans of the span lists |
| SpanOps.FirstHost | panda_vision/preprocessor/ocr_dict_merge.py:63-93 | the block a span goes to is a position of the block list |
| SpanOps.FirstHostSpec | panda_vision/preprocessor/ocr_dict_merge.py:70-86 | a span goes to the first block holding more than `radio` of its area, and nowhere exactly when no block does |
| SpanOps.FilterSplit | panda_vision/preprocessor/ocr_dict_merge.py:86-91 | splitting a list by a test and its complement loses and adds nothing |
| SpanOps.FillSpansInBlocks | panda_vision/preprocessor/ocr_dict_merge.py:63-93 | one filled block per block, with its type and bbox, and a group id exactly for the image and table kinds |
| SpanOps.FillSpansPartition | panda_vision/preprocessor/ocr_dict_merge.py:63-93 | the placed spans plus the leftover spans are exactly the input |
| SpanOps.FillSpansPlaced | panda_vision/preprocessor/ocr_dict_merge.py:63-93 | block k holds exactly the spans whose first host is block k, in input order |
| SpanOps.FillSpansPlacedFirst | panda_vision/preprocessor/ocr_dict_merge.py:70-86 | the first block holds exactly the spans it hosts |
| SpanOps.FillSpansPlacedLater | panda_vision/preprocessor/ocr_dict_merge.py:86-91 | a later block holds exactly the spans whose first host it is, once the earlier blocks took theirs |
| SpanOps.FillSpansShift | panda_vision/preprocessor/ocr_dict_merge.py:86-91 | block k after the first block is what block k-1 gets from the remaining blocks and spans |
| SpanOps.FirstHostTail | panda_vision/preprocessor/ocr_dict_merge.py:70-86 | block k is the first host exactly when the first block does not host the span and block k is first among the rest |
| SpanOps.FirstHostShift | panda_vision/preprocessor/ocr_dict_merge.py:86-91 | filtering by the first block, then by first host among the rest, is filtering by first host |
| SpanOps.FillSpansLeftover | panda_vision/preprocessor/ocr_dict_merge.py:63-93 | the leftover spans are exactly those no block hosts, in input order |
| SpanOps.FillSpansExclusive | panda_vision/preprocessor/ocr_dict_merge.py:63-93 | a placed span is hosted by its block, by no earlier block, sits in no other block and is not left over |
| SpanOps.InlineAll | panda_vision/preprocessor/ocr_dict_merge.py:122-131 | each interline equation span becomes an inline equation and nothing else changes |
| SpanOps.FormLines | panda_vision/preprocessor/ocr_dict_merge.py:122-139 | forming lines fails exactly on the merge's zero division; otherwise the lines hold exactly the given spans, each line non-empty and ordered by x0 |
| SpanOps.NoInterline | panda_vision/preprocessor/ocr_dict_merge.py:122-131 | after the conversion no span is an interline equation |
| SpanOps.FixTextBlock | panda_vision/preprocessor/ocr_dict_merge.py:122-131 | `fix_text_block` fails exactly when its converted spans hit the merge's zero division; otherwise it keeps type, bbox and group id and turns the converted spans into lines with no interline equation |
| SpanOps.FixInterlineBlock | panda_vision/preprocessor/ocr_dict_merge.py:134-139 | `fix_interline_block` fails exactly when its spans hit the merge's zero division; otherwise it keeps type, bbox and group id and turns the spans, unconverted, into lines |
| SpanOps.FixBlock | panda_vision/preprocessor/ocr_dict_merge.py:99-108 | a kept block fails exactly when its spans (converted first, for the text family) hit the merge's zero division |
| SpanOps.FixBlockSpans | panda_vision/preprocessor/ocr_dict_merge.py:96-111 | `fix_block_spans_v2` fails exactly when some text-family or body-family block fails to form lines; otherwise it keeps exactly those blocks, in order, each fixed on its own |
| SpanOps.FixBlockSpansKinds | panda_vision/preprocessor/ocr_dict_merge.py:96-111 | when the fix succeeds, every output block is of a routed kind, and text-family blocks hold no interline equation |
| SpanOps.FixDiscardedBlock | panda_vision/preprocessor/ocr_dict_merge.py:114-119 | `fix_discarded_block` fails exactly when some discarded block's converted spans hit the merge's zero division; otherwise it keeps the count, types and boxes, and turns the converted spans into lines |
| Page.Tagged | panda_vision/pdf_parse_union_core_v2.py:522-527 | every caption or footnote of group i carries group id i and is otherwise unchanged |
| Page.ProcessGroups | panda_vision/pdf_parse_union_core_v2.py:515-528 | `process_groups` yields one body per group, the i-th being group i's body with group id i |
| Page.ProcessGroupsParts | panda_vision/pdf_parse_union_core_v2.py:515-528 | the caption (or footnote) list is the groups' captions in order, each tagged with the id of a group, ids never decreasing along the list |
| Page.TaggedPartFacts | panda_vision/pdf_parse_union_core_v2.py:519-527 | the same facts for the list built group by group |
| Page.ProcessGroupsMembers | panda_vision/pdf_parse_union_core_v2.py:515-528 | a block is in the caption (or footnote) list exactly when it is some group's caption tagged with that group's id |
| Page.TaggedPartMembers | panda_vision/pdf_parse_union_core_v2.py:519-527 | the same membership for the list built group by group |
| Page.FamilyOf | panda_vision/pdf_parse_union_core_v2.py:550-559 | a block type belongs to the image or table family exactly when it is one of the six group kinds |
| Page.Loose | panda_vision/pdf_parse_union_core_v2.py:560-561 | the blocks outside both families, in order |
| Page.OfFamily | panda_vision/pdf_parse_union_core_v2.py:550-559 | the blocks of one family, in order |
| Page.WithGroup | panda_vision/pdf_parse_union_core_v2.py:550-559 | the blocks carrying a given group id, in order |
| Page.GroupKeysSpec | panda_vision/pdf_parse_union_core_v2.py:550-559 | the dictionary keys exist exactly when every family block has a group id; they are distinct and are exactly the ids that occur |
| Page.FirstOfKindFirst | panda_vision/pdf_parse_union_core_v2.py:535 | `next(...)` finds the bbox of the first body block, and nothing exactly when there is none |
| Page.MemberIndicesSpec | panda_vision/pdf_parse_union_core_v2.py:532 | the members' indices are collected exactly when every member has one, position by position |
| Page.ProcessBlockList | panda_vision/pdf_parse_union_core_v2.py:531-542 | `process_block_list` makes a composite of the family's kind holding the members, whose bbox is the first body's bbox (empty without a body) and whose index is the median of the members' indices |
| Page.ProcessBlockListSome | panda_vision/pdf_parse_union_core_v2.py:531-542 | the composite is made exactly when every member has an index |
| Page.CompositeIndexBetween | panda_vision/pdf_parse_union_core_v2.py:532-533 | the composite's index is the median of the members' indices (the middle of any ascending arrangement of them), so it lies between the smallest and largest |
| Page.Composites | panda_vision/pdf_parse_union_core_v2.py:563-567 | one composite per group key |
| Page.CompositesAt | panda_vision/pdf_parse_union_core_v2.py:563-567 | the i-th composite is the one built from the i-th key's members |
| Page.CompositesSomeIff | panda_vision/pdf_parse_union_core_v2.py:563-567 | the composites exist exactly when each key's composite does |
| Page.Singles | panda_vision/pdf_parse_union_core_v2.py:560-561 | every ungrouped block is passed through unchanged, in order |
| Page.FamilyComposites | panda_vision/pdf_parse_union_core_v2.py:545-569 | one composite per distinct group id of the family |
| Page.CompositesSucceed | panda_vision/pdf_parse_union_core_v2.py:563-567 | with every member indexed and every key present, the composites exist |
| Page.CompositesFail | panda_vision/pdf_parse_union_core_v2.py:532 | a member of a listed group without an index makes the composites fail |
| Page.KeyPresent | panda_vision/pdf_parse_union_core_v2.py:551-554 | every family block's group id is one of the keys |
| Page.FamilySucceeds | panda_vision/pdf_parse_union_core_v2.py:545-569 | a family regroups exactly when each of its blocks has a group id and an index |
| Page.FamilyComplete | panda_vision/pdf_parse_union_core_v2.py:545-569 | a family whose blocks all have group ids and indices regroups |
| Page.FamilyIncomplete | panda_vision/pdf_parse_union_core_v2.py:545-569 | a family block without a group id or index makes the family fail |
| Page.RevertGroupBlocks | panda_vision/pdf_parse_union_core_v2.py:545-569 | `revert_group_blocks`; stated by `Page.RevertSucceeds`, `Page.RevertShape`, `Page.RevertComposite`, `Page.RevertPlacesOnce` and `Page.RevertCompositeBox` |
| Page.RevertSucceeds | panda_vision/pdf_parse_union_core_v2.py:545-569 | `revert_group_blocks` succeeds exactly when every grouped block has a group id and an index |
| Page.RevertSplit | panda_vision/pdf_parse_union_core_v2.py:545-569 | the result is the ungrouped blocks followed by the image composites, then the table composites |
| Page.RevertPrefix | panda_vision/pdf_parse_union_core_v2.py:560-561 | the result starts with the ungrouped blocks in order |
| Page.RevertUnfold | panda_vision/pdf_parse_union_core_v2.py:545-569 | the result is exactly those three parts concatenated |
| Page.MadeAt | panda_vision/pdf_parse_union_core_v2.py:563-567 | the i-th image (or table) composite is built from the i-th key's members |
| Page.RevertAt | panda_vision/pdf_parse_union_core_v2.py:563-567 | a position after the ungrouped blocks holds the matching composite of one family |
| Page.RevertShape | panda_vision/pdf_parse_union_core_v2.py:545-569 | the result has one entry per ungrouped block and per group, the entries after the ungrouped ones are all composites, and the keys are distinct |
| Page.RevertCompositeAt | panda_vision/pdf_parse_union_core_v2.py:545-569 | each composite is `process_block_list` of the non-empty member list of one group id of one family |
| Page.RevertComposite | panda_vision/pdf_parse_union_core_v2.py:545-569 | each composite holds exactly the blocks of its family with its group id |
| Page.HolderIsUnique | panda_vision/pdf_parse_union_core_v2.py:545-569 | a composite holding a block sits at the position of that block's group id |
| Page.RevertFrom | panda_vision/pdf_parse_union_core_v2.py:563-567 | the composites sit after the ungrouped blocks in key order |
| Page.FamilyKey | panda_vision/pdf_parse_union_core_v2.py:551-554 | a family block's group id is a key and the family regroups |
| Page.RevertHolder | panda_vision/pdf_parse_union_core_v2.py:545-569 | every grouped block lands in some composite |
| Page.KeysDistinct | panda_vision/pdf_parse_union_core_v2.py:551-554 | each group id becomes one dictionary key |
| Page.RevertPlacesOnce | panda_vision/pdf_parse_union_core_v2.py:545-569 | every grouped block lands in exactly one composite |
| Page.HoldersAgree | panda_vision/pdf_parse_union_core_v2.py:545-569 | two composites holding the same block are the same entry |
| Page.RevertCompositeBox | panda_vision/pdf_parse_union_core_v2.py:531-542 | each composite's bbox is its first body's bbox and its index is the median of its members' indices, between the smallest and the largest |
| Page.SortItems | panda_vision/pdf_parse_union_core_v2.py:740 | the sort by index fails (the key function raises) exactly when some entry, even a lone one, has no index; otherwise it is a permutation ordered by index |
| Page.RemoveOutsideSpans | panda_vision/pdf_parse_union_core_v2.py:572-611 | a span is kept exactly when more than 0.4 of it lies in a discarded block or more than 0.5 in a block of a kind that may hold it |
| Page.SubsequenceExtend | panda_vision/pdf_parse_union_core_v2.py:586-611 | a subsequence stays one when the longer list grows |
| Page.SubsequenceDrop | panda_vision/pdf_parse_union_core_v2.py:586-611 | dropping the last element keeps a subsequence |
| Page.RemoveOutsideSpansOrder | panda_vision/pdf_parse_union_core_v2.py:586-611 | the kept spans keep their original order |
| Page.InsideDiscardedKept | panda_vision/pdf_parse_union_core_v2.py:589-592 | a span of positive size inside a discarded block is kept |
| Page.NowhereDropped | panda_vision/pdf_parse_union_core_v2.py:572-611 | a span overlapping no block and no discarded block is dropped |
| Page.SkippedPage | panda_vision/pdf_parse_union_core_v2.py:813-816 | a skipped page is dropped with reason "skip page" and has no blocks |
| Page.FinishPage | panda_vision/pdf_parse_union_core_v2.py:696-760 | a page without blocks keeps its discarded blocks and is dropped ("No useful bboxes found") only in the class-based parser; otherwise the page holds the regrouped blocks sorted by index, and fails exactly when regrouping or sorting does |
| Page.EndPage | panda_vision/pdf_parse_union_core_v2.py:783-791 | the last page is the requested one when in range (a negative request means "to the end" in the functional parser only) and otherwise the document's last page |
| Page.ParsePages | panda_vision/pdf_parse_union_core_v2.py:803-816 | one page per document page: parsed inside [start, end], skipped outside |
| Page.ParsedIff | panda_vision/pdf_parse_union_core_v2.py:803-816 | a page is skipped exactly when it lies before the start or after a requested end that the parser honours |
| Page.NegativeEndDiffers | panda_vision/preprocessor/pdf_parser_core.py:578-592 | a negative end page parses every page in the functional parser and skips every page in the class-based one |
| ReadingOrder.Bands | panda_vision/pdf_parse_union_core_v2.py:410-418 | n virtual lines of the block's width, stacked from the top edge one line height apart (none for n ≤ 0) |
| ReadingOrder.NextBand | panda_vision/pdf_parse_union_core_v2.py:415-417 | each band starts where the previous one ends |
| ReadingOrder.InsertLinesIntoBlock | panda_vision/pdf_parse_union_core_v2.py:382-421 | a block at most three line heights tall is its own single line; otherwise the bands share the block's x-range, start at its top and are contiguous; the split is defined whenever the line height and the width are non-zero; the band count and height of each case are stated by `ReadingOrder.InsertLinesShape` |
| ReadingOrder.TruncBandsCover | panda_vision/pdf_parse_union_core_v2.py:394 | `int(h / line_height) + 1` bands are at least four and reach past the block's height |
| ReadingOrder.QuotientAbove | panda_vision/pdf_parse_union_core_v2.py:390-394 | a block more than three line heights tall has a quotient above 3 |
| ReadingOrder.InsertLinesShape | panda_vision/pdf_parse_union_core_v2.py:390-421 | a possible column, or a block a quarter to 0.4 of the page wide, is cut into `int(h / line_height) + 1` bands one line height tall; a narrow tall block stays whole; a narrow stout one is cut into two equal bands ending at its bottom |
| ReadingOrder.InsertLinesCover | panda_vision/pdf_parse_union_core_v2.py:390-418 | the bands reach the bottom of the block, and a wide block outside the two-column case is cut into exactly three bands ending at its bottom |
| ReadingOrder.InsertLinesNonEmpty | panda_vision/pdf_parse_union_core_v2.py:382-421 | the split yields at least one line |
| ReadingOrder.PrepareBlock | panda_vision/pdf_parse_union_core_v2.py:426-449 | type and bbox are kept; a body saves its lines as real lines; a text-family block with lines and any other block are unchanged; the virtual lines exist whenever line height and width are non-zero |
| ReadingOrder.PrepareBlocks | panda_vision/pdf_parse_union_core_v2.py:424-449 | every block is prepared on its own, and the page fails exactly when one block does |
| ReadingOrder.ScaleBox | panda_vision/pdf_parse_union_core_v2.py:459-488 | a line box clamped to the page and scaled passes the assertion only with 0 ≤ left ≤ right ≤ 1000 and 0 ≤ top ≤ bottom ≤ 1000 |
| ReadingOrder.ScaledMonotone | panda_vision/pdf_parse_union_core_v2.py:481-484 | scaling and rounding keeps the order of coordinates |
| ReadingOrder.ScaledEnds | panda_vision/pdf_parse_union_core_v2.py:455-456 | the page edges scale to 0 and 1000 |
| ReadingOrder.ScaledAxis | panda_vision/pdf_parse_union_core_v2.py:459-486 | an ordered pair of clamped coordinates scales into [0, 1000] in order |
| ReadingOrder.ScaleBoxOnPage | panda_vision/pdf_parse_union_core_v2.py:459-486 | an ordered box touching the page always passes the assertion |
| ReadingOrder.ScaleAll | panda_vision/pdf_parse_union_core_v2.py:459-488 | every line box is scaled on its own, and the page fails exactly when one box does |
| ReadingOrder.Pick | panda_vision/pdf_parse_union_core_v2.py:489-495 | the sorted list takes the line boxes in the model's order |
| ReadingOrder.OrderInRange | panda_vision/pdf_parse_union_core_v2.py:489-495 | an order for n boxes has n entries, each below n |
| ReadingOrder.PickPermutes | panda_vision/pdf_parse_union_core_v2.py:489-495 | picking by a permutation keeps exactly the line boxes |
| ReadingOrder.SortLinesByModel | panda_vision/pdf_parse_union_core_v2.py:424-495 | more than 200 lines gives None; otherwise the order is a permutation of the page's lines, taken from the prepared blocks |
| ReadingOrder.RankAfterModel | panda_vision/pdf_parse_union_core_v2.py:326-343 | after a successful model sort every block's lines (or own bbox) are found in the order, so ranking succeeds |
| ReadingOrder.GetLineHeight | panda_vision/pdf_parse_union_core_v2.py:498-512 | the typical line height is 10 without text lines, and otherwise the median line height, lying between the smallest and the largest |
| ReadingOrder.GetLineHeightUniform | panda_vision/pdf_parse_union_core_v2.py:498-512 | lines all of one height give that height |
| ReadingOrder.Positions | panda_vision/pdf_parse_union_core_v2.py:333-335 | each line's index is the first position of its bbox in the order, and the lookup fails exactly when a bbox is missing |
| ReadingOrder.Ranked | panda_vision/pdf_parse_union_core_v2.py:333-335 | every line gets its position and is otherwise unchanged |
| ReadingOrder.RestoreBody | panda_vision/pdf_parse_union_core_v2.py:340-343 | a body gets its saved real lines back and fails without them; other blocks are unchanged |
| ReadingOrder.RankBlock | panda_vision/pdf_parse_union_core_v2.py:328-343 | a block keeps type and bbox and gets an index: its own position without lines, else the median of its lines' positions, each line getting its position; a body ends with its real lines; it succeeds when all boxes are found |
| ReadingOrder.RankBlockMedian | panda_vision/pdf_parse_union_core_v2.py:336-337 | a block's index is the median of its lines' positions (the middle of any ascending arrangement of them), so it lies between the smallest and largest |
| ReadingOrder.RankByOrder | panda_vision/pdf_parse_union_core_v2.py:326-343 | each block is ranked on its own, and the page fails exactly when one block does |
| ReadingOrder.ListedInPageLines | panda_vision/pdf_parse_union_core_v2.py:424-449 | every line of a block is on the page's line list |
| ReadingOrder.PreparedHasLines | panda_vision/pdf_parse_union_core_v2.py:432-449 | after preparation a text-family or body block has lines, and a body has its real lines saved |
| ReadingOrder.ListedInOrder | panda_vision/pdf_parse_union_core_v2.py:489-495 | every line of a prepared block is in the model's order |
| ReadingOrder.Boxes | panda_vision/pdf_parse_union_core_v2.py:346-348 | the blocks' bboxes, position by position |
| ReadingOrder.InRange | panda_vision/pdf_parse_union_core_v2.py:364-366 | XY-cut's output is usable as an order exactly when each entry is a position of the box list |
| ReadingOrder.CutOrder | panda_vision/pdf_parse_union_core_v2.py:363-365 | for any integer boxes, negative coordinates included, a successful cut yields one position per box, each a valid position |
| ReadingOrder.Shuffled | panda_vision/pdf_parse_union_core_v2.py:361-364 | the shuffled integer boxes are the truncated boxes in the shuffle's order |
| ReadingOrder.XyCutOrder | panda_vision/pdf_parse_union_core_v2.py:361-366 | for any block boxes a successful cut yields one box per block |
| ReadingOrder.SubMultisetFull | panda_vision/pdf_parse_union_core_v2.py:365 | a sub-multiset of the same size is the whole |
| ReadingOrder.RangeMembers | panda_vision/pdf_parse_union_core_v2.py:364 | the members of `np.arange(n)` are 0..n-1 |
| ReadingOrder.CutOrderIsOrder | panda_vision/pdf_parse_union_core_v2.py:364-365 | whenever the cut succeeds it is a permutation of the positions, as the assertion demands |
| ReadingOrder.ShuffledNonNeg | panda_vision/pdf_parse_union_core_v2.py:361-364 | shuffling keeps non-negative boxes non-negative |
| ReadingOrder.ShuffledProper | panda_vision/pdf_parse_union_core_v2.py:361-364 | shuffling keeps proper boxes proper |
| ReadingOrder.XyCutOrderPermutes | panda_vision/pdf_parse_union_core_v2.py:361-366 | for any block boxes, the sorted boxes of a successful cut are a permutation of the block boxes |
| ReadingOrder.CutInRange | panda_vision/pdf_parse_union_core_v2.py:364-365 | the cut's entries are positions of the list |
| ReadingOrder.CutOrderExists | panda_vision/pdf_parse_union_core_v2.py:364-365 | the cut succeeds on a non-empty list of non-negative proper boxes |
| ReadingOrder.XyCutOrderExists | panda_vision/pdf_parse_union_core_v2.py:361-366 | the sorted boxes exist for any shuffle of such blocks |
| ReadingOrder.RestoreAll | panda_vision/pdf_parse_union_core_v2.py:350-354 | every block is restored on its own, and the page fails exactly when a body has no saved lines |
| ReadingOrder.RankByBox | panda_vision/pdf_parse_union_core_v2.py:368-369 | each block's index is the first position of its bbox in the sorted boxes, and ranking fails exactly when a bbox is missing |
| ReadingOrder.NumberFrom | panda_vision/pdf_parse_union_core_v2.py:373-377 | lines are numbered consecutively from the start value |
| ReadingOrder.NumberFromConcat | panda_vision/pdf_parse_union_core_v2.py:373-377 | numbering two runs in a row continues the count |
| ReadingOrder.PosIn | panda_vision/pdf_parse_union_core_v2.py:372 | a block's place in the sorted order |
| ReadingOrder.NumberLines | panda_vision/pdf_parse_union_core_v2.py:372-377 | each block's lines are numbered from the count of lines before it in index order |
| ReadingOrder.RangeDistinct | panda_vision/pdf_parse_union_core_v2.py:364 | `np.arange(n)` has no repeats |
| ReadingOrder.LinesReadSnoc | panda_vision/pdf_parse_union_core_v2.py:374-377 | reading one more block appends its lines |
| ReadingOrder.PosInAt | panda_vision/pdf_parse_union_core_v2.py:372 | a block found at a place of the order is found there again |
| ReadingOrder.NumberLinesPrefix | panda_vision/pdf_parse_union_core_v2.py:373-377 | the lines read in index order are numbered 1, 2, 3, … |
| ReadingOrder.RankByXyCut | panda_vision/pdf_parse_union_core_v2.py:344-377 | the XY-cut branch keeps every block's type and bbox, ranks it by its box's position in the cut order, and keeps its (real) lines up to their numbers |
| ReadingOrder.RankedRestored | panda_vision/pdf_parse_union_core_v2.py:344-377 | restoring, ranking and numbering give each block that outcome |
| ReadingOrder.RankAndNumber | panda_vision/pdf_parse_union_core_v2.py:368-377 | ranking and numbering succeed exactly when ranking does, one block per block |
| ReadingOrder.RankAndNumberBlock | panda_vision/pdf_parse_union_core_v2.py:368-377 | each block keeps its type, bbox and lines (up to numbers) and gets its box's position |
| ReadingOrder.RankAndNumberNumbering | panda_vision/pdf_parse_union_core_v2.py:371-377 | the lines read in block-index order are numbered consecutively from 1 |
| ReadingOrder.ReadOrderSorted | panda_vision/pdf_parse_union_core_v2.py:372 | the reading order visits blocks by non-decreasing index |
| ReadingOrder.RankByXyCutSucceeds | panda_vision/pdf_parse_union_core_v2.py:344-377 | for non-negative proper boxes and bodies with saved lines the branch always succeeds |
| ReadingOrder.RankByXyCutSome | panda_vision/pdf_parse_union_core_v2.py:344-377 | for any blocks, the branch succeeds exactly when the cut, the restore and the ranking do |
| ReadingOrder.RestoredInOrder | panda_vision/pdf_parse_union_core_v2.py:366-369 | for any blocks whose cut and restore succeed, every restored block's bbox is found in the cut order, so the ranking succeeds |
| ReadingOrder.RestoreAllBody | panda_vision/pdf_parse_union_core_v2.py:350-354 | a restored body holds its saved lines and other blocks keep theirs, with type and bbox |
| XyCut.MaxCoord | panda_vision/model/sub_modules/reading_oreder/layoutreader/xycut.py:19 | the profile length is a coordinate of one of the boxes on the axis and bounds every box's extent on it |
| XyCut.SliceBound | panda_vision/model/sub_modules/reading_oreder/layoutreader/xycut.py:24 | a slice bound of `res[start:end]` lands in [0, len]: a bound already in range is kept, a negative one counts back from the end, and one before the start is 0 |
| XyCut.Stack | panda_vision/model/sub_modules/reading_oreder/layoutreader/xycut.py:20-24 | adding one per box over its extent yields at each position the number of boxes covering it |
| XyCut.ProjectionByBboxes | panda_vision/model/sub_modules/reading_oreder/layoutreader/xycut.py:6-25 | an axis other than 0 or 1, an empty box list (`np.max` of nothing) or a negative largest coordinate (`np.zeros` of a negative size) is the error, so non-negative boxes never fail; otherwise the histogram has the length of the largest coordinate and counts at each position the boxes whose slice `res[start:end]` covers it, a negative bound counting from the end as in numpy |
| XyCut.ExactBounds | panda_vision/model/sub_modules/reading_oreder/layoutreader/xycut.py:19-24 | for non-negative boxes each box's slice is exactly its own extent on the axis |
| XyCut.DepthCovered | panda_vision/model/sub_modules/reading_oreder/layoutreader/xycut.py:23-24 | a position inside some box's extent has a positive count |
| XyCut.DepthWitness | panda_vision/model/sub_modules/reading_oreder/layoutreader/xycut.py:23-24 | a positive count has a box covering that position |
| XyCut.DepthZero | panda_vision/model/sub_modules/reading_oreder/layoutreader/xycut.py:23-24 | a zero count has no box covering that position |
| XyCut.Above | panda_vision/model/sub_modules/reading_oreder/layoutreader/xycut.py:34 | `np.where(arr > min_value)` gives, in increasing order, exactly the positions whose value exceeds the threshold |
| XyCut.Runs | panda_vision/model/sub_modules/reading_oreder/layoutreader/xycut.py:38-44 | the groups are non-empty and the last ends one past the last position above the threshold |
| XyCut.RunsSeparated | panda_vision/model/sub_modules/reading_oreder/layoutreader/xycut.py:38-44 | the groups are in order, apart from one another, and consecutive groups are more than the minimum gap apart |
| XyCut.RunsAppendSeparated | panda_vision/model/sub_modules/reading_oreder/layoutreader/xycut.py:40-44 | opening a new group after a gap keeps the groups ordered and gapped |
| XyCut.RunsExtendSeparated | panda_vision/model/sub_modules/reading_oreder/layoutreader/xycut.py:40-44 | extending the last group keeps the groups ordered and gapped |
| XyCut.RunsEndBelow | panda_vision/model/sub_modules/reading_oreder/layoutreader/xycut.py:44 | every group ends at most one past the position being added |
| XyCut.RunsStarts | panda_vision/model/sub_modules/reading_oreder/layoutreader/xycut.py:43 | every group starts at a position above the threshold |
| XyCut.RunsCover | panda_vision/model/sub_modules/reading_oreder/layoutreader/xycut.py:38-44 | every position above the threshold lies inside a group |
| XyCut.RunsEndStart | panda_vision/model/sub_modules/reading_oreder/layoutreader/xycut.py:38-44 | adding a position only changes the last group |
| XyCut.SplitProjectionProfile | panda_vision/model/sub_modules/reading_oreder/layoutreader/xycut.py:28-46 | the profile has no groups (None) exactly when no value exceeds the threshold |
| XyCut.SplitProjectionProfileSpec | panda_vision/model/sub_modules/reading_oreder/layoutreader/xycut.py:28-46 | the groups are ordered, more than the gap apart, start at and cover positions above the threshold, and the last ends one past the last such position |
| XyCut.BeforeStartUncovered | panda_vision/model/sub_modules/reading_oreder/layoutreader/xycut.py:43 | the position just before a group's start lies in no group |
| XyCut.BeforeStartEmpty | panda_vision/model/sub_modules/reading_oreder/layoutreader/xycut.py:34-43 | the profile is empty just before a group's start |
| XyCut.ProfileSome | panda_vision/model/sub_modules/reading_oreder/layoutreader/xycut.py:58-75 | a profile of non-empty boxes always splits, and a box's start falls inside one of the groups |
| XyCut.ProfileAnchored | panda_vision/model/sub_modules/reading_oreder/layoutreader/xycut.py:58-59 | the groups are ordered and apart, and for non-negative boxes every group starts at some box's start |
| XyCut.ProfileAnchoredNonNeg | panda_vision/model/sub_modules/reading_oreder/layoutreader/xycut.py:58-59 | for non-negative boxes every group of the profile starts at some box's start |
| XyCut.StartAnchored | panda_vision/model/sub_modules/reading_oreder/layoutreader/xycut.py:19-44 | for non-negative boxes, a group's first position is some box's start |
| XyCut.ChunkSize | panda_vision/model/sub_modules/reading_oreder/layoutreader/xycut.py:64-89 | when every group starts at some box's start, each group's chunk of boxes is non-empty, and with two groups or more it is smaller than the whole, so the recursion shrinks |
| XyCut.ChunkSizeAnchored | panda_vision/model/sub_modules/reading_oreder/layoutreader/xycut.py:64-89 | the same two bounds, given that every group starts at some box's start |
| XyCut.ChunkKeeps | panda_vision/model/sub_modules/reading_oreder/layoutreader/xycut.py:65-68 | chunks of non-negative or proper boxes stay so |
| XyCut.SortKeepsMembers | panda_vision/model/sub_modules/reading_oreder/layoutreader/xycut.py:54-72 | sorting by a coordinate keeps exactly the same boxes |
| XyCut.ChunksCount | panda_vision/model/sub_modules/reading_oreder/layoutreader/xycut.py:64-68 | over the first n groups each box is taken as many times as it occurs when its start lies in one of them, and never otherwise |
| XyCut.ChunksKeep | panda_vision/model/sub_modules/reading_oreder/layoutreader/xycut.py:64-68 | the chunks together never hold more than the boxes, and hold all of them when every box starts in a group |
| XyCut.ProperProfile | panda_vision/model/sub_modules/reading_oreder/layoutreader/xycut.py:58-75 | on a non-empty list of non-negative proper boxes the profile always splits and every box starts inside a group |
| XyCut.XYCut | panda_vision/model/sub_modules/reading_oreder/layoutreader/xycut.py:49-90 | a successful cut emits each index at most as often as given; on a non-empty list of non-negative boxes it always succeeds, and emits exactly the given indices when all boxes are proper |
| XyCut.Bands | panda_vision/model/sub_modules/reading_oreder/layoutreader/xycut.py:64-90 | a successful pass over the row bands draws its output from the row chunks; it succeeds for non-negative boxes anchored in the bands, with all of the chunks when the boxes are proper |
| XyCut.BandOut | panda_vision/model/sub_modules/reading_oreder/layoutreader/xycut.py:70-90 | a band emits a sub-multiset of its boxes; a non-empty band of non-negative boxes always succeeds, emitting all of them when proper; the single-column case is stated by `XyCut.BandOutSingleColumn` |
| XyCut.BandOutSingleColumn | panda_vision/model/sub_modules/reading_oreder/layoutreader/xycut.py:76-82 | a band whose x profile forms a single column emits exactly its boxes, sorted by x0 |
| XyCut.Columns | panda_vision/model/sub_modules/reading_oreder/layoutreader/xycut.py:84-90 | a successful pass over the columns draws its output from the column chunks; it succeeds for non-negative boxes anchored in the columns, with all of the chunks when the boxes are proper |
| XyCut.Zip | panda_vision/model/sub_modules/reading_oreder/layoutreader/xycut.py:49-56 | the boxes paired with their indices position by position |
| XyCut.RecursiveXYCut | panda_vision/model/sub_modules/reading_oreder/layoutreader/xycut.py:49-90 | mismatched box and index counts give an empty result; an empty page is the error (`np.max` of nothing); a non-empty page of non-negative boxes always succeeds |
| XyCut.RecursiveXYCutPermutes | panda_vision/model/sub_modules/reading_oreder/layoutreader/xycut.py:49-90 | a successful cut never repeats or invents an index and, when all boxes are non-negative and proper, is a permutation of the indices |
| XyCut.NegativeTopFails | panda_vision/model/sub_modules/reading_oreder/layoutreader/xycut.py:19-74 | a box above the page top (y0 = -1) is sliced from the end of the y profile, its row band holds no box, and the cut fails on `np.max` of the empty chunk |
| XyCut.NegativeLeftCuts | panda_vision/model/sub_modules/reading_oreder/layoutreader/xycut.py:19-81 | a box left of the page (x0 = -1) still yields its index: the column slice counted from the end covers a position, so the cut succeeds |
| XyCut.PointsToBbox | panda_vision/model/sub_modules/reading_oreder/layoutreader/xycut.py:93-106 | exactly eight values give a bbox, non-negative, ordered, and containing every point clamped at zero |
| XyCut.BboxToPoints | panda_vision/model/sub_modules/reading_oreder/layoutreader/xycut.py:109-112 | four values give eight |
| XyCut.PointsRoundTrip | panda_vision/model/sub_modules/reading_oreder/layoutreader/xycut.py:93-112 | a bbox with non-negative ordered coordinates survives the trip through its four corners |
| ParaSplit.ScanSpec | panda_vision/para/para_split_v3.py:38-62 | after n iterations the closed groups number the breaks met so far, and the closed and running groups together hold exactly the text positions seen, in order |
| ParaSplit.RunWiden | panda_vision/para/para_split_v3.py:41-54 | a group stays a group of the longer prefix |
| ParaSplit.RunAppend | panda_vision/para/para_split_v3.py:45-54 | appending the next text position keeps a group increasing and text-only |
| ParaSplit.AllRunsSnoc | panda_vision/para/para_split_v3.py:57-62 | closing a group keeps every closed group valid |
| ParaSplit.ScanRuns | panda_vision/para/para_split_v3.py:41-62 | every closed group and the running one are increasing lists of text positions |
| ParaSplit.ScanCloses | panda_vision/para/para_split_v3.py:57-62 | a position's group number is the number of breaks that came before it |
| ParaSplit.TextGroups | panda_vision/para/para_split_v3.py:33-68 | `__process_blocks`; stated by `ParaSplit.TextGroupsSpec`, `ParaSplit.SameGroupIff` and `ParaSplit.GroupedIffText` |
| ParaSplit.TextGroupsSpec | panda_vision/para/para_split_v3.py:33-68 | the groups are increasing runs of text positions that together list every text block once, in order, and a block's group is counted by the titles and interline equations before it |
| ParaSplit.TextPositionsMembers | panda_vision/para/para_split_v3.py:45 | a position is listed exactly when it holds a text block |
| ParaSplit.ClosesMonotone | panda_vision/para/para_split_v3.py:57-62 | the group count never decreases along the list |
| ParaSplit.ClosesBetween | panda_vision/para/para_split_v3.py:57-62 | two positions share a group count exactly when no title or interline equation stands between them |
| ParaSplit.SameGroupIff | panda_vision/para/para_split_v3.py:33-68 | two grouped text blocks are in the same group exactly when no title or interline equation stands between them |
| ParaSplit.GroupedIffText | panda_vision/para/para_split_v3.py:45-54 | a position is grouped exactly when it holds a text block |
| ParaSplit.ClosesOrder | panda_vision/para/para_split_v3.py:57-62 | earlier positions have no larger group count |
| ParaSplit.GroupAt | panda_vision/para/para_split_v3.py:33-68 | every member of group h is a text block whose group count is h |
| ParaSplit.GroupOrder | panda_vision/para/para_split_v3.py:54 | a group lists its blocks in document order |
| ParaSplit.NotMember | panda_vision/para/para_split_v3.py:33-68 | a position strictly between two neighbours of a group is in no group |
| ParaSplit.GroupGap | panda_vision/para/para_split_v3.py:33-68 | between two neighbours of a group there are only non-text blocks |
| ParaSplit.FsOf | panda_vision/para/para_split_v3.py:46-53 | the text bbox of a block with lines is the hull of its lines (each line inside, edges attained by some line); without lines it is the bbox |
| ParaSplit.Mark | panda_vision/para/para_split_v3.py:188-256 | setting list marks changes only the marks, and a line is marked exactly when it was or was selected |
| ParaSplit.ListMarks | panda_vision/para/para_split_v3.py:209-256 | the start and end mark selections cover every line |
| ParaSplit.Decide | panda_vision/para/para_split_v3.py:80-262 | a block of two or more lines is an index exactly when most lines align on one side and most texts start or end with a digit (then every line starts an item); otherwise a list exactly when it is centred or left-aligned list-shaped; otherwise text with its lines unchanged; the centred test's `block_height / block_weight` on a zero width is the error |
| ParaSplit.Classify | panda_vision/para/para_split_v3.py:71-262 | a block of fewer than two lines is text; a verdict is text, list or index, only adds list marks, and an index marks every line |
| ParaSplit.ClassifyFails | panda_vision/para/para_split_v3.py:184-198 | for a block with all texts readable, classification fails exactly when the centred test reaches its division with a zero width |
| ParaSplit.Absorb | panda_vision/para/para_split_v3.py:294-310 | the earlier block ends with its own lines followed by the later block's lines, spans unchanged except that they are flagged cross-page when the pages differ |
| ParaSplit.Emptied | panda_vision/para/para_split_v3.py:299-312 | the later block loses its lines and is flagged as emptied |
| ParaSplit.MergeText | panda_vision/para/para_split_v3.py:265-302 | the later block's lines move into the earlier one exactly when the merge tests pass, the two blocks are returned unchanged when they fail, and a missing key or line raises (None) |
| ParaSplit.MergeTextJoins | panda_vision/para/para_split_v3.py:272-293 | text blocks merge only when the later one's first line is left-flush, the earlier one's last line is right-flush, the later one's first character is neither a digit nor a capital, the earlier one's last span does not end with a stop mark, and the widths are within a factor of two |
| ParaSplit.JoinsWhenTestsPass | panda_vision/para/para_split_v3.py:265-293 | conversely, when all six tests pass the blocks merge |
| ParaSplit.TotalLinesUpdate | panda_vision/para/para_split_v3.py:298-299 | replacing one block changes the total line count by the difference |
| ParaSplit.SetBlock | panda_vision/para/para_split_v3.py:333 | replacing a block keeps the list length |
| ParaSplit.ClassifyAt | panda_vision/para/para_split_v3.py:331-333 | classifying a block keeps the list length |
| ParaSplit.ClassifyGroup | panda_vision/para/para_split_v3.py:328-333 | classifying a group keeps the list length |
| ParaSplit.MoveLines | panda_vision/para/para_split_v3.py:305-314 | moving lines keeps the list length |
| ParaSplit.MergeStep | panda_vision/para/para_split_v3.py:345-361 | one backward step keeps the list length; which pairs merge is stated by `ParaSplit.MergeStepDecides` |
| ParaSplit.MergeFrom | panda_vision/para/para_split_v3.py:341-361 | the backward walk keeps the list length |
| ParaSplit.ProcessGroup | panda_vision/para/para_split_v3.py:328-364 | processing a group keeps the list length |
| ParaSplit.ProcessGroups | panda_vision/para/para_split_v3.py:326-364 | processing all groups keeps the list length |
| ParaSplit.WithFs | panda_vision/para/para_split_v3.py:45-53 | setting the text bboxes keeps the list length |
| ParaSplit.ParaMergePage | panda_vision/para/para_split_v3.py:326-364 | on success no line is gained or lost, non-text blocks are untouched, and each text block becomes text, list or index keeping its bbox and page and getting its lines' hull as text bbox |
| ParaSplit.KeptStart | panda_vision/para/para_split_v3.py:45-53 | setting the text bboxes keeps every block steady and the line total |
| ParaSplit.TotalLinesPrefix | panda_vision/para/para_split_v3.py:298-299 | blocks with the same line counts give the same totals |
| ParaSplit.KeptSet | panda_vision/para/para_split_v3.py:331-333 | re-typing a text block keeps the others steady and changes the total by its line difference |
| ParaSplit.KeptClassifyAt | panda_vision/para/para_split_v3.py:331-333 | classifying one text block keeps the line total and every block steady |
| ParaSplit.KeptClassifyGroup | panda_vision/para/para_split_v3.py:328-333 | classifying a text group keeps the line total and every block steady |
| ParaSplit.KeptMove | panda_vision/para/para_split_v3.py:298-312 | moving lines between two text blocks keeps the line total and every block steady |
| ParaSplit.KeptMergeStep | panda_vision/para/para_split_v3.py:345-361 | one backward step keeps the line total and every block steady |
| ParaSplit.GroupPair | panda_vision/para/para_split_v3.py:341-346 | neighbours in a group are increasing text positions |
| ParaSplit.KeptMergeFrom | panda_vision/para/para_split_v3.py:341-361 | the backward walk keeps the line total and every block steady |
| ParaSplit.KeptGroup | panda_vision/para/para_split_v3.py:328-361 | processing a group keeps the line total and every block steady |
| ParaSplit.GroupTextOnly | panda_vision/para/para_split_v3.py:45-54 | a group holds only text blocks |
| ParaSplit.GroupsValid | panda_vision/para/para_split_v3.py:33-68 | the groups are increasing and within the list |
| ParaSplit.ProcessGroupsLast | panda_vision/para/para_split_v3.py:328 | processing n groups is processing n - 1 and then group n |
| ParaSplit.KeptGroups | panda_vision/para/para_split_v3.py:328-364 | processing the groups keeps the line total and every block steady |
| ParaSplit.ClassifySound | panda_vision/para/para_split_v3.py:71-262 | the classifier only returns text, list or index and only adds list marks |
| ParaSplit.UnmarkedLines | panda_vision/para/para_split_v3.py:188-256 | forgetting list marks keeps the number of lines |
| ParaSplit.TextContribs | panda_vision/para/para_split_v3.py:326-364 | one contribution per block |
| ParaSplit.UnmarkedRetagged | panda_vision/para/para_split_v3.py:188-256 | lines that differ only by added marks are the same once marks are forgotten |
| ParaSplit.UnmarkedMarkLine | panda_vision/para/para_split_v3.py:189 | marking a line changes nothing else |
| ParaSplit.UnmarkedAbsorb | panda_vision/para/para_split_v3.py:298-310 | absorbing appends the later block's lines, up to marks and cross-page flags |
| ParaSplit.ConsSet | panda_vision/para/para_split_v3.py:331-333 | re-typing a block with the same lines keeps the text lines in reading order |
| ParaSplit.ConsMove | panda_vision/para/para_split_v3.py:298-299 | moving a later block's lines into the previous text block keeps the text lines in reading order |
| ParaSplit.IsListGroup | panda_vision/para/para_split_v3.py:317-323 | `__is_list_group`; its effect on the walk is stated by `ParaSplit.ListGroupTextStep` |
| ParaSplit.ListGroupTextStep | panda_vision/para/para_split_v3.py:338-353 | when every block of the group has at most three lines, two text neighbours are left as they are; once some block has more, the step is the ordinary text merge |
| ParaSplit.MergeStepDecides | panda_vision/para/para_split_v3.py:326-361 | two list blocks or two index blocks always merge; two text blocks outside a list group merge exactly when the merge tests pass and are left as they are when they fail; any other pair is left alone |
| ParaSplit.MergeStepMoves | panda_vision/para/para_split_v3.py:345-361 | a step either changes nothing or moves the current block's lines into the previous one |
| ParaSplit.ConsMergeFrom | panda_vision/para/para_split_v3.py:341-361 | the backward walk keeps the text lines in reading order |
| ParaSplit.ConsClassifyAt | panda_vision/para/para_split_v3.py:331-333 | classifying keeps the text lines in reading order |
| ParaSplit.ConsClassifyGroup | panda_vision/para/para_split_v3.py:328-333 | classifying a group keeps the text lines in reading order |
| ParaSplit.ConsGroup | panda_vision/para/para_split_v3.py:328-361 | processing a group keeps the text lines in reading order |
| ParaSplit.ConsGroups | panda_vision/para/para_split_v3.py:328-364 | processing the groups keeps the text lines in reading order |
| ParaSplit.GroupGapFree | panda_vision/para/para_split_v3.py:33-68 | between neighbours of a group there is no text block |
| ParaSplit.ParaMergeLines | panda_vision/para/para_split_v3.py:326-364 | merging paragraphs keeps the document's text lines, in reading order, up to list marks and cross-page flags |
| ParaSplit.Stamped | panda_vision/para/para_split_v3.py:370-373 | each block of a page is stamped with the page number |
| ParaSplit.Runs | panda_vision/para/para_split_v3.py:368-374 | one run of stamped blocks per page |
| ParaSplit.ParaSplitPages | panda_vision/para/para_split_v3.py:367-381 | on success there is one block list per page |
| ParaSplit.OnPageSlice | panda_vision/para/para_split_v3.py:379-381 | the blocks carrying a page's number, taken from a list where they sit together, are that slice |
| ParaSplit.NotOnPage | panda_vision/para/para_split_v3.py:368-374 | blocks of earlier pages carry other page numbers |
| ParaSplit.NotOnPageAfter | panda_vision/para/para_split_v3.py:368-374 | blocks of later pages carry other page numbers |
| ParaSplit.PageMembers | panda_vision/para/para_split_v3.py:368-374 | a block of the combined list carries page i's number exactly when it sits in page i's slice |
| ParaSplit.PageBounds | panda_vision/para/para_split_v3.py:368-374 | page i's slice lies inside the combined list |
| ParaSplit.PageMembersAll | panda_vision/para/para_split_v3.py:376-381 | after merging, page i's blocks still sit together in its slice |
| ParaSplit.PageOutAt | panda_vision/para/para_split_v3.py:376-381 | after merging, block k of page i keeps its place, bbox and page number, and a non-text block is unchanged |
| ParaSplit.PageOut | panda_vision/para/para_split_v3.py:377-381 | each page gets back as many blocks as it gave, in order, with their bboxes and page number, non-text blocks unchanged |
| ParaSplit.ParaSplitPerPage | panda_vision/para/para_split_v3.py:367-381 | with distinct page numbers, each page's paragraph blocks are its own blocks in order, bboxes kept, stamped with its number, non-text blocks unchanged |
| CharFill.CharInSpan | panda_vision/pdf_parse_union_core_v2.py:119-151 | a character is placed in a span only when its centre lies vertically inside it near the span's middle; the centre rule always places it; an ordinary character is placed exactly by the centre rule, a line-stop mark also when it starts near the span's right edge |
| CharFill.StopMarkHangsOver | panda_vision/pdf_parse_union_core_v2.py:134-141 | a full stop whose centre lies past the span's right edge is still placed in it |
| CharFill.LetterDoesNotHangOver | panda_vision/pdf_parse_union_core_v2.py:125-151 | a letter in the same spot is not placed |
| CharFill.CharInSpanUndefinedFlags | panda_vision/pdf_parse_union_core_v2.py:134-149 | the source's fall-through for a stop or start mark that fails its rule yields no value, and only where the model says "not placed" |
| CharFill.FirstAccepting | panda_vision/pdf_parse_union_core_v2.py:100-104 | a character goes to the first span (in top-to-bottom order) that accepts it, and to none when no span does |
| CharFill.Mine | panda_vision/pdf_parse_union_core_v2.py:100-104 | a span's characters are exactly those whose first accepting span it is |
| CharFill.Below | panda_vision/pdf_parse_union_core_v2.py:100-104 | the characters whose first accepting span comes before span m |
| CharFill.Unplaced | panda_vision/pdf_parse_union_core_v2.py:100-104 | the characters no span accepts |
| CharFill.AssignChars | panda_vision/pdf_parse_union_core_v2.py:100-104 | one character list per span, each holding exactly that span's characters |
| CharFill.BelowSplit | panda_vision/pdf_parse_union_core_v2.py:100-104 | the characters before span m are those before span m - 1 plus span m - 1's own |
| CharFill.BelowNone | panda_vision/pdf_parse_union_core_v2.py:100-104 | no character comes before the first span |
| CharFill.BelowAllSplit | panda_vision/pdf_parse_union_core_v2.py:100-104 | every character is either placed in some span or unplaced, as often as it occurs |
| CharFill.AssignPrefix | panda_vision/pdf_parse_union_core_v2.py:100-104 | the first m spans together hold exactly the characters placed before span m |
| CharFill.AssignPartition | panda_vision/pdf_parse_union_core_v2.py:100-104 | the spans' characters together with the unplaced ones are exactly the input characters, none lost or duplicated |
| CharFill.AssignedIff | panda_vision/pdf_parse_union_core_v2.py:100-104 | a character is in span k exactly when span k accepts it and no earlier span does |
| CharFill.Glyphs | panda_vision/pdf_parse_union_core_v2.py:80-84 | the characters' glyphs in order |
| CharFill.Letters | panda_vision/pdf_parse_union_core_v2.py:82-84 | the text without its spaces |
| CharFill.LettersAppend | panda_vision/pdf_parse_union_core_v2.py:82-84 | dropping spaces distributes over concatenation |
| CharFill.Spell | panda_vision/pdf_parse_union_core_v2.py:79-84 | each character contributes its glyph, preceded by at most one space, so the text is between one and two times the characters long |
| CharFill.SpellStep | panda_vision/pdf_parse_union_core_v2.py:80-84 | one more character adds its glyph after an optional space |
| CharFill.SpellLetters | panda_vision/pdf_parse_union_core_v2.py:79-84 | apart from spaces, the text spells the glyphs in order |
| CharFill.Before | panda_vision/pdf_parse_union_core_v2.py:79-84 | the text before the k-th character's piece is between k and 2k long |
| CharFill.SpellSuffix | panda_vision/pdf_parse_union_core_v2.py:79-84 | the loop's text is the pieces one after the other: from the k-th piece's start on it is what the loop builds from the k-th character |
| CharFill.SpellSpaces | panda_vision/pdf_parse_union_core_v2.py:79-84 | the k-th character's piece is its glyph, preceded by one space exactly when its left edge lies more than the average width past the right edge of the character before the first equal copy of it (for the first character, the last one) |
| CharFill.SpellEnds | panda_vision/pdf_parse_union_core_v2.py:79-84 | nothing follows the last character's piece |
| CharFill.ReplaceAll | panda_vision/pdf_parse_union_core_v2.py:59-64 | every U+FFFD becomes a space and nothing else changes |
| CharFill.CharsToContent | panda_vision/pdf_parse_union_core_v2.py:66-88 | a span without characters keeps its content; otherwise its content is rebuilt, between one and two times the characters long |
| CharFill.LettersReplace | panda_vision/pdf_parse_union_core_v2.py:59-64 | replacing U+FFFD commutes with dropping spaces |
| CharFill.CharsToContentLetters | panda_vision/pdf_parse_union_core_v2.py:66-86 | the rebuilt content is, up to spaces, the glyphs sorted by centre x with U+FFFD blanked |
| CharFill.CharsToContentSpaces | panda_vision/pdf_parse_union_core_v2.py:66-86 | in the rebuilt content, sorted by centre x, the k-th character's piece is its blanked glyph, preceded by one space exactly when the gap to the character `chars.index` picks exceeds the average width, and the pieces fill the content |
| CharFill.ReplacedSpaces | panda_vision/pdf_parse_union_core_v2.py:59-84 | blanking U+FFFD keeps every piece in place: the k-th piece of the blanked text is the blanked glyph after the same optional space |
| CharFill.Contents | panda_vision/pdf_parse_union_core_v2.py:108-109 | each span's content rebuilt from its own characters |
| CharFill.WithContents | panda_vision/pdf_parse_union_core_v2.py:108-109 | the spans with only their content replaced |
| CharFill.FillSorted | panda_vision/pdf_parse_union_core_v2.py:100-115 | the fill fails exactly when a span without content gets no characters; otherwise spans keep everything but content, and the reported empty spans are exactly those whose content is too short for their width |
| CharFill.FillCharInSpans | panda_vision/pdf_parse_union_core_v2.py:95-115 | spans that all have content always fill; the result has one span per input span, and the empty spans are exactly the short ones |
| CharFill.FillCharSorted | panda_vision/pdf_parse_union_core_v2.py:98 | the filled spans are the input sorted by top edge, up to content |
| CharFill.KeysKept | panda_vision/pdf_parse_union_core_v2.py:98 | spans equal up to content have equal top edges |
| CharFill.FillCharContent | panda_vision/pdf_parse_union_core_v2.py:100-109 | each sorted span's content is its own unless it received characters, in which case it is rebuilt from exactly those |
| TextUtil.StripLeftSpec | panda_vision/libs/path_utils.py:14 | removing leading whitespace drops an all-space prefix and nothing else, and leaves no whitespace in front |
| TextUtil.StripRightSpec | panda_vision/libs/path_utils.py:14 | removing trailing whitespace drops an all-space suffix and nothing else, and leaves no whitespace at the end |
| TextUtil.StripFixed | panda_vision/libs/path_utils.py:14 | text without whitespace at either end is unchanged |
| TextUtil.StripIdempotent | panda_vision/libs/path_utils.py:14 | stripping twice is stripping once |
| TextUtil.StripEnds | panda_vision/libs/path_utils.py:14 | stripped text has no whitespace at either end and adds no character |
| TextUtil.StripEmpty | panda_vision/libs/path_utils.py:14 | stripping leaves nothing exactly when the text is all whitespace |
| MarkdownUtils.ReplaceConcat | libs/markdown_utils.py:1-9 | `str.replace` of one character distributes over concatenation |
| MarkdownUtils.ReplaceAbsent | libs/markdown_utils.py:1-9 | replacing an absent character changes nothing |
| MarkdownUtils.ReplaceOne | libs/markdown_utils.py:1-9 | on one character the replacement is the substitute or the character |
| MarkdownUtils.EscapeSpecialConcat | libs/markdown_utils.py:1-9 | escaping distributes over concatenation |
| MarkdownUtils.EscapeSpecialOne | libs/markdown_utils.py:1-9 | on one character the four passes put a backslash in front of it exactly when it is special: a later pass never touches an earlier pass's output |
| MarkdownUtils.EscapePassesAgree | libs/markdown_utils.py:1-9 | the four `replace` passes equal one left-to-right pass escaping each special character |
| MarkdownUtils.EscapeEachLength | libs/markdown_utils.py:1-9 | the single pass adds one character per special character |
| MarkdownUtils.EscapeLength | libs/markdown_utils.py:1-9 | escaping lengthens the text by exactly the number of `*`, backquote, `~` and `$` in it |
| MarkdownUtils.EscapeEachPlain | libs/markdown_utils.py:1-9 | the single pass leaves text without special characters alone |
| MarkdownUtils.EscapePlain | libs/markdown_utils.py:1-9 | text without special characters is left as it is |
| MarkdownUtils.EscapeEachMarked | libs/markdown_utils.py:1-9 | the single pass never starts with a special character and puts a backslash before each one |
| MarkdownUtils.EscapeMarked | libs/markdown_utils.py:1-9 | every special character of the output directly follows a backslash |
| MarkdownUtils.UnescapeEach | libs/markdown_utils.py:1-9 | dropping the backslash before special characters undoes the single pass |
| MarkdownUtils.UnescapeEscape | libs/markdown_utils.py:1-9 | escaping loses nothing: dropping the backslashes recovers the original text |
| Commons.FindFrom | panda_vision/libs/path_utils.py:16-29 | the first occurrence of a separator at or after a position, or none |
| Commons.FindFromSkip | panda_vision/libs/path_utils.py:16-29 | searching from a later start gives the same answer when nothing occurs in between |
| Commons.FindSub | panda_vision/libs/path_utils.py:16-29 | the first occurrence of a separator, or none at all |
| Commons.Split | panda_vision/libs/path_utils.py:7-32 | `split` on a character gives at least one piece, none containing it |
| Commons.JoinWithHead | panda_vision/libs/commons.py:2-3 | joining is unaffected by regrouping the first piece |
| Commons.JoinSplit | panda_vision/libs/path_utils.py:7 | joining the pieces of a split with the separator gives the text back |
| Commons.SplitNoSep | panda_vision/libs/path_utils.py:7-31 | text without the separator splits into itself |
| Commons.SplitAfter | panda_vision/libs/path_utils.py:7 | the text before the first separator is the first piece |
| Commons.SplitJoin | panda_vision/libs/commons.py:2-3 | splitting a join of separator-free pieces gives the pieces back |
| Commons.SplitHead | panda_vision/libs/path_utils.py:7-8 | the first piece is a prefix ending at the first separator or the end |
| Commons.JoinWithSnoc | panda_vision/libs/commons.py:2-3 | joining one more piece appends the separator and the piece |
| Commons.JoinWithAppend | panda_vision/libs/commons.py:2-3 | joining two lists is joining each with a separator between |
| Commons.JoinWithFree | panda_vision/libs/commons.py:2-3 | a character in neither the separator nor the pieces is not in the join |
| Commons.RStripSlash | panda_vision/libs/commons.py:3 | `rstrip('/')` removes exactly the trailing slashes |
| Commons.StripSlashes | panda_vision/libs/commons.py:3 | every argument loses its trailing slashes |
| Commons.JoinPath | panda_vision/libs/commons.py:2-3 | `join_path`; stated by `Commons.JoinPathPieces` and `Commons.JoinPathNoTrailingSlash` |
| Commons.JoinPathPieces | panda_vision/libs/commons.py:2-3 | splitting a joined path at slashes gives back the arguments without their trailing slashes, when they have no inner slashes |
| Commons.JoinPathNoTrailingSlash | panda_vision/libs/commons.py:2-3 | a joined path whose last argument is not all slashes does not end with a slash |
| Commons.JoinWithLast | panda_vision/libs/commons.py:2-3 | a join ends with its last piece |
| Commons.SliceEnd | panda_vision/libs/commons.py:21 | the end of `[:k]` clamped into the list |
| Commons.SortDesc | panda_vision/libs/commons.py:17 | the values sorted in descending order, none lost or added |
| Commons.ScaledBelow | panda_vision/libs/commons.py:19 | a fraction of a count is between zero and the count |
| Commons.TopCount | panda_vision/libs/commons.py:19 | the cut-off index is `int(len * percent)` for a percent between 0 and 1 |
| Commons.GetTopPercentList | panda_vision/libs/commons.py:6-22 | an empty list gives an empty list; otherwise the result is descending, drawn from the input, and holds `int(len * percent)` values |
| Commons.MultisetRest | panda_vision/libs/commons.py:21 | a list is its prefix plus the rest |
| Commons.PrefixIsTop | panda_vision/libs/commons.py:21 | in a descending list the prefix dominates the rest |
| Commons.TopPercentIsTop | panda_vision/libs/commons.py:6-22 | every value left out is at most every value kept |
| Commons.MyMax | panda_vision/libs/commons.py:25-29 | zero for an empty list, otherwise an element no smaller than any other |
| Commons.FirstSeparator | panda_vision/libs/commons.py:42 | splitting at the first separator gives the text before and after it |
| Commons.ParseBucketKey | panda_vision/libs/commons.py:32-43 | the unpacking fails exactly when no slash is left after stripping the scheme and one leading slash; otherwise the bucket has no slash and bucket, slash and key rebuild the path |
| Commons.ParseBucketKeyRoundTrip | panda_vision/libs/commons.py:32-43 | a path built from a bucket and key parses back to them |
| Commons.RemoveNonOfficialS3Args | panda_vision/libs/path_utils.py:3-8 | the path up to its first `?` |
| Commons.RemoveNonOfficialS3ArgsIdempotent | panda_vision/libs/path_utils.py:3-8 | removing arguments twice is removing them once |
| Commons.RemoveArgsSuffix | panda_vision/libs/path_utils.py:3-8 | a path followed by its arguments gives back the path |
| Commons.SchemeEnd | panda_vision/libs/path_utils.py:15-16 | the part after `://` lies within the path |
| Commons.SchemeSeparator | panda_vision/libs/path_utils.py:15-16 | in a path with an `s3` or `s3a` scheme the first `://` ends the scheme |
| Commons.ParseCleanS3Path | panda_vision/libs/path_utils.py:15-22 | a leading slash and a non-S3 path are the two ValueErrors, a missing key slash the unpacking error; otherwise the bucket has no slash and bucket, slash and key rebuild the path after the scheme |
| Commons.ParseS3Path | panda_vision/libs/path_utils.py:10-22 | a parsed bucket and key contain no `?` |
| Commons.ParsedWithoutArgs | panda_vision/libs/path_utils.py:14-18 | parsing a path without `?` gives parts without `?` |
| Commons.StripKeepsOut | panda_vision/libs/path_utils.py:14 | stripping adds no character |
| Commons.CleanRoundTrip | panda_vision/libs/path_utils.py:14 | a trimmed path with arguments cleans to the path |
| Commons.ParseCleanRoundTrip | panda_vision/libs/path_utils.py:15-18 | a clean `s3` or `s3a` path parses to its bucket and key |
| Commons.ParseS3PathRoundTrip | panda_vision/libs/path_utils.py:10-18 | a path built from scheme, bucket, key and arguments parses back to the bucket and key |
| Commons.ParseS3RangeParams | panda_vision/libs/path_utils.py:25-32 | no `?bytes=` marker gives None; otherwise comma-free pieces that rejoin to the text after the first marker |
| Commons.NoMarkerWithoutQuestion | panda_vision/libs/path_utils.py:29 | the marker can only start at a `?` |
| Commons.RangeParamsRoundTrip | panda_vision/libs/path_utils.py:25-32 | a path followed by `?bytes=` and comma-joined numbers gives back the numbers |
| OcrUtils.MergeSorted | panda_vision/model/sub_modules/ocr/paddleocr/ocr_utils.py:72-82 | the merging loop yields intervals that are sorted and pairwise apart, none exactly when there was none |
| OcrUtils.CoveredAppend | panda_vision/model/sub_modules/ocr/paddleocr/ocr_utils.py:68-82 | a point is covered by two lists exactly when one of them covers it |
| OcrUtils.CoveredOne | panda_vision/model/sub_modules/ocr/paddleocr/ocr_utils.py:68-82 | a single interval covers exactly its points |
| OcrUtils.MergeSortedCovers | panda_vision/model/sub_modules/ocr/paddleocr/ocr_utils.py:72-82 | merging sorted intervals covers exactly the same points |
| OcrUtils.SameElementsCover | panda_vision/model/sub_modules/ocr/paddleocr/ocr_utils.py:70 | reordering intervals does not change what they cover |
| OcrUtils.MergeIntervals | panda_vision/model/sub_modules/ocr/paddleocr/ocr_utils.py:68-82 | `merge_intervals` returns no more intervals than given, sorted and pairwise apart, covering exactly the same points |
| OcrUtils.MergeSortedLength | panda_vision/model/sub_modules/ocr/paddleocr/ocr_utils.py:72-82 | merging never adds intervals |
| OcrUtils.WholeGap | panda_vision/model/sub_modules/ocr/paddleocr/ocr_utils.py:105-107 | between whole-pixel coordinates the `- 1` and `+ 1` steps skip no whole point |
| OcrUtils.RemoveFrom | panda_vision/model/sub_modules/ocr/paddleocr/ocr_utils.py:92-111 | the pieces left lie inside the original range, in increasing order |
| OcrUtils.MergeKeepsWhole | panda_vision/model/sub_modules/ocr/paddleocr/ocr_utils.py:72-82 | merging intervals with whole-pixel ends keeps whole-pixel ends |
| OcrUtils.RemoveFromPoints | panda_vision/model/sub_modules/ocr/paddleocr/ocr_utils.py:92-111 | a whole point is in a piece exactly when it is in the range and under no mask |
| OcrUtils.RemoveStep | panda_vision/model/sub_modules/ocr/paddleocr/ocr_utils.py:95-107 | one mask step keeps exactly the whole points of the range outside this and the remaining masks |
| OcrUtils.RemoveIntervals | panda_vision/model/sub_modules/ocr/paddleocr/ocr_utils.py:85-113 | `remove_intervals` returns increasing pieces inside the original range |
| OcrUtils.RemoveIntervalsPoints | panda_vision/model/sub_modules/ocr/paddleocr/ocr_utils.py:85-113 | for whole-pixel coordinates, a point is kept exactly when it lies in the original range and under no mask |
| OcrUtils.RemoveNoMasks | panda_vision/model/sub_modules/ocr/paddleocr/ocr_utils.py:109-113 | without masks the range is returned whole, or nothing when it is empty |
| OcrUtils.BboxToPoints | panda_vision/model/sub_modules/ocr/paddleocr/ocr_utils.py:54-57 | a bbox's four corners form an axis-aligned rectangle |
| OcrUtils.PointsToBbox | panda_vision/model/sub_modules/ocr/paddleocr/ocr_utils.py:60-65 | `points_to_bbox`; stated by `OcrUtils.PointsRoundTrip` |
| OcrUtils.PointsRoundTrip | panda_vision/model/sub_modules/ocr/paddleocr/ocr_utils.py:54-65 | bbox to corners and back gives the bbox; an axis-aligned quadrilateral survives the reverse trip |
| OcrUtils.BoxNotAngled | panda_vision/model/sub_modules/ocr/paddleocr/ocr_utils.py:54-57 | the corners of a bbox are tilted only when the bbox is upside down (also lines 299-306) |
| OcrUtils.CalculateIsAngle | panda_vision/model/sub_modules/ocr/paddleocr/ocr_utils.py:299-306 | `calculate_is_angle`; stated by `OcrUtils.RectNotAngled`, `OcrUtils.BoxNotAngled` and `OcrUtils.StraightenLevel` |
| OcrUtils.RectNotAngled | panda_vision/model/sub_modules/ocr/paddleocr/ocr_utils.py:299-306 | an axis-aligned quadrilateral counts as tilted only when its bottom is above its top |
| OcrUtils.Straighten | panda_vision/model/sub_modules/ocr/paddleocr/ocr_utils.py:274-281 | the straightened box is axis-aligned, keeps the centre, and takes its width from p3 - p1 and its height from the mean of the two side heights |
| OcrUtils.StraightenLevel | panda_vision/model/sub_modules/ocr/paddleocr/ocr_utils.py:274-306 | a straightened box counts as tilted again only when its mean height is negative |
| OcrUtils.PointToCrop | panda_vision/model/sub_modules/ocr/paddleocr/ocr_utils.py:284-287 | a point moved back into the crop maps onto the page point |
| OcrUtils.QuadToCrop | panda_vision/model/sub_modules/ocr/paddleocr/ocr_utils.py:284-287 | a quadrilateral moved back into the crop maps onto the page one |
| OcrUtils.CropRoundTrip | panda_vision/model/sub_modules/ocr/paddleocr/ocr_utils.py:284-287 | moving to page coordinates loses nothing |
| OcrUtils.QuadToPageRect | panda_vision/model/sub_modules/ocr/paddleocr/ocr_utils.py:284-287 | the move to page coordinates keeps and reflects axis alignment |
| OcrUtils.Round2Bounds | panda_vision/model/sub_modules/ocr/paddleocr/ocr_utils.py:262-292 | a score kept at 0.6 or above still rounds to 0.6 or above |
| OcrUtils.Poly | panda_vision/model/sub_modules/ocr/paddleocr/ocr_utils.py:291 | the flattened polygon has eight numbers |
| OcrUtils.GetOcrResultList | panda_vision/model/sub_modules/ocr/paddleocr/ocr_utils.py:253-296 | one result per kept entry (detections, and recognitions scoring at least 0.6), each of category 15 with an eight-number polygon and a score of at least 0.6 |
| OcrUtils.OcrResultListIsFilterMap | panda_vision/model/sub_modules/ocr/paddleocr/ocr_utils.py:256-294 | the results are the kept entries, in order, each converted on its own |
| OcrUtils.OcrResultPoly | panda_vision/model/sub_modules/ocr/paddleocr/ocr_utils.py:270-291 | a result's polygon, moved back into the crop, is the entry's box straightened when tilted, and is axis-aligned whenever it was tilted |
| OcrUtils.GetAdjustedMfdetrecRes | panda_vision/model/sub_modules/ocr/paddleocr/ocr_utils.py:232-250 | one adjusted box per formula landing in the pasted image, each inside the view |
| OcrUtils.AdjustedIsFilter | panda_vision/model/sub_modules/ocr/paddleocr/ocr_utils.py:236-249 | the adjusted boxes, moved back to the page, are exactly the formula boxes that land in view, in order |
| OcrUtils.MergeSpansSorted | panda_vision/model/sub_modules/ocr/paddleocr/ocr_utils.py:159-175 | the merging loop yields boxes sorted by left edge and horizontally apart, no more than given and none exactly when there was none |
| OcrUtils.MergeOverlappingSpans | panda_vision/model/sub_modules/ocr/paddleocr/ocr_utils.py:144-178 | `merge_overlapping_spans` returns no more boxes than given, sorted and horizontally apart |
| OcrUtils.MergeSpansSortedCovers | panda_vision/model/sub_modules/ocr/paddleocr/ocr_utils.py:159-175 | every sorted box lies inside a merged box |
| OcrUtils.MergeOverlappingSpansCovers | panda_vision/model/sub_modules/ocr/paddleocr/ocr_utils.py:144-178 | every input box lies inside one of the merged boxes |
| OcrUtils.EdgesFromGrow | panda_vision/model/sub_modules/ocr/paddleocr/ocr_utils.py:168-175 | edges taken from a list stay so in a larger list |
| OcrUtils.EdgesFromPrefix | panda_vision/model/sub_modules/ocr/paddleocr/ocr_utils.py:164-165 | edges taken from a list stay so when a box is appended |
| OcrUtils.EdgesFromUnion | panda_vision/model/sub_modules/ocr/paddleocr/ocr_utils.py:170-173 | the box around two boxes takes its edges from them |
| OcrUtils.MergeSpansStepEdges | panda_vision/model/sub_modules/ocr/paddleocr/ocr_utils.py:164-175 | one loop step keeps every merged box's edges taken from the input |
| OcrUtils.MergeSpansSortedEdges | panda_vision/model/sub_modules/ocr/paddleocr/ocr_utils.py:159-175 | every merged box's four edges are edges of input boxes |
| OcrUtils.MergeOverlappingSpansEdges | panda_vision/model/sub_modules/ocr/paddleocr/ocr_utils.py:144-178 | merging invents no coordinate: each edge comes from an input box |
| OcrUtils.MergeSpansSortedApart | panda_vision/model/sub_modules/ocr/paddleocr/ocr_utils.py:159-175 | boxes already horizontally apart are returned unchanged |
| OcrUtils.MergeOverlappingSpansIdempotent | panda_vision/model/sub_modules/ocr/paddleocr/ocr_utils.py:144-178 | merging twice is merging once |
| OcrUtils.MaskList | panda_vision/model/sub_modules/ocr/paddleocr/ocr_utils.py:126-130 | the y-overlap test divides by zero exactly when a formula or the text box has no height; otherwise the masks cover exactly the points under a formula overlapping the text line |
| OcrUtils.PieceQuad | panda_vision/model/sub_modules/ocr/paddleocr/ocr_utils.py:134-135 | each kept piece becomes an axis-aligned box spanning the text box's height |
| OcrUtils.PieceQuads | panda_vision/model/sub_modules/ocr/paddleocr/ocr_utils.py:133-135 | one box per kept piece |
| OcrUtils.SplitBox | panda_vision/model/sub_modules/ocr/paddleocr/ocr_utils.py:125-135 | a level text box fails exactly on a zero-height division; its pieces are axis-aligned, keep its top and bottom and lie within its x-range |
| OcrUtils.PiecesCovered | panda_vision/model/sub_modules/ocr/paddleocr/ocr_utils.py:133-135 | a point lies in a piece box exactly when its interval covers it |
| OcrUtils.SplitBoxPoints | panda_vision/model/sub_modules/ocr/paddleocr/ocr_utils.py:125-135 | for whole-pixel coordinates a point of the text box is kept exactly when no overlapping formula covers it |
| OcrUtils.MaskListWhole | panda_vision/model/sub_modules/ocr/paddleocr/ocr_utils.py:130 | masks from whole-pixel formulas have whole-pixel ends |
| OcrUtils.StraightBoxes | panda_vision/model/sub_modules/ocr/paddleocr/ocr_utils.py:119-137 | the level boxes, each cut around its formulas, all axis-aligned; failure exactly on a zero-height division |
| OcrUtils.UpdateDetBoxes | panda_vision/model/sub_modules/ocr/paddleocr/ocr_utils.py:116-141 | `update_det_boxes` fails exactly on a zero-height division; otherwise cut axis-aligned pieces come first and the tilted boxes follow at the end, unchanged and in order |
| OcrUtils.SplitBoxNoFormulas | panda_vision/model/sub_modules/ocr/paddleocr/ocr_utils.py:125-137 | without formulas a level box is kept whole |
| OcrUtils.StraightBoxesNoFormulas | panda_vision/model/sub_modules/ocr/paddleocr/ocr_utils.py:119-137 | without formulas the level boxes are kept, in order |
| OcrUtils.UpdateDetBoxesNoFormulas | panda_vision/model/sub_modules/ocr/paddleocr/ocr_utils.py:116-141 | without formulas the output is the level boxes followed by the tilted ones, a permutation of the input |
| Classify.Dedup | panda_vision/filter/pdf_classify_by_type.py:42-48 | images with a box already seen on the page are dropped: every box is kept once, no box twice, and nothing new appears |
| Classify.SortPage | panda_vision/filter/pdf_classify_by_type.py:56 | the page's images sorted by top edge, none lost or added |
| Classify.MergeRun | panda_vision/filter/pdf_classify_by_type.py:57-76 | merging a sorted page keeps at least one and at most all images, and the last one keeps the last image's id |
| Classify.MergeStepCovers | panda_vision/filter/pdf_classify_by_type.py:59-76 | one merging step keeps every image seen so far inside some merged image |
| Classify.MergeRunCovers | panda_vision/filter/pdf_classify_by_type.py:57-76 | every image of the run lies inside one of the merged images |
| Classify.MergeRunNoneFull | panda_vision/filter/pdf_classify_by_type.py:64-76 | without full-width or full-height images nothing merges |
| Classify.MergePage | panda_vision/filter/pdf_classify_by_type.py:40-78 | a non-empty page keeps between one image and as many as it had |
| Classify.MergePageCovers | panda_vision/filter/pdf_classify_by_type.py:40-78 | every image of the page lies inside one of its merged images |
| Classify.MergeImages | panda_vision/filter/pdf_classify_by_type.py:26-80 | one merged list per page that has images, none of them empty |
| Classify.PagesMerged | panda_vision/filter/pdf_classify_by_type.py:52-78 | each page merged on its own |
| Classify.PagesMergedSnoc | panda_vision/filter/pdf_classify_by_type.py:52-78 | one more page with images adds its merged list at the end |
| Classify.MergeImagesPages | panda_vision/filter/pdf_classify_by_type.py:26-80 | the result is, in order, the merged images of the pages that have any |
| Classify.Ids | panda_vision/filter/pdf_classify_by_type.py:95 | the object ids of a page's images, in order |
| Classify.KeepRare | panda_vision/filter/pdf_classify_by_type.py:102 | the page keeps only images whose object id occurs fewer than twice |
| Classify.KeepRarePages | panda_vision/filter/pdf_classify_by_type.py:102 | every page is filtered on its own |
| Classify.Areas | panda_vision/filter/pdf_classify_by_type.py:105 | each image's area |
| Classify.LargeCount | panda_vision/filter/pdf_classify_by_type.py:105-108 | no more large-image pages than pages |
| Classify.ClassifyByArea | panda_vision/filter/pdf_classify_by_type.py:82-110 | the area test fails (zero page area) exactly when the page area is zero and some page still has images after dropping repeated ones |
| Classify.LargeImagePageIff | panda_vision/filter/pdf_classify_by_type.py:105-108 | a page counts as large exactly when one of its merged images covers more than half the page |
| Classify.ClassifyByAreaCapped | panda_vision/filter/pdf_classify_by_type.py:96-97 | page counts beyond the scan limit count as the limit |
| Classify.KeepRareCount | panda_vision/filter/pdf_classify_by_type.py:100-102 | an id survives on a page as often as it occurred exactly when it is rare, and never otherwise |
| Classify.KeepRarePagesCount | panda_vision/filter/pdf_classify_by_type.py:100-102 | over the document an id survives as often as it occurred exactly when it is rare, and never otherwise |
| Classify.KeepRareAll | panda_vision/filter/pdf_classify_by_type.py:102 | a page whose images are all rare is unchanged |
| Classify.KeepUnique | panda_vision/filter/pdf_classify_by_type.py:95-102 | dropping images repeated on three or more pages; stated by `Classify.KeepUniqueIdempotent` and `Classify.RepeatedImagesIgnored` |
| Classify.KeepUniqueIdempotent | panda_vision/filter/pdf_classify_by_type.py:95-102 | dropping repeated images twice is dropping them once |
| Classify.RepeatedImagesIgnored | panda_vision/filter/pdf_classify_by_type.py:95-110 | the area verdict is the same with repeated images removed beforehand |
| Classify.DivCompare | panda_vision/filter/pdf_classify_by_type.py:107-108 | comparing a ratio is comparing the product, for a positive divisor |
| Classify.SampleSize | panda_vision/filter/pdf_classify_by_type.py:122-124 | fewer than 50 pages are all sampled, otherwise a tenth of them |
| Classify.ClassifyByTextLen | panda_vision/filter/pdf_classify_by_type.py:112-128 | a sampled page number outside the list is the IndexError; otherwise the verdict is whether some sampled page has more than 100 characters |
| Classify.TextLenAllPages | panda_vision/filter/pdf_classify_by_type.py:122-128 | below 50 pages, sampling every page, the verdict is whether any page has more than 100 characters |
| Classify.RoundAbove | panda_vision/filter/pdf_classify_by_type.py:143-144 | a rounded mean exceeds 100 exactly when the mean exceeds 100.5 |
| Classify.ClassifyByAvgWords | panda_vision/filter/pdf_classify_by_type.py:130-144 | `classify_by_avg_words`; stated by `Classify.AvgWordsIff` |
| Classify.AvgWordsIff | panda_vision/filter/pdf_classify_by_type.py:130-144 | the verdict holds exactly when there are pages and their mean text length exceeds 100.5 |
| Classify.Reals | panda_vision/filter/pdf_classify_by_type.py:157 | the image counts as numbers |
| Classify.SingletonSet | panda_vision/filter/pdf_classify_by_type.py:158 | a list has exactly one distinct value exactly when it is non-empty and constant |
| Classify.TopFirstIsMax | panda_vision/filter/pdf_classify_by_type.py:157-158 | the first of the top 80 percent is the maximum |
| Classify.ClassifyByImgNum | panda_vision/filter/pdf_classify_by_type.py:146-158 | `classify_by_img_num`; stated by `Classify.ImgNumIff` |
| Classify.ImgNumIff | panda_vision/filter/pdf_classify_by_type.py:146-158 | the verdict fails exactly when at most one page has images, the top 80 percent of counts is one repeated value, and that value reaches the junk limit |
| Classify.CountOf | panda_vision/filter/pdf_classify_by_type.py:169-170 | a count of pages with a given layout is at most the number of pages |
| Classify.ClassifyByTextLayout | panda_vision/filter/pdf_classify_by_type.py:160-175 | `classify_by_text_layout`; stated by `Classify.TextLayoutIff` |
| Classify.TextLayoutIff | panda_vision/filter/pdf_classify_by_type.py:160-175 | the verdict holds exactly when fewer pages are vertical than horizontal |
| Classify.StripCount | panda_vision/filter/pdf_classify_by_type.py:202 | no more narrow strips than images |
| Classify.StripPages | panda_vision/filter/pdf_classify_by_type.py:196-204 | no more strip pages than pages |
| Classify.ClassifyByImgNarrowStrips | panda_vision/filter/pdf_classify_by_type.py:177-207 | the strip test fails (division by the page count) exactly when there are no pages |
| Classify.StripPageIff | panda_vision/filter/pdf_classify_by_type.py:197-204 | a page is a strip page exactly when it has images, at least five strips, and strips make up at least 80 percent |
| Classify.NarrowStripsIff | panda_vision/filter/pdf_classify_by_type.py:196-207 | the verdict holds exactly when fewer than half the pages are strip pages |
| Classify.ClassifyPdf | panda_vision/filter/pdf_classify_by_type.py:209-250 | the document is text exactly when every criterion holds; it fails exactly when the area test, the text-length test or the strip test does |
| Classify.ClassifyPdfScan | panda_vision/filter/pdf_classify_by_type.py:236-250 | any one criterion against text makes the document a scan: a false \`invalid_chars\` flag decides it alone, and so does an empty list of text lengths whatever the other criteria say |
| MkContent.HyphenAtLineEnd | panda_vision/dict2md/ocr_mkcontent.py:13-23 | `__is_hyphen_at_line_end`; stated by `MkContent.HyphenAtLineEndIff`, and its effect on a line by `MkContent.WordEmit` and `MkContent.WesternHyphenLine` |
| MkContent.HyphenAtLineEndIff | panda_vision/dict2md/ocr_mkcontent.py:13-23 | the search for letters, a hyphen and trailing whitespace succeeds exactly when the line, right-stripped, ends with a letter and a hyphen |
| MkContent.LetterRunLength | panda_vision/dict2md/ocr_mkcontent.py:145-146 | a maximal run of ASCII letters at the front of the text |
| MkContent.LetterCountSplit | panda_vision/dict2md/ocr_mkcontent.py:145-147 | letter counts add over concatenation |
| MkContent.LetterCountAll | panda_vision/dict2md/ocr_mkcontent.py:145-147 | a text of letters counts all its characters |
| MkContent.LetterRunsCount | panda_vision/dict2md/ocr_mkcontent.py:145-147 | the lengths of the `[a-zA-Z]+` matches sum to the number of ASCII letters |
| MkContent.DetectLanguage | panda_vision/dict2md/ocr_mkcontent.py:136-154 | `detect_language`; stated by `MkContent.DetectLanguageSpec` |
| MkContent.DetectLanguageSpec | panda_vision/dict2md/ocr_mkcontent.py:136-154 | the verdict is 'empty' exactly for the empty text and 'en' exactly when at least half the characters are ASCII letters |
| MkContent.HalfShare | panda_vision/dict2md/ocr_mkcontent.py:149 | a share is at least one half exactly when twice the count reaches the total |
| MkContent.MergeParaWithText | panda_vision/dict2md/ocr_mkcontent.py:167-224 | `merge_para_with_text`; each line's text is stated by `MkContent.Assemble`, `MkContent.CjkLine`, `MkContent.WesternLine` and `MkContent.WesternHyphenLine`, and its use by `MkContent.TitleEntry` and `MkContent.ParaToStandardFormat` |
| MkContent.MarkOf | panda_vision/dict2md/ocr_mkcontent.py:191-200 | a span's markup is stripped |
| MkContent.Marks | panda_vision/dict2md/ocr_mkcontent.py:189-200 | one markup per span |
| MkContent.Emit | panda_vision/dict2md/ocr_mkcontent.py:202-220 | an empty markup adds nothing; text and formulas with markup always add something; what is added never starts with whitespace |
| MkContent.Emits | panda_vision/dict2md/ocr_mkcontent.py:189-220 | one contribution per span, the last one knowing it is last |
| MkContent.Assemble | panda_vision/dict2md/ocr_mkcontent.py:189-220 | a line's text never starts with whitespace |
| MkContent.FlattenHead | panda_vision/dict2md/ocr_mkcontent.py:189-220 | pieces that never start with whitespace concatenate to text that does not |
| MkContent.SpansText | panda_vision/dict2md/ocr_mkcontent.py:189-220 | a line's span text never starts with whitespace |
| MkContent.ListStartMarker | panda_vision/dict2md/ocr_mkcontent.py:184-187 | a line's text opens with the line-break marker exactly when it is a list start after the first line |
| MkContent.MarkerPrefix | panda_vision/dict2md/ocr_mkcontent.py:186-187 | the marker is detectable because span text never starts with whitespace |
| MkContent.Texts | panda_vision/dict2md/ocr_mkcontent.py:200 | the stripped markups |
| MkContent.SpacedFlatten | panda_vision/dict2md/ocr_mkcontent.py:209-216 | contents each followed by a space are the space-join plus a trailing space |
| MkContent.SpacedButLast | panda_vision/dict2md/ocr_mkcontent.py:206-209 | contents followed by spaces except the last are the space-join |
| MkContent.CjkLine | panda_vision/dict2md/ocr_mkcontent.py:205-209 | in Chinese, Japanese or Korean, the non-empty spans of a line are joined by single spaces, with none at the end |
| MkContent.WesternLine | panda_vision/dict2md/ocr_mkcontent.py:210-216 | otherwise text and inline formulas are each followed by one space |
| MkContent.WordEmit | panda_vision/dict2md/ocr_mkcontent.py:211-216 | a word-like span adds its markup and a space unless it is a hyphenated line end |
| MkContent.WesternHyphenLine | panda_vision/dict2md/ocr_mkcontent.py:211-214 | a line ending in a hyphenated word loses the hyphen and its trailing space, joining the word to the next line |
| MkContent.FormulaText | panda_vision/dict2md/ocr_mkcontent.py:195-218 | an inline formula is wrapped in single dollars and followed by a space; an interline formula is wrapped in double dollars on their own lines |
| MkContent.PartTexts | panda_vision/dict2md/ocr_mkcontent.py:99-126 | no more caption or footnote texts than sub-blocks |
| MkContent.Entries | panda_vision/dict2md/ocr_mkcontent.py:78-133 | the page's entries are its non-blank renderings, each stripped and ending with two spaces |
| MkContent.MkMarkdownCore | panda_vision/dict2md/ocr_mkcontent.py:53-133 | no more entries than paragraphs, each a non-blank stripped paragraph ending with two spaces |
| MkContent.EntriesCount | panda_vision/dict2md/ocr_mkcontent.py:128-131 | exactly the blank renderings are dropped |
| MkContent.MkMarkdownCoreEntries | panda_vision/dict2md/ocr_mkcontent.py:128-133 | the number of entries is the number of paragraphs minus those rendering blank |
| MkContent.CountWhereCongruent | panda_vision/dict2md/ocr_mkcontent.py:128-131 | counts under equal tests agree |
| MkContent.EntriesFilter | panda_vision/dict2md/ocr_mkcontent.py:88-107 | skipping paragraphs that render empty is filtering them out first |
| MkContent.ParaMarkdown | panda_vision/dict2md/ocr_mkcontent.py:78-127 | one paragraph's markdown; stated by `MkContent.ParaModes`, `MkContent.TitleEntry` and `MkContent.MkMarkdownCoreEntries` |
| MkContent.ParaModes | panda_vision/dict2md/ocr_mkcontent.py:82-127 | outside images and tables both modes render alike; 'nlp' renders images and tables as nothing |
| MkContent.NlpSkipsFigures | panda_vision/dict2md/ocr_mkcontent.py:88-107 | the 'nlp' markdown is the 'mm' markdown of the page without its images and tables |
| MkContent.TitleEntry | panda_vision/dict2md/ocr_mkcontent.py:84-85 | a title's entry is a heading mark, its text, and two spaces (also lines 128-131) |
| MkContent.StripRightKeepsHead | panda_vision/dict2md/ocr_mkcontent.py:128-131 | right-stripping text that starts with a non-space keeps something |
| MkContent.LastOf | panda_vision/dict2md/ocr_mkcontent.py:260-266 | the value of the last span that has one, none when no span does |
| MkContent.OverwriteLast | panda_vision/dict2md/ocr_mkcontent.py:260-266 | the overwriting loop ends with the last value offered, or its start value |
| MkContent.LastOfFront | panda_vision/dict2md/ocr_mkcontent.py:260-266 | the last value of a list is that of its tail, or else of its head |
| MkContent.ParaToStandardFormat | panda_vision/dict2md/ocr_mkcontent.py:227-297 | a record keeps the page index and drop reason, has a type exactly for the seven known block kinds, a heading level exactly for titles, and the merged text as its text |
| MkContent.ImageRecordPath | panda_vision/dict2md/ocr_mkcontent.py:259-266 | an image record's path is the last image span's path, and the markdown's image links end with that same path (also lines 92-98) |
| MkContent.LinksEndWithLast | panda_vision/dict2md/ocr_mkcontent.py:92-98 | the image links end with a link to the last image |
| MkContent.Fate | panda_vision/dict2md/ocr_mkcontent.py:307-321 | a page not marked for dropping is kept without a reason |
| MkContent.PageRecords | panda_vision/dict2md/ocr_mkcontent.py:338-345 | one record per paragraph, each with the page index and the page's reason |
| MkContent.MarkdownPagesFail | panda_vision/dict2md/ocr_mkcontent.py:306-336 | the markdown fails exactly under `WHOLE_PDF` or an unknown drop mode with some page marked for dropping, raising the first such page's error |
| MkContent.ShiftDrop | panda_vision/dict2md/ocr_mkcontent.py:306-321 | some page is marked for dropping exactly when the first one is or one of the rest is |
| MkContent.RecordPagesFail | panda_vision/dict2md/ocr_mkcontent.py:306-345 | the records fail exactly under the same condition, with the first marked page's error |
| MkContent.UnionMake | panda_vision/dict2md/ocr_mkcontent.py:300-349 | `union_make`, as corrected; its behaviour is stated by `MkContent.UnionMakeRaises`, `MkContent.SinglePageSkips`, `MkContent.UnionMakeMarkdown` and `MkContent.UnionMakeReasons` |
| MkContent.UnionMakeAsWritten | panda_vision/dict2md/ocr_mkcontent.py:300-349 | `union_make` as written; stated by `MkContent.AsWrittenIgnoresReason` and `MkContent.DropReasonLost` |
| MkContent.UnionMakeRaises | panda_vision/dict2md/ocr_mkcontent.py:300-349 | `union_make` raises exactly under `WHOLE_PDF` or an unknown drop mode with some page marked for dropping, with the first such page's error |
| MkContent.MarkdownPagesKeepAll | panda_vision/dict2md/ocr_mkcontent.py:311-314 | under `NONE` and `NONE_WITH_REASON` every page's entries are kept |
| MkContent.MarkdownPagesSingle | panda_vision/dict2md/ocr_mkcontent.py:318-321 | under `SINGLE_PAGE` the pages marked for dropping are skipped |
| MkContent.RecordPagesKeepAll | panda_vision/dict2md/ocr_mkcontent.py:311-345 | under `NONE` and `NONE_WITH_REASON` every page's records are kept, with the reason attached only under `NONE_WITH_REASON` |
| MkContent.RecordPagesSingle | panda_vision/dict2md/ocr_mkcontent.py:318-321 | under `SINGLE_PAGE` the records of pages marked for dropping are skipped |
| MkContent.SinglePageSkips | panda_vision/dict2md/ocr_mkcontent.py:318-321 | `SINGLE_PAGE` is `NONE` on the pages not marked for dropping |
| MkContent.UnionMakeMarkdown | panda_vision/dict2md/ocr_mkcontent.py:329-347 | without dropping, the markdown is every page's entries joined by blank lines ('nlp' without the image bucket) |
| MkContent.UnionMakeReasons | panda_vision/dict2md/ocr_mkcontent.py:313-349 | under `NONE_WITH_REASON` each record of a marked page carries its drop reason; under `NONE` none does |
| MkContent.AsWrittenIgnoresReason | panda_vision/dict2md/ocr_mkcontent.py:337-345 | as written, both branches of the record loop make the same call, so `NONE_WITH_REASON` gives exactly what `NONE` gives |
| MkContent.DropReasonLost | panda_vision/dict2md/ocr_mkcontent.py:337-345 | a marked page with reason "r" loses the reason as written and keeps it in the corrected version |
| MkContent.PaginatedMarkdown | panda_vision/dict2md/ocr_mkcontent.py:26-50 | one entry per page numbered from 0, holding its markdown, empty exactly when the page renders no entries |
| MkContent.JoinNonEmpty | panda_vision/dict2md/ocr_mkcontent.py:47 | joining markdown paragraphs gives nothing only for no paragraphs |
| MkContent.PaginationAgrees | panda_vision/dict2md/ocr_mkcontent.py:26-50 | joining the non-empty page markdowns gives the same text as the whole-document markdown (also lines 346-347) |

## Left out

- Neural models: the layout, formula, OCR, table and layoutreader models are not part of this model. The layoutreader result is a parameter `oracle` that returns an ordering of the line boxes, and OCR results enter as given text and scores.
- `detect_lang` (fast_langdetect) is a parameter `detect` from text to a language code, because its code is not part of this model.
- `math.sqrt` in the diagonal case of `bbox_distance` is a parameter `sqrt`, so no floating-point square root is modelled.
- `_remove_overlap_between_bbox` and `get_scale_ratio` are not part of this model. The first is a parameter `deoverlap` of the tie-up; the second enters as the scale ratios `hr` and `vr`.
- Randomness: `np.random.shuffle` before the XY-cut is a parameter `perm`, a permutation of the block indices. The `np.random.choice` of `classify_by_text_len` is a parameter `sample`.
- Floating point: Python floats are exact reals. numpy's `astype(float32)` rounding is not modelled. Where the source divides by zero and raises `ZeroDivisionError`, the modelled function returns `None` or a failure outcome.
- PyMuPDF character and line extraction (`txt_spans_extract_v2`), image cutting, `img_decode` and `check_img` in `ocr_utils.py`, and `merge_det_boxes` are left out. These are image and I/O work, or call code that is not part of this model.
- The `vis_*` drawing helpers in `xycut.py` draw with cv2 and return no data the pipeline reads, so they are left out.
- The classifier's `main`, its JSON reading and writing, and every reader/writer, config, CLI and pipe module are I/O.
- Logging calls and the warning text of `union_make` are left out; they do not change results.
- The v1 tie-up (`__tie_up_category_by_distance`, `get_imgs`, `get_tables` in `magic_model.py`) is left out because the page pipeline does not call it.
- The `pdf_parser_core.py` paths that name undefined globals (`LINE_STOP_FLAG`, `ModelSingleton`) raise `NameError`. They are modelled only where they mirror the functional parser.
- Drop reasons are text values. The constant tables (`drop_reason.py`, `constants.py`, `drop_tag.py`) enter only as enum values.
- MkContent.ContentOf: a span without a `content` key reads as empty text, where `merge_para_with_text` raises `KeyError`.
- MkContent.Emit: the contract states when a span contributes nothing and that a contribution never starts with a blank. The exact piece for each case is stated by `MkContent.CjkLine`, `MkContent.WesternLine` and `MkContent.WesternHyphenLine`, and image and table spans contribute nothing there.
- OcrUtils.RemoveIntervalsPoints: the pointwise characterisation holds for whole-pixel coordinates only. The source works on integer pixel columns after `int()`.
- OcrUtils.SplitBoxPoints: as above, stated for whole-pixel coordinates only.
- ParaSplit.Joins: `TextUtil.IsDigit` and `TextUtil.IsUpper` are ASCII-only, where Python's `str.isdigit` and `str.isupper` are Unicode. A block starting with "É" can merge in the model but not in the source.
- ParaSplit.MergeTextJoins: stated with the same ASCII-only `IsDigit`/`IsUpper`.
- ParaSplit.Decide: the digit counts use the ASCII-only `IsDigit`, so lines ending in full-width digits do not count toward an Index block here.
- ParaSplit.IndexShape: the same ASCII-only digit test as `ParaSplit.Decide`.
- MagicModel.RemoveHighIouSpec: stated for pages without duplicate detections. Removal is by value, so a duplicated detection is removed once per condemnation. `MagicModel.RemoveHighIouCounts` states the exact counts for any page.
- MagicModel.RemoveHighIouOutcomes: stated for pages without duplicate detections, for the same reason as `MagicModel.RemoveHighIouSpec`.
- Conflict.FixTextOverlapTitleSpec: stated for duplicate-free block lists, because removal is by value. The `*Counts` lemmas give the exact duplicate behaviour.
- Conflict.FixInterlineOverlapTextSpec: stated for duplicate-free block lists, as above.
- Conflict.RemoveNeedDropSpec: stated for duplicate-free block lists, as above.
- Conflict.CleanedSpec: stated for duplicate-free block lists, as above.
- Base.SortBy: defined as a stable insertion sort. Python's `list.sort` is also stable, and `Base.SortByStable` proves that stability.
- XyCut.XYCut: `np.argsort` orders equal coordinates by the stable `Base.SortBy`. numpy's default quicksort is not stable, so ties may come out in another order in the source.
- XyCut.RecursiveXYCut: success is promised only for non-negative boxes and the full permutation only for non-negative proper ones. Negative coordinates are cut as numpy slices them, as `XyCut.NegativeTopFails` and `XyCut.NegativeLeftCuts` show. A column chunk as large as the whole call recurses without end in the source and is the error here; Python's recursion depth limit on deep but finite recursion is not modelled.
- BoxBase.IouAbove: false when the union area is zero, where `calculate_iou` raises `ZeroDivisionError`.
- Classify.SortPage: the contract states the order by top edge and that no image is lost or added. The order by left edge among equal tops is left to the definition.

## Findings

| source | as written | input that shows it | evidently intended | confidence | as-written member | corrected member |
|---|---|---|---|---|---|---|
| panda_vision/dict2md/ocr_mkcontent.py:339-344 | both branches of `if drop_reason_flag` call `para_to_standard_format_v2` the same way, so `NONE_WITH_REASON` gives the same records as `NONE` | one page with `need_drop` True, drop reason "r" and one text paragraph, rendered as standard format under `NONE_WITH_REASON` | the records of a page dropped with a reason carry that reason | not executed | MkContent.DropReasonLost | MkContent.UnionMakeReasons |
