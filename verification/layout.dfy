/** The records that flow through the page pipeline: block and content
    kinds, spans, lines and blocks. Python dictionaries become datatypes;
    an optional dictionary key becomes an `Option` field. */
module Layout {
  import opened Base
  import opened BoxBase

  /** `BlockType`: the kinds of layout blocks. */
  datatype BlockType =
    | Image | ImageBody | ImageCaption | ImageFootnote
    | Table | TableBody | TableCaption | TableFootnote
    | Text | Title | InterlineEquation | Discarded | List | Index

  /** `ContentType`: the kinds of spans. */
  datatype ContentType = Text | InlineEquation | InterlineEquation | Image | Table

  /** The six kinds that belong to an image or table group and carry a `group_id`. */
  predicate IsGroupKind(t: BlockType) {
    t in {BlockType.ImageBody, BlockType.ImageCaption, BlockType.ImageFootnote,
          BlockType.TableBody, BlockType.TableCaption, BlockType.TableFootnote}
  }

  /** Span kinds that always form a line of their own. */
  predicate IsSpecialSpan(t: ContentType) {
    t in {ContentType.InterlineEquation, ContentType.Image, ContentType.Table}
  }

  /** A span. `overlapTag` is the `tag = SPAN_OVERLAP` mark of dropped spans,
      `crossPage` the `cross_page` mark of spans moved by a paragraph merge. */
  datatype Span = Span(
    bbox: Box,
    kind: ContentType,
    score: real,
    content: Option<string>,
    latex: Option<string>,
    html: Option<string>,
    imagePath: Option<string>,
    overlapTag: bool,
    crossPage: bool)

  /** A line: its bounding box, its spans, the reading-order `index` and the
      list-start / list-end marks the paragraph stage sets. */
  datatype Line = Line(
    bbox: Box,
    spans: seq<Span>,
    index: Option<int>,
    listStart: bool,
    listEnd: bool)

  /** A block after span placement (`spans` still present, no `lines`). */
  datatype FilledBlock = FilledBlock(
    kind: BlockType,
    bbox: Box,
    groupId: Option<int>,
    spans: seq<Span>)

  /** A block after line formation and the later stages: `index` is the
      reading-order rank (a median, hence real), `realLines` the saved lines of
      an image/table body, `bboxFs` the union of its lines, `pageNum` its page,
      `linesDeleted` the tombstone left by a paragraph merge, `blocks` the
      members of an image/table composite. */
  datatype Block = Block(
    kind: BlockType,
    bbox: Box,
    groupId: Option<int>,
    lines: seq<Line>,
    index: Option<real>,
    realLines: Option<seq<Line>>,
    bboxFs: Option<Box>,
    pageNum: Option<int>,
    linesDeleted: bool,
    blocks: seq<Block>)

  function NewBlock(kind: BlockType, bbox: Box, groupId: Option<int>, lines: seq<Line>): Block {
    Block(kind, bbox, groupId, lines, None, None, None, None, false, [])
  }

  function LineOf(bbox: Box, spans: seq<Span>): Line {
    Line(bbox, spans, None, false, false)
  }
}
