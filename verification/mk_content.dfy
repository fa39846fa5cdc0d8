/** Rendering of the paragraph blocks of a parsed document as markdown or
    as standard-format records (`ocr_mkcontent`). The language detector
    the renderer consults is a parameter. */
module MkContent {
  import opened Base
  import opened TextUtil
  import opened BoxBase
  import opened Layout
  import opened Commons
  import opened MarkdownUtils

  // ---------------------------------------------------------------------
  // __is_hyphen_at_line_end
  // ---------------------------------------------------------------------

  /** A match of `[A-Za-z]+-\s*$` over `line[i..]`: letters up to the
      hyphen at `j`, then only whitespace to the end. */
  predicate HyphenMatch(line: string, i: nat, j: nat) {
    i < j < |line| && (forall k :: i <= k < j ==> IsAsciiLetter(line[k]))
    && line[j] == '-' && AllSpace(line[j + 1..])
  }

  /** The regular expression finds a match somewhere in the line. */
  predicate RegexHyphenMatch(line: string) {
    exists i, j | 0 <= i < j < |line| :: HyphenMatch(line, i, j)
  }

  /** `__is_hyphen_at_line_end`: once trailing whitespace is removed the
      line ends in an ASCII letter and a hyphen. */
  predicate HyphenAtLineEnd(line: string) {
    var t := StripRight(line);
    |t| >= 2 && t[|t| - 1] == '-' && IsAsciiLetter(t[|t| - 2])
  }

  /** The test agrees with a search for `[A-Za-z]+-\s*$`. */
  lemma HyphenAtLineEndIff(line: string)
    ensures RegexHyphenMatch(line) <==> HyphenAtLineEnd(line)
  {
    StripRightSpec(line);
    var t := StripRight(line);
    var m := |t|;
    assert forall k :: m <= k < |line| ==> IsSpace(line[k]) by {
      forall k | m <= k < |line| ensures IsSpace(line[k]) {
        assert line[m..][k - m] == line[k];
      }
    }
    if HyphenAtLineEnd(line) {
      assert line[m - 1] == t[m - 1] && line[m - 2] == t[m - 2];
      assert line[m..] == line[m - 1 + 1..];
      assert HyphenMatch(line, m - 2, m - 1);
    }
    if RegexHyphenMatch(line) {
      var i, j :| 0 <= i < j < |line| && HyphenMatch(line, i, j);
      assert !IsSpace(line[j]);
      assert j < m;
      forall k | j < k < |line| ensures IsSpace(line[k]) {
        assert line[j + 1..][k - j - 1] == line[k];
      }
      assert m - 1 <= j by {
        assert m == 0 || !IsSpace(t[m - 1]);
        assert line[m - 1] == t[m - 1];
      }
      assert t[m - 1] == line[j] && t[m - 2] == line[j - 1];
    }
  }

  // ---------------------------------------------------------------------
  // detect_language
  // ---------------------------------------------------------------------

  datatype Language = En | Unknown | Empty

  /** The length of the run of ASCII letters that opens `s`. */
  function LetterRunLength(s: string): (n: nat)
    ensures n <= |s|
    ensures forall k :: 0 <= k < n ==> IsAsciiLetter(s[k])
    ensures n < |s| ==> !IsAsciiLetter(s[n])
  {
    if |s| > 0 && IsAsciiLetter(s[0]) then 1 + LetterRunLength(s[1..]) else 0
  }

  /** `re.findall(r'[a-zA-Z]+', s)`: the maximal runs of ASCII letters,
      left to right. */
  function LetterRuns(s: string): seq<string>
    decreases |s|
  {
    if |s| == 0 then []
    else if !IsAsciiLetter(s[0]) then LetterRuns(s[1..])
    else
      var n := LetterRunLength(s);
      [s[..n]] + LetterRuns(s[n..])
  }

  function TotalLength(runs: seq<string>): nat {
    if |runs| == 0 then 0 else |runs[0]| + TotalLength(runs[1..])
  }

  function LetterCount(s: string): nat {
    if |s| == 0 then 0 else (if IsAsciiLetter(s[0]) then 1 else 0) + LetterCount(s[1..])
  }

  lemma {:induction false} LetterCountSplit(a: string, b: string)
    ensures LetterCount(a + b) == LetterCount(a) + LetterCount(b)
  {
    if |a| == 0 {
      assert a + b == b;
    } else {
      assert (a + b)[0] == a[0] && (a + b)[1..] == a[1..] + b;
      LetterCountSplit(a[1..], b);
    }
  }

  lemma {:induction false} LetterCountAll(s: string)
    requires forall k :: 0 <= k < |s| ==> IsAsciiLetter(s[k])
    ensures LetterCount(s) == |s|
  {
    if |s| > 0 {
      LetterCountAll(s[1..]);
    }
  }

  /** The runs `findall` yields hold every ASCII letter of the text, so
      their total length is the letter count. */
  lemma {:induction false} LetterRunsCount(s: string)
    ensures TotalLength(LetterRuns(s)) == LetterCount(s)
    decreases |s|
  {
    if |s| > 0 {
      if !IsAsciiLetter(s[0]) {
        LetterRunsCount(s[1..]);
      } else {
        var n := LetterRunLength(s);
        LetterRunsCount(s[n..]);
        assert s == s[..n] + s[n..];
        LetterCountSplit(s[..n], s[n..]);
        LetterCountAll(s[..n]);
        assert ([s[..n]] + LetterRuns(s[n..]))[1..] == LetterRuns(s[n..]);
      }
    }
  }

  /** `detect_language`: 'empty' for no text, 'en' when the letter runs
      make up at least half of it, 'unknown' otherwise. */
  function DetectLanguage(text: string): Language {
    if |text| > 0 then
      if TotalLength(LetterRuns(text)) as real / |text| as real >= 0.5 then En else Unknown
    else Empty
  }

  /** 'en' exactly when at least half of the characters are ASCII letters. */
  lemma DetectLanguageSpec(text: string)
    ensures DetectLanguage(text) == Empty <==> text == ""
    ensures DetectLanguage(text) == En <==> |text| > 0 && 2 * LetterCount(text) >= |text|
  {
    LetterRunsCount(text);
    if |text| > 0 {
      HalfShare(LetterCount(text), |text|);
    }
  }

  lemma HalfShare(c: nat, n: nat)
    requires n > 0
    ensures c as real / n as real >= 0.5 <==> 2 * c >= n
  {
    var q := c as real / n as real;
    assert q * n as real == c as real;
    if q >= 0.5 {
      assert q * n as real >= 0.5 * n as real;
    } else {
      assert q * n as real < 0.5 * n as real;
    }
  }

  // ---------------------------------------------------------------------
  // merge_para_with_text
  // ---------------------------------------------------------------------

  /** A span's `content` key (empty when the span has none). */
  function ContentOf(s: Span): string {
    if s.content.Some? then s.content.value else ""
  }

  /** A span's markdown before stripping: escaped text, `$...$` for an
      inline formula, a `$$` block for an interline one, nothing for the
      other kinds. */
  function SpanMarkup(s: Span): string {
    match s.kind
    case Text => EscapeSpecial(ContentOf(s))
    case InlineEquation => "$" + ContentOf(s) + "$"
    case InterlineEquation => "\n$$\n" + ContentOf(s) + "\n$$\n"
    case _ => ""
  }

  /** Text with no whitespace at either end, as `str.strip` leaves it. */
  predicate Stripped(t: string) {
    |t| == 0 || (!IsSpace(t[0]) && !IsSpace(t[|t| - 1]))
  }

  /** What the renderer keeps of a span: its stripped markup and its kind. */
  datatype Mark = Mark(text: string, kind: ContentType)

  function MarkOf(s: Span): (m: Mark)
    ensures Stripped(m.text)
  {
    StripEnds(SpanMarkup(s));
    Mark(Strip(SpanMarkup(s)), s.kind)
  }

  function Marks(spans: seq<Span>): (r: seq<Mark>)
    ensures |r| == |spans|
    ensures forall k :: 0 <= k < |spans| ==> r[k] == MarkOf(spans[k])
  {
    if |spans| == 0 then [] else [MarkOf(spans[0])] + Marks(spans[1..])
  }

  /** The languages written without spaces between words. */
  predicate IsCjk(lang: string) {
    lang == "zh" || lang == "ja" || lang == "ko"
  }

  /** What one span adds to the paragraph: nothing when its stripped markup
      is empty; in CJK text the markup, followed by a space unless the span
      ends its line; otherwise text and inline formulas are followed by a
      space, except a line-final text ending in a hyphenated word, which
      loses the hyphen instead, and interline formulas by nothing. */
  function Emit(m: Mark, last: bool, cjk: bool): (r: string)
    requires Stripped(m.text)
    ensures m.text == "" ==> r == ""
    ensures m.kind != ContentType.Image && m.kind != ContentType.Table && m.text != "" ==> r != ""
    ensures |r| > 0 ==> !IsSpace(r[0])
  {
    var c := m.text;
    if c == "" then ""
    else if cjk then (if last then c else c + " ")
    else
      match m.kind
      case Text =>
        if last && HyphenAtLineEnd(c) then
          assert StripRight(c) == c;
          c[..|c| - 1]
        else c + " "
      case InlineEquation => c + " "
      case InterlineEquation => c
      case _ => ""
  }

  predicate AllStripped(ms: seq<Mark>) {
    forall k :: 0 <= k < |ms| ==> Stripped(ms[k].text)
  }

  /** What each span of a line adds; the last one is the `j == len - 1` span. */
  function Emits(ms: seq<Mark>, cjk: bool): (r: seq<string>)
    requires AllStripped(ms)
    ensures |r| == |ms|
    ensures forall k :: 0 <= k < |ms| ==> r[k] == Emit(ms[k], k == |ms| - 1, cjk)
  {
    seq(|ms|, k requires 0 <= k < |ms| && AllStripped(ms) => Emit(ms[k], k == |ms| - 1, cjk))
  }

  /** The spans of one line, appended in order. */
  function Assemble(ms: seq<Mark>, cjk: bool): (r: string)
    requires AllStripped(ms)
    ensures |r| > 0 ==> !IsSpace(r[0])
  {
    var es := Emits(ms, cjk);
    FlattenHead(es);
    Flatten(es)
  }

  /** No piece opens with whitespace, so neither does their concatenation. */
  lemma {:induction false} FlattenHead(ss: seq<string>)
    requires forall k :: 0 <= k < |ss| && |ss[k]| > 0 ==> !IsSpace(ss[k][0])
    ensures |Flatten(ss)| > 0 ==> !IsSpace(Flatten(ss)[0])
  {
    if |ss| > 0 {
      FlattenHead(ss[..|ss| - 1]);
    }
  }

  function SpansText(spans: seq<Span>, cjk: bool): (r: string)
    ensures |r| > 0 ==> !IsSpace(r[0])
  {
    Assemble(Marks(spans), cjk)
  }

  /** A line: a list-start line other than the first opens with "  \n". */
  function LineText(line: Line, first: bool, cjk: bool): string {
    (if !first && line.listStart then "  \n" else "") + SpansText(line.spans, cjk)
  }

  function LinesText(lines: seq<Line>, first: bool, cjk: bool): string {
    if |lines| == 0 then ""
    else LineText(lines[0], first, cjk) + LinesText(lines[1..], false, cjk)
  }

  /** The raw text of a block: every text span's content, in order. */
  function BlockText(lines: seq<Line>): string {
    if |lines| == 0 then "" else SpanContents(lines[0].spans) + BlockText(lines[1..])
  }

  function SpanContents(spans: seq<Span>): string {
    if |spans| == 0 then ""
    else (if spans[0].kind == ContentType.Text then ContentOf(spans[0]) else "") + SpanContents(spans[1..])
  }

  /** `merge_para_with_text`, with `detect` standing for `detect_lang`. */
  function MergeParaWithText(lines: seq<Line>, detect: string -> string): string {
    LinesText(lines, true, IsCjk(detect(BlockText(lines))))
  }

  /** The marker "  \n" opens a line exactly when it is a list start after
      the first line: span text never starts with whitespace. */
  lemma ListStartMarker(line: Line, first: bool, cjk: bool)
    ensures StartsWith(LineText(line, first, cjk), "  \n") <==> !first && line.listStart
  {
    MarkerPrefix(SpansText(line.spans, cjk), !first && line.listStart);
  }

  lemma MarkerPrefix(t: string, marked: bool)
    requires |t| > 0 ==> !IsSpace(t[0])
    ensures StartsWith((if marked then "  \n" else "") + t, "  \n") <==> marked
  {
    if marked {
      assert ("  \n" + t)[..3] == "  \n";
    } else {
      assert "" + t == t;
      if |t| >= 3 {
        assert t[..3][0] == t[0] != ' ';
      }
    }
  }

  function Texts(ms: seq<Mark>): (r: seq<string>)
    ensures |r| == |ms|
    ensures forall k :: 0 <= k < |ms| ==> r[k] == ms[k].text
  {
    if |ms| == 0 then [] else [ms[0].text] + Texts(ms[1..])
  }

  /** Pieces followed by a space each, joined, are the space-joined pieces and one space. */
  lemma {:induction false} SpacedFlatten(ss: seq<string>, ts: seq<string>)
    requires |ss| == |ts| > 0
    requires forall k :: 0 <= k < |ts| ==> ss[k] == ts[k] + " "
    ensures Flatten(ss) == JoinWith(" ", ts) + " "
  {
    var n := |ts|;
    if n > 1 {
      SpacedFlatten(ss[..n - 1], ts[..n - 1]);
      assert ts == ts[..n - 1] + [ts[n - 1]];
      JoinWithSnoc(" ", ts[..n - 1], ts[n - 1]);
    }
  }

  /** Pieces followed by a space each except the last, joined, are the
      space-joined pieces. */
  lemma SpacedButLast(ss: seq<string>, ts: seq<string>)
    requires |ss| == |ts| > 0
    requires forall k :: 0 <= k < |ts| - 1 ==> ss[k] == ts[k] + " "
    requires ss[|ts| - 1] == ts[|ts| - 1]
    ensures Flatten(ss) == JoinWith(" ", ts)
  {
    var n := |ts|;
    if n > 1 {
      SpacedFlatten(ss[..n - 1], ts[..n - 1]);
      assert ts == ts[..n - 1] + [ts[n - 1]];
      JoinWithSnoc(" ", ts[..n - 1], ts[n - 1]);
    }
  }

  /** In CJK text a line is its spans' markup separated by single spaces
      (when no span is empty). */
  lemma CjkLine(ms: seq<Mark>)
    requires AllStripped(ms)
    requires |ms| > 0
    requires forall k :: 0 <= k < |ms| ==> ms[k].text != ""
    ensures Assemble(ms, true) == JoinWith(" ", Texts(ms))
  {
    SpacedButLast(Emits(ms, true), Texts(ms));
  }

  /** A text or inline-formula span with visible markup. */
  predicate Wordlike(m: Mark) {
    (m.kind == ContentType.Text || m.kind == ContentType.InlineEquation) && m.text != ""
  }

  /** Spans that each contribute their markup and one space. */
  predicate WesternPlain(ms: seq<Mark>) {
    (forall k :: 0 <= k < |ms| ==> Wordlike(ms[k]))
    && (|ms| > 0 && ms[|ms| - 1].kind == ContentType.Text ==> !HyphenAtLineEnd(ms[|ms| - 1].text))
  }

  /** Outside CJK, text and inline formulas each get one trailing space. */
  lemma WesternLine(ms: seq<Mark>)
    requires AllStripped(ms)
    requires |ms| > 0 && WesternPlain(ms)
    ensures Assemble(ms, false) == JoinWith(" ", Texts(ms)) + " "
  {
    var es := Emits(ms, false);
    forall k | 0 <= k < |ms| ensures es[k] == ms[k].text + " " {
      WordEmit(ms[k], k == |ms| - 1);
    }
    SpacedFlatten(es, Texts(ms));
  }

  lemma WordEmit(m: Mark, last: bool)
    requires Stripped(m.text) && Wordlike(m)
    requires last && m.kind == ContentType.Text ==> !HyphenAtLineEnd(m.text)
    ensures Emit(m, last, false) == m.text + " "
  {
  }

  /** Outside CJK, a line whose last text ends in a hyphenated word joins
      that word to the next line: the hyphen goes and no space follows. */
  lemma WesternHyphenLine(ms: seq<Mark>)
    requires AllStripped(ms)
    requires |ms| > 0
    requires forall k :: 0 <= k < |ms| - 1 ==> Wordlike(ms[k])
    requires ms[|ms| - 1].kind == ContentType.Text && HyphenAtLineEnd(ms[|ms| - 1].text)
    ensures var c := ms[|ms| - 1].text;
      |c| >= 2 && c[|c| - 1] == '-'
      && Assemble(ms, false)
         == (if |ms| == 1 then "" else JoinWith(" ", Texts(ms[..|ms| - 1])) + " ") + c[..|c| - 1]
  {
    var n := |ms|;
    var c := ms[n - 1].text;
    assert StripRight(c) == c;
    var es := Emits(ms, false);
    assert es[n - 1] == c[..|c| - 1];
    assert es == es[..n - 1] + [es[n - 1]];
    FlattenSnoc(es[..n - 1], es[n - 1]);
    if n > 1 {
      SpacedFlatten(es[..n - 1], Texts(ms[..n - 1]));
    }
  }

  /** Formulas: an inline formula is wrapped in `$` and followed by a
      space, an interline formula becomes a `$$` block. */
  lemma FormulaText(s: Span, last: bool)
    ensures s.kind == ContentType.InlineEquation ==>
      Emit(MarkOf(s), last, false) == "$" + ContentOf(s) + "$ "
    ensures s.kind == ContentType.InterlineEquation ==>
      Emit(MarkOf(s), last, false) == "$$\n" + ContentOf(s) + "\n$$"
  {
    var m := SpanMarkup(s);
    if s.kind == ContentType.InlineEquation {
      assert m[0] == '$' && m[|m| - 1] == '$';
      StripFixed(m);
    } else if s.kind == ContentType.InterlineEquation {
      var core := "$$\n" + ContentOf(s) + "\n$$";
      assert m == "\n" + core + "\n";
      assert StripLeft(m) == core + "\n" by {
        assert IsSpace(m[0]) && m[1..] == core + "\n";
        assert (core + "\n")[0] == '$';
      }
      assert StripRight(core + "\n") == core by {
        assert (core + "\n")[..|core|] == core;
        assert core[|core| - 1] == '$';
      }
    }
  }

  // ---------------------------------------------------------------------
  // ocr_mk_markdown_with_para_core_v2
  // ---------------------------------------------------------------------

  /** The `mode` argument: 'nlp' leaves images and tables out, 'mm' keeps them. */
  datatype RenderMode = Nlp | Mm | OtherRender

  /** A non-empty optional value (`span.get(key, '')` is truthy). */
  predicate Truthy(o: Option<string>) {
    o.Some? && o.value != ""
  }

  /** The markdown link of an image stored under the bucket. */
  function ImageLink(bucket: string, path: string): string {
    "\n![](" + JoinPath([bucket, path]) + ")  \n"
  }

  /** Every span of the lines of the member blocks of kind `bk`, in order. */
  function BodySpans(blocks: seq<Block>, bk: BlockType): seq<Span> {
    if |blocks| == 0 then []
    else (if blocks[0].kind == bk then LineSpans(blocks[0].lines) else []) + BodySpans(blocks[1..], bk)
  }

  function LineSpans(lines: seq<Line>): seq<Span> {
    if |lines| == 0 then [] else lines[0].spans + LineSpans(lines[1..])
  }

  /** The link an image span contributes (nothing without a path). */
  function ImageSpanLink(s: Span, bucket: string): string {
    if s.kind == ContentType.Image && Truthy(s.imagePath) then ImageLink(bucket, s.imagePath.value) else ""
  }

  /** The links of the image body, in span order. */
  function ImageLinks(spans: seq<Span>, bucket: string): string {
    if |spans| == 0 then ""
    else ImageLinks(spans[..|spans| - 1], bucket) + ImageSpanLink(spans[|spans| - 1], bucket)
  }

  /** A table span: its LaTeX in a `$` block, else its HTML, else a link to
      its image, else nothing. */
  function TableSpanMarkdown(s: Span, bucket: string): string {
    if s.kind != ContentType.Table then ""
    else if Truthy(s.latex) then "\n\n$\n " + s.latex.value + "\n$\n\n"
    else if Truthy(s.html) then "\n\n" + s.html.value + "\n\n"
    else if Truthy(s.imagePath) then ImageLink(bucket, s.imagePath.value)
    else ""
  }

  function TableMarkdown(spans: seq<Span>, bucket: string): string {
    if |spans| == 0 then ""
    else TableMarkdown(spans[..|spans| - 1], bucket) + TableSpanMarkdown(spans[|spans| - 1], bucket)
  }

  /** The merged text of each member block of kind `bk`, in order. */
  function PartTexts(blocks: seq<Block>, bk: BlockType, detect: string -> string): (r: seq<string>)
    ensures |r| <= |blocks|
  {
    if |blocks| == 0 then []
    else (if blocks[0].kind == bk then [MergeParaWithText(blocks[0].lines, detect)] else [])
         + PartTexts(blocks[1..], bk, detect)
  }

  /** Captions and footnotes, each followed by "  \n". */
  function LinesOf(texts: seq<string>): string {
    if |texts| == 0 then "" else texts[0] + "  \n" + LinesOf(texts[1..])
  }

  /** The block types that are figures: images and tables. */
  predicate IsFigure(p: Block) {
    p.kind == BlockType.Image || p.kind == BlockType.Table
  }

  /** The markdown of one paragraph block before stripping. Text, lists
      and indexes give their merged text, a title the same after "# ", an
      interline equation its merged text. In 'mm' mode an image gives its
      links, captions and footnotes, a table its captions, body and
      footnotes; in any other mode figures give nothing, as do the other
      block types. */
  function ParaMarkdown(p: Block, mode: RenderMode, bucket: string, detect: string -> string): string {
    match p.kind
    case Text => MergeParaWithText(p.lines, detect)
    case List => MergeParaWithText(p.lines, detect)
    case Index => MergeParaWithText(p.lines, detect)
    case Title => "# " + MergeParaWithText(p.lines, detect)
    case InterlineEquation => MergeParaWithText(p.lines, detect)
    case Image =>
      if mode == Mm then
        ImageLinks(BodySpans(p.blocks, BlockType.ImageBody), bucket)
        + LinesOf(PartTexts(p.blocks, BlockType.ImageCaption, detect))
        + LinesOf(PartTexts(p.blocks, BlockType.ImageFootnote, detect))
      else ""
    case Table =>
      if mode == Mm then
        LinesOf(PartTexts(p.blocks, BlockType.TableCaption, detect))
        + TableMarkdown(BodySpans(p.blocks, BlockType.TableBody), bucket)
        + LinesOf(PartTexts(p.blocks, BlockType.TableFootnote, detect))
      else ""
    case _ => ""
  }

  /** A markdown paragraph: stripped, with a two-space line break. */
  predicate IsMarkdownPara(t: string) {
    |t| >= 3 && t[|t| - 2..] == "  " && !IsSpace(t[0]) && !IsSpace(t[|t| - 3])
  }

  /** The page loop of the renderer for any paragraph renderer `render`:
      the non-blank renderings, stripped and followed by two spaces. */
  function Entries(paras: seq<Block>, render: Block -> string): (r: seq<string>)
    ensures |r| <= |paras|
    ensures forall k :: 0 <= k < |r| ==> IsMarkdownPara(r[k])
  {
    if |paras| == 0 then []
    else
      var t := Strip(render(paras[0]));
      StripEnds(render(paras[0]));
      (if t == "" then [] else [t + "  "]) + Entries(paras[1..], render)
  }

  /** `ocr_mk_markdown_with_para_core_v2`. */
  function MkMarkdownCore(paras: seq<Block>, mode: RenderMode, bucket: string, detect: string -> string): (r: seq<string>)
    ensures |r| <= |paras|
    ensures forall k :: 0 <= k < |r| ==> IsMarkdownPara(r[k])
  {
    Entries(paras, (p: Block) => ParaMarkdown(p, mode, bucket, detect))
  }

  lemma {:induction false} EntriesCount(paras: seq<Block>, render: Block -> string)
    ensures |Entries(paras, render)| == |paras| - CountWhere(paras, (p: Block) => AllSpace(render(p)))
  {
    if |paras| > 0 {
      EntriesCount(paras[1..], render);
      CountWhereFront(paras, (p: Block) => AllSpace(render(p)));
      StripEmpty(render(paras[0]));
    }
  }

  /** A paragraph yields an entry exactly when its markdown is not blank. */
  lemma MkMarkdownCoreEntries(paras: seq<Block>, mode: RenderMode, bucket: string, detect: string -> string)
    ensures |MkMarkdownCore(paras, mode, bucket, detect)|
      == |paras| - CountWhere(paras, (p: Block) => AllSpace(ParaMarkdown(p, mode, bucket, detect)))
  {
    var render := (p: Block) => ParaMarkdown(p, mode, bucket, detect);
    EntriesCount(paras, render);
    CountWhereCongruent(paras, (p: Block) => AllSpace(render(p)), (p: Block) => AllSpace(ParaMarkdown(p, mode, bucket, detect)));
  }

  lemma {:induction false} CountWhereCongruent<T>(s: seq<T>, p: T -> bool, q: T -> bool)
    requires forall x :: p(x) == q(x)
    ensures CountWhere(s, p) == CountWhere(s, q)
    decreases |s|
  {
    if |s| > 0 {
      CountWhereCongruent(s[..|s| - 1], p, q);
    }
  }

  lemma {:induction false} EntriesFilter(paras: seq<Block>, r1: Block -> string, r2: Block -> string, keep: Block -> bool)
    requires forall p :: keep(p) ==> r1(p) == r2(p)
    requires forall p :: !keep(p) ==> r1(p) == ""
    ensures Entries(paras, r1) == Entries(Filter(paras, keep), r2)
  {
    if |paras| > 0 {
      var x, rest := paras[0], paras[1..];
      EntriesFilter(rest, r1, r2, keep);
      assert paras == [x] + rest;
      FilterPrepend(x, rest, keep);
      var f := Filter(rest, keep);
      var t := Strip(r1(x));
      var tail := Entries(rest, r1);
      assert Entries(paras, r1) == (if t == "" then [] else [t + "  "]) + tail;
      if keep(x) {
        assert Filter(paras, keep) == [x] + f;
        assert ([x] + f)[1..] == f;
        assert Entries([x] + f, r2) == (if t == "" then [] else [t + "  "]) + Entries(f, r2);
      } else {
        assert Strip(r1(x)) == "";
        assert Filter(paras, keep) == f;
      }
    }
  }

  /** Only figures depend on the mode, and 'nlp' renders them as nothing. */
  lemma ParaModes(p: Block, bucket: string, detect: string -> string)
    ensures !IsFigure(p) ==> ParaMarkdown(p, Nlp, bucket, detect) == ParaMarkdown(p, Mm, bucket, detect)
    ensures IsFigure(p) ==> ParaMarkdown(p, Nlp, bucket, detect) == ""
  {
  }

  /** In 'nlp' mode images and tables are skipped: the result is the 'mm'
      result for the paragraphs that are not figures. */
  lemma NlpSkipsFigures(paras: seq<Block>, bucket: string, detect: string -> string)
    ensures MkMarkdownCore(paras, Nlp, bucket, detect)
      == MkMarkdownCore(Filter(paras, (p: Block) => !IsFigure(p)), Mm, bucket, detect)
  {
    var r1 := (p: Block) => ParaMarkdown(p, Nlp, bucket, detect);
    var r2 := (p: Block) => ParaMarkdown(p, Mm, bucket, detect);
    forall p | true
      ensures !IsFigure(p) ==> r1(p) == r2(p)
      ensures IsFigure(p) ==> r1(p) == ""
    {
      ParaModes(p, bucket, detect);
    }
    EntriesFilter(paras, r1, r2, (p: Block) => !IsFigure(p));
  }

  /** A title is never dropped: it yields "# " and its text, with trailing
      whitespace removed, and the line break. */
  lemma TitleEntry(p: Block, mode: RenderMode, bucket: string, detect: string -> string)
    requires p.kind == BlockType.Title
    ensures MkMarkdownCore([p], mode, bucket, detect)
      == [StripRight("# " + MergeParaWithText(p.lines, detect)) + "  "]
  {
    var m := "# " + MergeParaWithText(p.lines, detect);
    assert !IsSpace(m[0]);
    assert StripLeft(m) == m;
    StripRightKeepsHead(m);
    assert [p][1..] == [];
  }

  lemma {:induction false} StripRightKeepsHead(s: string)
    requires |s| > 0 && !IsSpace(s[0])
    ensures |StripRight(s)| > 0
  {
    if IsSpace(s[|s| - 1]) {
      StripRightKeepsHead(s[..|s| - 1]);
    }
  }

  // ---------------------------------------------------------------------
  // para_to_standard_format_v2
  // ---------------------------------------------------------------------

  /** The `type` key of a standard-format record. */
  datatype StdKind = TextPara | EquationPara | ImagePara | TablePara

  /** A standard-format record; an absent key is `None`. Captions and
      footnotes are the `img_*` lists of an image and the `table_*` lists of
      a table. */
  datatype StdContent = StdContent(
    kind: Option<StdKind>,
    text: Option<string>,
    textLevel: Option<int>,
    textFormat: Option<string>,
    imgPath: Option<string>,
    captions: seq<string>,
    footnotes: seq<string>,
    tableBody: Option<string>,
    pageIdx: Option<int>,
    dropReason: Option<string>)

  /** The value a loop leaves behind when each element may overwrite it. */
  function Overwrite<T>(acc: T, s: seq<Span>, f: Span -> Option<T>): T {
    if |s| == 0 then acc
    else Overwrite(if f(s[0]).Some? then f(s[0]).value else acc, s[1..], f)
  }

  /** The value of the last element that has one. */
  function LastOf<T>(s: seq<Span>, f: Span -> Option<T>): (r: Option<T>)
    ensures r.None? <==> forall k :: 0 <= k < |s| ==> f(s[k]).None?
    ensures r.Some? ==> exists k :: (0 <= k < |s| && f(s[k]) == r
      && forall j :: k < j < |s| ==> f(s[j]).None?)
  {
    if |s| == 0 then None
    else if f(s[|s| - 1]).Some? then f(s[|s| - 1])
    else
      var init := s[..|s| - 1];
      var r := LastOf(init, f);
      assert forall k :: 0 <= k < |init| ==> init[k] == s[k];
      assert r.Some? ==> exists k :: (0 <= k < |s| && f(s[k]) == r
        && forall j :: k < j < |s| ==> f(s[j]).None?) by {
        if r.Some? {
          var k :| 0 <= k < |init| && f(init[k]) == r && forall j :: k < j < |init| ==> f(init[j]).None?;
          assert f(s[k]) == r;
        }
      }
      r
  }

  /** The overwriting loop keeps the last value offered, or its start value. */
  lemma {:induction false} OverwriteLast<T>(acc: T, s: seq<Span>, f: Span -> Option<T>)
    ensures Overwrite(acc, s, f) == (if LastOf(s, f).Some? then LastOf(s, f).value else acc)
  {
    if |s| > 0 {
      var acc' := if f(s[0]).Some? then f(s[0]).value else acc;
      OverwriteLast(acc', s[1..], f);
      LastOfFront(s, f);
    }
  }

  lemma {:induction false} LastOfFront<T>(s: seq<Span>, f: Span -> Option<T>)
    requires |s| > 0
    ensures LastOf(s, f) == (if LastOf(s[1..], f).Some? then LastOf(s[1..], f) else f(s[0]))
    decreases |s|
  {
    if |s| > 1 {
      LastOfFront(s[..|s| - 1], f);
      assert s[..|s| - 1][1..] == s[1..][..|s| - 2];
      assert s[1..][|s| - 2] == s[|s| - 1];
    }
  }

  /** The stored path of an image span (its `img_path` update). */
  function ImagePathOf(bucket: string): Span -> Option<string> {
    (s: Span) => if s.kind == ContentType.Image && Truthy(s.imagePath) then Some(JoinPath([bucket, s.imagePath.value])) else None
  }

  /** The stored path of a table span. */
  function TablePathOf(bucket: string): Span -> Option<string> {
    (s: Span) => if s.kind == ContentType.Table && Truthy(s.imagePath) then Some(JoinPath([bucket, s.imagePath.value])) else None
  }

  /** The `table_body` a table span sets: its LaTeX, else its HTML. */
  function TableBodyOf(s: Span): Option<string> {
    if s.kind != ContentType.Table then None
    else if Truthy(s.latex) then Some("\n\n$\n " + s.latex.value + "\n$\n\n")
    else if Truthy(s.html) then Some("\n\n" + s.html.value + "\n\n")
    else None
  }

  function Record(kind: Option<StdKind>, text: Option<string>, level: Option<int>, format: Option<string>): StdContent {
    StdContent(kind, text, level, format, None, [], [], None, None, None)
  }

  /** `para_to_standard_format_v2`: a text, list or index block becomes a
      'text' record, a title one with `text_level` 1, an interline equation
      an 'equation' record in LaTeX format; an image keeps the last body
      image path and its captions and footnotes, a table the same plus the
      last body of a recognised table; every record gets the page index and,
      when given, the drop reason. Other block types give a record with no
      type. */
  function ParaToStandardFormat(p: Block, bucket: string, pageIdx: Option<int>, dropReason: Option<string>, detect: string -> string): (r: StdContent)
    ensures r.pageIdx == pageIdx && r.dropReason == dropReason
    ensures r.kind.Some? <==> p.kind in {BlockType.Text, BlockType.List, BlockType.Index, BlockType.Title,
                                         BlockType.InterlineEquation, BlockType.Image, BlockType.Table}
    ensures r.textLevel.Some? <==> p.kind == BlockType.Title
    ensures r.text.Some? ==> r.text.value == MergeParaWithText(p.lines, detect)
  {
    var base := match p.kind
      case Text => Record(Some(TextPara), Some(MergeParaWithText(p.lines, detect)), None, None)
      case List => Record(Some(TextPara), Some(MergeParaWithText(p.lines, detect)), None, None)
      case Index => Record(Some(TextPara), Some(MergeParaWithText(p.lines, detect)), None, None)
      case Title => Record(Some(TextPara), Some(MergeParaWithText(p.lines, detect)), Some(1), None)
      case InterlineEquation => Record(Some(EquationPara), Some(MergeParaWithText(p.lines, detect)), None, Some("latex"))
      case Image =>
        var spans := BodySpans(p.blocks, BlockType.ImageBody);
        StdContent(Some(ImagePara), None, None, None,
          Some(Overwrite("", spans, ImagePathOf(bucket))),
          PartTexts(p.blocks, BlockType.ImageCaption, detect),
          PartTexts(p.blocks, BlockType.ImageFootnote, detect),
          None, None, None)
      case Table =>
        var spans := BodySpans(p.blocks, BlockType.TableBody);
        StdContent(Some(TablePara), None, None, None,
          Some(Overwrite("", spans, TablePathOf(bucket))),
          PartTexts(p.blocks, BlockType.TableCaption, detect),
          PartTexts(p.blocks, BlockType.TableFootnote, detect),
          LastOf(spans, TableBodyOf), None, None)
      case _ => Record(None, None, None, None);
    base.(pageIdx := pageIdx, dropReason := dropReason)
  }

  /** An image record's path is that of the last body image with a path,
      or empty when there is none; the markdown of the same image ends with
      a link to that path. */
  lemma ImageRecordPath(p: Block, bucket: string, pageIdx: Option<int>, dropReason: Option<string>, detect: string -> string)
    requires p.kind == BlockType.Image
    ensures var r := ParaToStandardFormat(p, bucket, pageIdx, dropReason, detect);
      var spans := BodySpans(p.blocks, BlockType.ImageBody);
      var last := LastOf(spans, ImagePathOf(bucket));
      r.imgPath == Some(if last.Some? then last.value else "")
      && (last.Some? ==> EndsWith(ImageLinks(spans, bucket), "\n![](" + last.value + ")  \n"))
  {
    var spans := BodySpans(p.blocks, BlockType.ImageBody);
    OverwriteLast("", spans, ImagePathOf(bucket));
    LinksEndWithLast(spans, bucket);
  }

  predicate EndsWith(s: string, p: string) {
    |p| <= |s| && s[|s| - |p|..] == p
  }

  lemma {:induction false} LinksEndWithLast(spans: seq<Span>, bucket: string)
    ensures var last := LastOf(spans, ImagePathOf(bucket));
      last.Some? ==> EndsWith(ImageLinks(spans, bucket), "\n![](" + last.value + ")  \n")
  {
    if |spans| > 0 {
      var init, x := spans[..|spans| - 1], spans[|spans| - 1];
      var f := ImagePathOf(bucket);
      if f(x).Some? {
        var l := ImageLink(bucket, x.imagePath.value);
        assert ImageLinks(spans, bucket) == ImageLinks(init, bucket) + l;
      } else {
        LinksEndWithLast(init, bucket);
        assert ImageLinks(spans, bucket) == ImageLinks(init, bucket) + "";
      }
    }
  }

  // ---------------------------------------------------------------------
  // union_make
  // ---------------------------------------------------------------------

  /** `MakeMode`: markdown with figures, markdown without, or records. */
  datatype MakeMode = MmMd | NlpMd | StandardFormat | OtherMake

  /** `DropMode`: what to do with a page marked `need_drop`. */
  datatype DropMode = DropNone | NoneWithReason | WholePdf | SinglePage | OtherDrop

  /** The per-page dictionary: `need_drop`, `drop_reason`, `para_blocks`
      (empty when missing) and `page_idx`. */
  datatype PageInfo = PageInfo(needDrop: bool, dropReason: Option<string>, paraBlocks: seq<Block>, pageIdx: Option<int>)

  /** The exceptions `union_make` raises. */
  datatype MakeError = WholePdfDropped(reason: Option<string>) | NullDropMode

  /** The return value: markdown text, a record list, or nothing for an
      unknown make mode. */
  datatype MakeResult = Raised(error: MakeError) | Markdown(text: string) | Records(items: seq<StdContent>) | NoOutput

  /** What the drop mode does with one page: keep it (with the reason to
      attach, if any), skip it, or raise. */
  datatype PageFate = Keep(reason: Option<string>) | Skip | Fail(error: MakeError)

  function Fate(p: PageInfo, drop: DropMode): (f: PageFate)
    ensures !p.needDrop ==> f == Keep(None)
  {
    if !p.needDrop then Keep(None)
    else match drop
      case DropNone => Keep(None)
      case NoneWithReason => Keep(p.dropReason)
      case WholePdf => Fail(WholePdfDropped(p.dropReason))
      case SinglePage => Skip
      case OtherDrop => Fail(NullDropMode)
  }

  /** The markdown entries of every kept page, or the first error. */
  function MarkdownPages(pages: seq<PageInfo>, drop: DropMode, mode: RenderMode, bucket: string, detect: string -> string): Result<seq<string>>
  {
    if |pages| == 0 then Ok([])
    else
      match Fate(pages[0], drop)
      case Fail(e) => Err(e)
      case Skip => MarkdownPages(pages[1..], drop, mode, bucket, detect)
      case Keep(_) =>
        match MarkdownPages(pages[1..], drop, mode, bucket, detect)
        case Err(e) => Err(e)
        case Ok(rest) => Ok(MkMarkdownCore(pages[0].paraBlocks, mode, bucket, detect) + rest)
  }

  datatype Result<T> = Ok(value: T) | Err(error: MakeError)

  /** The records of every kept page, or the first error. With `attach`
      a kept page's reason goes into its records; without, no record gets
      one. */
  function RecordPages(pages: seq<PageInfo>, drop: DropMode, bucket: string, detect: string -> string, attach: bool): Result<seq<StdContent>>
  {
    if |pages| == 0 then Ok([])
    else
      match Fate(pages[0], drop)
      case Fail(e) => Err(e)
      case Skip => RecordPages(pages[1..], drop, bucket, detect, attach)
      case Keep(reason) =>
        match RecordPages(pages[1..], drop, bucket, detect, attach)
        case Err(e) => Err(e)
        case Ok(rest) => Ok(PageRecords(pages[0], bucket, if attach then reason else None, detect) + rest)
  }

  /** The records of one page's paragraphs. */
  function PageRecords(p: PageInfo, bucket: string, reason: Option<string>, detect: string -> string): (r: seq<StdContent>)
    ensures |r| == |p.paraBlocks|
    ensures forall k :: 0 <= k < |r| ==> r[k].pageIdx == p.pageIdx && r[k].dropReason == reason
  {
    seq(|p.paraBlocks|, k requires 0 <= k < |p.paraBlocks| =>
      ParaToStandardFormat(p.paraBlocks[k], bucket, p.pageIdx, reason, detect))
  }

  function Finish(make: MakeMode, drop: DropMode, pages: seq<PageInfo>, bucket: string, detect: string -> string, attach: bool): MakeResult {
    match make
    case MmMd =>
      (match MarkdownPages(pages, drop, Mm, bucket, detect)
       case Err(e) => Raised(e)
       case Ok(ps) => Markdown(JoinWith("\n\n", ps)))
    case NlpMd =>
      (match MarkdownPages(pages, drop, Nlp, "", detect)
       case Err(e) => Raised(e)
       case Ok(ps) => Markdown(JoinWith("\n\n", ps)))
    case StandardFormat =>
      (match RecordPages(pages, drop, bucket, detect, attach)
       case Err(e) => Raised(e)
       case Ok(rs) => Records(rs))
    case OtherMake =>
      (match RecordPages(pages, drop, bucket, detect, attach)
       case Err(e) => Raised(e)
       case Ok(_) => NoOutput)
  }

  /** `union_make` as written: under `NONE_WITH_REASON` the records of a
      dropped page do not carry its reason. */
  function UnionMakeAsWritten(pages: seq<PageInfo>, make: MakeMode, drop: DropMode, bucket: string, detect: string -> string): MakeResult {
    Finish(make, drop, pages, bucket, detect, false)
  }

  /** `union_make` with the drop reason attached under `NONE_WITH_REASON`. */
  function UnionMake(pages: seq<PageInfo>, make: MakeMode, drop: DropMode, bucket: string, detect: string -> string): MakeResult {
    Finish(make, drop, pages, bucket, detect, true)
  }

  /** Every entry of every page, pages in order. */
  function AllEntries(pages: seq<PageInfo>, mode: RenderMode, bucket: string, detect: string -> string): seq<string> {
    if |pages| == 0 then []
    else MkMarkdownCore(pages[0].paraBlocks, mode, bucket, detect) + AllEntries(pages[1..], mode, bucket, detect)
  }

  /** Every record of every page; a page marked for dropping passes its
      reason when `reasons` holds. */
  function AllRecords(pages: seq<PageInfo>, bucket: string, detect: string -> string, reasons: bool): seq<StdContent> {
    if |pages| == 0 then []
    else
      var reason := if reasons && pages[0].needDrop then pages[0].dropReason else None;
      PageRecords(pages[0], bucket, reason, detect) + AllRecords(pages[1..], bucket, detect, reasons)
  }

  predicate Raises(drop: DropMode) {
    drop == WholePdf || drop == OtherDrop
  }

  /** The error of the first page marked for dropping. */
  function DropError(p: PageInfo, drop: DropMode): MakeError {
    if drop == WholePdf then WholePdfDropped(p.dropReason) else NullDropMode
  }

  /** Under `WHOLE_PDF` (and an unknown drop mode) the first page marked for
      dropping raises; otherwise nothing does. */
  lemma {:induction false} MarkdownPagesFail(pages: seq<PageInfo>, drop: DropMode, mode: RenderMode, bucket: string, detect: string -> string)
    ensures var r := MarkdownPages(pages, drop, mode, bucket, detect);
      (r.Err? <==> Raises(drop) && exists k :: 0 <= k < |pages| && pages[k].needDrop)
      && (r.Err? ==> exists k :: (0 <= k < |pages| && pages[k].needDrop && r.error == DropError(pages[k], drop)
                                  && forall j :: 0 <= j < k ==> !pages[j].needDrop))
  {
    if |pages| > 0 {
      MarkdownPagesFail(pages[1..], drop, mode, bucket, detect);
      ShiftDrop(pages);
      if MarkdownPages(pages[1..], drop, mode, bucket, detect).Err? && !pages[0].needDrop {
        var r := MarkdownPages(pages[1..], drop, mode, bucket, detect);
        var k :| 0 <= k < |pages| - 1 && pages[1..][k].needDrop && r.error == DropError(pages[1..][k], drop)
          && forall j :: 0 <= j < k ==> !pages[1..][j].needDrop;
        assert pages[k + 1].needDrop && forall j :: 0 <= j < k + 1 ==> !pages[j].needDrop;
      }
    }
  }

  lemma ShiftDrop(pages: seq<PageInfo>)
    requires |pages| > 0
    ensures (exists k :: 0 <= k < |pages| && pages[k].needDrop)
      <==> pages[0].needDrop || exists k :: 0 <= k < |pages| - 1 && pages[1..][k].needDrop
  {
    if exists k :: 0 <= k < |pages| && pages[k].needDrop {
      var k :| 0 <= k < |pages| && pages[k].needDrop;
      if k > 0 {
        assert pages[1..][k - 1].needDrop;
      }
    }
    if exists k :: 0 <= k < |pages| - 1 && pages[1..][k].needDrop {
      var k :| 0 <= k < |pages| - 1 && pages[1..][k].needDrop;
      assert pages[k + 1].needDrop;
    }
  }

  lemma {:induction false} RecordPagesFail(pages: seq<PageInfo>, drop: DropMode, bucket: string, detect: string -> string, attach: bool)
    ensures var r := RecordPages(pages, drop, bucket, detect, attach);
      (r.Err? <==> Raises(drop) && exists k :: 0 <= k < |pages| && pages[k].needDrop)
      && (r.Err? ==> exists k :: (0 <= k < |pages| && pages[k].needDrop && r.error == DropError(pages[k], drop)
                                  && forall j :: 0 <= j < k ==> !pages[j].needDrop))
  {
    if |pages| > 0 {
      RecordPagesFail(pages[1..], drop, bucket, detect, attach);
      ShiftDrop(pages);
      if RecordPages(pages[1..], drop, bucket, detect, attach).Err? && !pages[0].needDrop {
        var r := RecordPages(pages[1..], drop, bucket, detect, attach);
        var k :| 0 <= k < |pages| - 1 && pages[1..][k].needDrop && r.error == DropError(pages[1..][k], drop)
          && forall j :: 0 <= j < k ==> !pages[1..][j].needDrop;
        assert pages[k + 1].needDrop && forall j :: 0 <= j < k + 1 ==> !pages[j].needDrop;
      }
    }
  }

  /** `union_make` raises exactly when the drop mode is `WHOLE_PDF` (or
      unknown) and some page is marked for dropping, and then with the
      reason of the first such page. */
  lemma UnionMakeRaises(pages: seq<PageInfo>, make: MakeMode, drop: DropMode, bucket: string, detect: string -> string)
    ensures var r := UnionMake(pages, make, drop, bucket, detect);
      (r.Raised? <==> Raises(drop) && exists k :: 0 <= k < |pages| && pages[k].needDrop)
      && (r.Raised? ==> exists k :: (0 <= k < |pages| && pages[k].needDrop && r.error == DropError(pages[k], drop)
                                     && forall j :: 0 <= j < k ==> !pages[j].needDrop))
  {
    MarkdownPagesFail(pages, drop, Mm, bucket, detect);
    MarkdownPagesFail(pages, drop, Nlp, "", detect);
    RecordPagesFail(pages, drop, bucket, detect, true);
  }

  /** Without dropping, every page contributes its markdown entries. */
  lemma {:induction false} MarkdownPagesKeepAll(pages: seq<PageInfo>, drop: DropMode, mode: RenderMode, bucket: string, detect: string -> string)
    requires drop == DropNone || drop == NoneWithReason
    ensures MarkdownPages(pages, drop, mode, bucket, detect) == Ok(AllEntries(pages, mode, bucket, detect))
  {
    if |pages| > 0 {
      MarkdownPagesKeepAll(pages[1..], drop, mode, bucket, detect);
    }
  }

  /** `SINGLE_PAGE` leaves out the pages marked for dropping. */
  lemma {:induction false} MarkdownPagesSingle(pages: seq<PageInfo>, mode: RenderMode, bucket: string, detect: string -> string)
    ensures MarkdownPages(pages, SinglePage, mode, bucket, detect)
      == Ok(AllEntries(Filter(pages, (p: PageInfo) => !p.needDrop), mode, bucket, detect))
  {
    var keep := (p: PageInfo) => !p.needDrop;
    if |pages| > 0 {
      var x, rest := pages[0], pages[1..];
      MarkdownPagesSingle(rest, mode, bucket, detect);
      assert pages == [x] + rest;
      FilterPrepend(x, rest, keep);
      var f := Filter(rest, keep);
      if keep(x) {
        assert Fate(x, SinglePage) == Keep(None);
        var e := MkMarkdownCore(x.paraBlocks, mode, bucket, detect);
        assert MarkdownPages(pages, SinglePage, mode, bucket, detect) == Ok(e + AllEntries(f, mode, bucket, detect));
        assert Filter(pages, keep) == [x] + f;
        assert ([x] + f)[1..] == f;
        assert AllEntries([x] + f, mode, bucket, detect) == e + AllEntries(f, mode, bucket, detect);
      } else {
        assert Fate(x, SinglePage) == Skip;
        assert Filter(pages, keep) == f;
      }
    }
  }

  lemma {:induction false} RecordPagesKeepAll(pages: seq<PageInfo>, drop: DropMode, bucket: string, detect: string -> string, attach: bool)
    requires drop == DropNone || drop == NoneWithReason
    ensures RecordPages(pages, drop, bucket, detect, attach)
      == Ok(AllRecords(pages, bucket, detect, attach && drop == NoneWithReason))
  {
    if |pages| > 0 {
      RecordPagesKeepAll(pages[1..], drop, bucket, detect, attach);
    }
  }

  lemma {:induction false} RecordPagesSingle(pages: seq<PageInfo>, bucket: string, detect: string -> string, attach: bool)
    ensures RecordPages(pages, SinglePage, bucket, detect, attach)
      == Ok(AllRecords(Filter(pages, (p: PageInfo) => !p.needDrop), bucket, detect, false))
  {
    var keep := (p: PageInfo) => !p.needDrop;
    if |pages| > 0 {
      var x, rest := pages[0], pages[1..];
      RecordPagesSingle(rest, bucket, detect, attach);
      assert pages == [x] + rest;
      FilterPrepend(x, rest, keep);
      var f := Filter(rest, keep);
      if keep(x) {
        assert Fate(x, SinglePage) == Keep(None);
        var e := PageRecords(x, bucket, None, detect);
        assert RecordPages(pages, SinglePage, bucket, detect, attach) == Ok(e + AllRecords(f, bucket, detect, false));
        assert Filter(pages, keep) == [x] + f;
        assert ([x] + f)[1..] == f;
        assert AllRecords([x] + f, bucket, detect, false) == e + AllRecords(f, bucket, detect, false);
      } else {
        assert Fate(x, SinglePage) == Skip;
        assert Filter(pages, keep) == f;
      }
    }
  }

  /** `SINGLE_PAGE` is `NONE` applied to the pages not marked for dropping. */
  lemma SinglePageSkips(pages: seq<PageInfo>, make: MakeMode, bucket: string, detect: string -> string)
    ensures UnionMake(pages, make, SinglePage, bucket, detect)
      == UnionMake(Filter(pages, (p: PageInfo) => !p.needDrop), make, DropNone, bucket, detect)
  {
    var kept := Filter(pages, (p: PageInfo) => !p.needDrop);
    MarkdownPagesSingle(pages, Mm, bucket, detect);
    MarkdownPagesSingle(pages, Nlp, "", detect);
    RecordPagesSingle(pages, bucket, detect, true);
    MarkdownPagesKeepAll(kept, DropNone, Mm, bucket, detect);
    MarkdownPagesKeepAll(kept, DropNone, Nlp, "", detect);
    RecordPagesKeepAll(kept, DropNone, bucket, detect, true);
  }

  /** Markdown output: the entries of all pages joined by blank lines;
      `NONE_WITH_REASON` renders like `NONE`. */
  lemma UnionMakeMarkdown(pages: seq<PageInfo>, drop: DropMode, bucket: string, detect: string -> string)
    requires drop == DropNone || drop == NoneWithReason
    ensures UnionMake(pages, MmMd, drop, bucket, detect) == Markdown(JoinWith("\n\n", AllEntries(pages, Mm, bucket, detect)))
    ensures UnionMake(pages, NlpMd, drop, bucket, detect) == Markdown(JoinWith("\n\n", AllEntries(pages, Nlp, "", detect)))
  {
    MarkdownPagesKeepAll(pages, drop, Mm, bucket, detect);
    MarkdownPagesKeepAll(pages, drop, Nlp, "", detect);
  }

  /** Under `NONE_WITH_REASON` the records of a page marked for dropping
      carry its reason; under `NONE` no record carries one. */
  lemma UnionMakeReasons(pages: seq<PageInfo>, bucket: string, detect: string -> string)
    ensures UnionMake(pages, StandardFormat, NoneWithReason, bucket, detect) == Records(AllRecords(pages, bucket, detect, true))
    ensures UnionMake(pages, StandardFormat, DropNone, bucket, detect) == Records(AllRecords(pages, bucket, detect, false))
  {
    RecordPagesKeepAll(pages, NoneWithReason, bucket, detect, true);
    RecordPagesKeepAll(pages, DropNone, bucket, detect, true);
  }

  /** As written, `NONE_WITH_REASON` gives the same records as `NONE`: the
      reason it looks up is never passed on. */
  lemma AsWrittenIgnoresReason(pages: seq<PageInfo>, bucket: string, detect: string -> string)
    ensures UnionMakeAsWritten(pages, StandardFormat, NoneWithReason, bucket, detect)
      == UnionMake(pages, StandardFormat, DropNone, bucket, detect)
  {
    RecordPagesKeepAll(pages, NoneWithReason, bucket, detect, false);
    RecordPagesKeepAll(pages, DropNone, bucket, detect, true);
  }

  /** One page marked for dropping with reason "r" and one text paragraph:
      as written its record has no drop reason, corrected it has "r". */
  lemma DropReasonLost()
    ensures var page := PageInfo(true, Some("r"), [NewBlock(BlockType.Text, Box(0.0, 0.0, 1.0, 1.0), None, [])], Some(0));
      var detect := (t: string) => "en";
      var asWritten := UnionMakeAsWritten([page], StandardFormat, NoneWithReason, "", detect);
      var corrected := UnionMake([page], StandardFormat, NoneWithReason, "", detect);
      asWritten.Records? && |asWritten.items| == 1 && asWritten.items[0].dropReason == None
      && corrected.Records? && |corrected.items| == 1 && corrected.items[0].dropReason == Some("r")
  {
    var page := PageInfo(true, Some("r"), [NewBlock(BlockType.Text, Box(0.0, 0.0, 1.0, 1.0), None, [])], Some(0));
    var detect := (t: string) => "en";
    RecordPagesKeepAll([page], NoneWithReason, "", detect, false);
    RecordPagesKeepAll([page], NoneWithReason, "", detect, true);
    assert [page][1..] == [];
  }

  // ---------------------------------------------------------------------
  // ocr_mk_mm_markdown_with_para_and_pagination
  // ---------------------------------------------------------------------

  /** One page of the paginated output: `page_no` and `md_content`. */
  datatype PageMarkdown = PageMarkdown(pageNo: int, mdContent: string)

  /** The markdown of one page: its entries joined by blank lines. */
  function PageMd(p: PageInfo, bucket: string, detect: string -> string): string {
    JoinWith("\n\n", MkMarkdownCore(p.paraBlocks, Mm, bucket, detect))
  }

  /** `ocr_mk_mm_markdown_with_para_and_pagination`: one entry per page,
      numbered from 0, with the page's markdown ('' for a page without
      paragraphs). */
  function PaginatedMarkdown(pages: seq<PageInfo>, bucket: string, detect: string -> string): (r: seq<PageMarkdown>)
    ensures |r| == |pages|
    ensures forall k :: 0 <= k < |pages| ==> r[k].pageNo == k && r[k].mdContent == PageMd(pages[k], bucket, detect)
    ensures forall k :: 0 <= k < |pages| ==>
      (r[k].mdContent == "" <==> MkMarkdownCore(pages[k].paraBlocks, Mm, bucket, detect) == [])
  {
    forall k | 0 <= k < |pages| {
      JoinNonEmpty(MkMarkdownCore(pages[k].paraBlocks, Mm, bucket, detect));
    }
    seq(|pages|, k requires 0 <= k < |pages| =>
      PageMarkdown(k, if |pages[k].paraBlocks| == 0 then "" else PageMd(pages[k], bucket, detect)))
  }

  lemma JoinNonEmpty(es: seq<string>)
    requires forall k :: 0 <= k < |es| ==> IsMarkdownPara(es[k])
    ensures JoinWith("\n\n", es) == "" <==> es == []
  {
    if |es| > 1 {
      assert |JoinWith("\n\n", es)| >= |es[0]|;
    }
  }

  /** The markdown of the pages that have some, in page order. */
  function PageMds(pages: seq<PageInfo>, bucket: string, detect: string -> string): seq<string> {
    if |pages| == 0 then []
    else
      var head := if MkMarkdownCore(pages[0].paraBlocks, Mm, bucket, detect) == [] then [] else [PageMd(pages[0], bucket, detect)];
      head + PageMds(pages[1..], bucket, detect)
  }

  /** The whole-document markdown is the paginated markdown without its
      blank pages, joined by blank lines. */
  lemma {:induction false} PaginationAgrees(pages: seq<PageInfo>, bucket: string, detect: string -> string)
    ensures JoinWith("\n\n", AllEntries(pages, Mm, bucket, detect)) == JoinWith("\n\n", PageMds(pages, bucket, detect))
    ensures AllEntries(pages, Mm, bucket, detect) == [] <==> PageMds(pages, bucket, detect) == []
  {
    if |pages| > 0 {
      PaginationAgrees(pages[1..], bucket, detect);
      var e := MkMarkdownCore(pages[0].paraBlocks, Mm, bucket, detect);
      var rest := AllEntries(pages[1..], Mm, bucket, detect);
      var mds := PageMds(pages[1..], bucket, detect);
      var md := PageMd(pages[0], bucket, detect);
      assert AllEntries(pages, Mm, bucket, detect) == e + rest;
      assert PageMds(pages, bucket, detect) == (if e == [] then [] else [md]) + mds;
      if e == [] {
        assert e + rest == rest;
        assert [] + mds == mds;
      } else if rest == [] {
        assert e + rest == e;
        assert [md] + mds == [md];
        assert JoinWith("\n\n", [md]) == md;
      } else {
        assert mds != [];
        JoinWithAppend("\n\n", e, rest);
        JoinWithAppend("\n\n", [md], mds);
      }
    }
  }
}
