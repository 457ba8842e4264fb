/**
 * The writer: the output format chosen case-insensitively, the default output path,
 * the PDF document as a margin triple and a "story" of flowables (paragraphs, tables,
 * images, page breaks), and the Markdown text. Both outputs are built by loops over the
 * book's pages and blocks; only blocks marked translated contribute.
 */
module Writer {
  import opened Wrappers
  import opened PyStrings
  import opened Exceptions
  import opened Frames
  import opened ContentModel
  import opened PageModel
  import opened BookModel

  // ---------------------------------------------------------------- format and path

  datatype Format = Pdf | Markdown

  /** `file_format.lower()` compared with "pdf", then with "markdown". */
  function FormatOf(fileFormat: string): Option<Format> {
    if Lower(fileFormat) == "pdf" then Some(Pdf)
    else if Lower(fileFormat) == "markdown" then Some(Markdown)
    else None
  }

  /** `c` lowers to the lower-case ASCII letter `w`. */
  predicate SpellsLetter(c: char, w: char)
    requires 'a' <= w <= 'z'
  {
    c == w || c as int == w as int - 32 || (w == 'k' && c == '\U{212A}')
  }

  /**
   * Lowering a string gives a lower-case ASCII word exactly when each character is that
   * letter in either case (or the Kelvin sign for k).
   */
  lemma LowerSpells(s: string, word: string)
    requires forall i :: 0 <= i < |word| ==> 'a' <= word[i] <= 'z'
    ensures Lower(s) == word <==> |s| == |word| && forall i :: 0 <= i < |s| ==> SpellsLetter(s[i], word[i])
  {
    if |s| == |word| && forall i :: 0 <= i < |s| ==> SpellsLetter(s[i], word[i]) {
      assert forall i :: 0 <= i < |s| ==> Lower(s)[i] == word[i];
    }
  }

  /** The dispatch is case-insensitive: "PDF", "Pdf" and "pdf" all choose the PDF writer. */
  lemma FormatIgnoresCase(fileFormat: string)
    ensures FormatOf(fileFormat) == Some(Pdf) <==>
      |fileFormat| == 3 && SpellsLetter(fileFormat[0], 'p') && SpellsLetter(fileFormat[1], 'd') && SpellsLetter(fileFormat[2], 'f')
    ensures FormatOf(fileFormat) == FormatOf(Lower(fileFormat))
  {
    LowerSpells(fileFormat, "pdf");
    assert Lower(Lower(fileFormat)) == Lower(fileFormat);
  }

  const PdfSuffix: string := "_translated.pdf"
  const MarkdownSuffix: string := "_translated.md"

  /** The given output path, or the source path with every ".pdf" replaced by `suffix`. */
  function OutputPath(given: Option<string>, source: string, suffix: string): string {
    if given.Some? then given.value else Replace(source, ".pdf", suffix)
  }

  /** A source path ending in its only ".pdf" gets `suffix` in its place. */
  lemma DefaultOutputPath(stem: string, suffix: string)
    requires !Contains(stem, ".pdf")
    ensures OutputPath(None, stem + ".pdf", suffix) == stem + suffix
  {
    ReplaceSuffix(stem, ".pdf", suffix);
  }

  /** A source path without ".pdf" is used as it is, so the output overwrites the input. */
  lemma DefaultOutputPathNoPdf(source: string, suffix: string)
    requires !Contains(source, ".pdf")
    ensures OutputPath(None, source, suffix) == source
  {
    ContainsIff(source, ".pdf");
    assert IndexOf(source, ".pdf") == None;
  }

  // ---------------------------------------------------------------- the PDF story

  /** The `ParagraphStyle` of a text block. */
  datatype ParaStyle = ParaStyle(name: string, fontName: string, fontSize: real, leading: Option<real>,
                                 firstLineIndent: Option<real>, spaceBefore: real, textColor: Option<Color>)

  /**
   * What the story holds: a paragraph, a table of cell values with its column widths,
   * a one-cell table around an image (named after its page and block index and the
   * detected format), or a page break.
   */
  datatype Flowable =
    | Paragraph(text: string, style: ParaStyle)
    | TableFlow(rows: seq<seq<Cell>>, colWidths: Option<seq<real>>, spaceBefore: real)
    | ImageFlow(data: seq<bv8>, format: string, width: real, height: real, pageIdx: nat, contentIdx: nat)
    | PageBreak

  /** A saved document: the PDF's path, margins and story, or the Markdown file's path and text. */
  datatype Document =
    | PdfDocument(path: string, leftMargin: real, rightMargin: real, topMargin: real, story: seq<Flowable>)
    | MarkdownFile(path: string, text: string)

  /** The paragraph style: bold font exactly for bold blocks, the rest copied from the block. */
  function TextStyle(b: Block): (s: ParaStyle)
    ensures s.fontName == "SimSun-Bold" <==> b.isBold
    ensures s.fontSize == b.fontSize && s.leading == b.leading && s.firstLineIndent == b.firstLineOffset
    ensures s.spaceBefore == b.spaceBefore && s.textColor == b.textColor
  {
    ParaStyle("SimSun", if b.isBold then "SimSun-Bold" else "SimSun", b.fontSize, b.leading,
              b.firstLineOffset, b.spaceBefore, b.textColor)
  }

  /**
   * Whether a block reaches the story: it is translated, and it is an image only if the
   * image's format is detected. (A consistent translated block holds a value of its
   * kind's type; see `ContentModel.Consistent`.)
   */
  predicate Emits(b: Block, detect: seq<bv8> -> Option<string>) {
    b.status &&
    match b.kind
    case Text => b.translation.Str?
    case Table => b.translation.Frame?
    case Image => b.original.PdfImage? && detect(b.original.image.stream).Some?
  }

  /**
   * What one block adds to the story: a paragraph in the block's style, its grid with
   * its column widths, or its image with the detected format; nothing unless it is
   * translated, nor for an image of undetected format.
   */
  function BlockFlows(b: Block, pageIdx: nat, contentIdx: nat, detect: seq<bv8> -> Option<string>): (r: seq<Flowable>)
    ensures |r| == (if Emits(b, detect) then 1 else 0)
    ensures r != [] ==> !r[0].PageBreak?
    ensures r != [] && b.kind == Text ==> r[0].Paragraph? && r[0].text == b.translation.s
  {
    if !b.status then []
    else
      match b.kind
      case Text => if b.translation.Str? then [Paragraph(b.translation.s, TextStyle(b))] else []
      case Table => if b.translation.Frame? then [TableFlow(b.translation.frame.rows, b.colWidths, b.spaceBefore)] else []
      case Image =>
        if !b.original.PdfImage? then []
        else
          var image := b.original.image;
          match detect(image.stream)
          case None => []
          case Some(format) => [ImageFlow(image.stream, format, image.width, image.height, pageIdx, contentIdx)]
  }

  /** The flowables of a page's first `n` blocks. */
  function FlowsUpTo(bs: seq<Block>, pageIdx: nat, n: nat, detect: seq<bv8> -> Option<string>): seq<Flowable>
    requires n <= |bs|
  {
    if n == 0 then [] else FlowsUpTo(bs, pageIdx, n - 1, detect) + BlockFlows(bs[n - 1], pageIdx, n - 1, detect)
  }

  function PageFlows(bs: seq<Block>, pageIdx: nat, detect: seq<bv8> -> Option<string>): seq<Flowable> {
    FlowsUpTo(bs, pageIdx, |bs|, detect)
  }

  /** The story of the first `n` pages: each page's flowables, a page break after all but the last page. */
  function StoryUpTo(pages: seq<PageValue>, n: nat, detect: seq<bv8> -> Option<string>): seq<Flowable>
    requires n <= |pages|
  {
    if n == 0 then []
    else StoryUpTo(pages, n - 1, detect) + PageFlows(pages[n - 1].blocks, n - 1, detect)
         + (if n < |pages| then [PageBreak] else [])
  }

  function Story(pages: seq<PageValue>, detect: seq<bv8> -> Option<string>): seq<Flowable> {
    StoryUpTo(pages, |pages|, detect)
  }

  // ---------------------------------------------------------------- attributes the writer reads

  /**
   * The first attribute the PDF writer reads of a block and finds missing, which raises
   * `AttributeError`: for a translated text block `leading`, `first_line_offset`, then
   * `text_color`, in the order its style reads them; for a translated table block the
   * grid's `values` (a missing grid), then `col_widths`. Untranslated blocks and images
   * are not read.
   */
  function MissingAttr(b: Block): (r: Option<string>)
    ensures r.None? <==> !b.status || (Assigned(b) && (b.kind == Table ==> b.translation.Frame?))
    ensures r.Some? ==> b.status && b.kind != Image
  {
    if !b.status then None
    else
      match b.kind
      case Text =>
        if b.leading.None? then Some("leading")
        else if b.firstLineOffset.None? then Some("first_line_offset")
        else if b.textColor.None? then Some("text_color")
        else None
      case Table =>
        if !b.translation.Frame? then Some("values")
        else if b.colWidths.None? then Some("col_widths")
        else None
      case Image => None
  }

  // ---------------------------------------------------------------- the first block that raises

  /**
   * What a writer loop reports when `f` tells what a block raises: the first `Some` among
   * a page's first `n` blocks, in block order.
   */
  function FirstUpTo<T>(bs: seq<Block>, f: Block -> Option<T>, n: nat): Option<T>
    requires n <= |bs|
  {
    if n == 0 then None
    else if FirstUpTo(bs, f, n - 1).Some? then FirstUpTo(bs, f, n - 1)
    else f(bs[n - 1])
  }

  /** The same over a book's first `n` pages: page by page, block by block. */
  function BookFirstUpTo<T>(pages: seq<PageValue>, f: Block -> Option<T>, n: nat): Option<T>
    requires n <= |pages|
  {
    if n == 0 then None
    else if BookFirstUpTo(pages, f, n - 1).Some? then BookFirstUpTo(pages, f, n - 1)
    else FirstUpTo(pages[n - 1].blocks, f, |pages[n - 1].blocks|)
  }

  /**
   * A page raises exactly when one of its blocks does, and then with the first such
   * block's exception.
   */
  lemma {:induction false} FirstFound<T>(bs: seq<Block>, f: Block -> Option<T>, n: nat)
    requires n <= |bs|
    ensures FirstUpTo(bs, f, n).None? <==> forall k :: 0 <= k < n ==> f(bs[k]).None?
    ensures FirstUpTo(bs, f, n).Some? ==>
      exists k :: 0 <= k < n && FirstUpTo(bs, f, n) == f(bs[k]) && forall j :: 0 <= j < k ==> f(bs[j]).None?
  {
    if n > 0 {
      FirstFound(bs, f, n - 1);
      if FirstUpTo(bs, f, n - 1).None? && f(bs[n - 1]).Some? {
        assert FirstUpTo(bs, f, n) == f(bs[n - 1]);
      }
    }
  }

  /** Once a block raises, later blocks do not change what the page reports. */
  lemma {:induction false} FirstStops<T>(bs: seq<Block>, f: Block -> Option<T>, m: nat, n: nat)
    requires m <= n <= |bs| && FirstUpTo(bs, f, m).Some?
    ensures FirstUpTo(bs, f, n) == FirstUpTo(bs, f, m)
    decreases n
  {
    if n > m {
      FirstStops(bs, f, m, n - 1);
    }
  }

  /** A book raises exactly when one of its pages does, and then with the first such page's exception. */
  lemma {:induction false} BookFirstFound<T>(pages: seq<PageValue>, f: Block -> Option<T>, n: nat)
    requires n <= |pages|
    ensures BookFirstUpTo(pages, f, n).None? <==>
      forall i :: 0 <= i < n ==> FirstUpTo(pages[i].blocks, f, |pages[i].blocks|).None?
    ensures BookFirstUpTo(pages, f, n).Some? ==>
      exists i :: 0 <= i < n && BookFirstUpTo(pages, f, n) == FirstUpTo(pages[i].blocks, f, |pages[i].blocks|)
        && forall j :: 0 <= j < i ==> FirstUpTo(pages[j].blocks, f, |pages[j].blocks|).None?
  {
    if n > 0 {
      BookFirstFound(pages, f, n - 1);
      if BookFirstUpTo(pages, f, n - 1).None? && FirstUpTo(pages[n - 1].blocks, f, |pages[n - 1].blocks|).Some? {
        assert BookFirstUpTo(pages, f, n) == FirstUpTo(pages[n - 1].blocks, f, |pages[n - 1].blocks|);
      }
    }
  }

  /** Once a page raises, later pages do not change what the book reports. */
  lemma {:induction false} BookFirstStops<T>(pages: seq<PageValue>, f: Block -> Option<T>, m: nat, n: nat)
    requires m <= n <= |pages| && BookFirstUpTo(pages, f, m).Some?
    ensures BookFirstUpTo(pages, f, n) == BookFirstUpTo(pages, f, m)
    decreases n
  {
    if n > m {
      BookFirstStops(pages, f, m, n - 1);
    }
  }

  /** The first attribute a page lacks, in block order. */
  function PageMissing(bs: seq<Block>): Option<string> {
    FirstUpTo(bs, MissingAttr, |bs|)
  }

  /** The first attribute a book lacks, in story order. */
  function StoryMissing(pages: seq<PageValue>): Option<string> {
    BookFirstUpTo(pages, MissingAttr, |pages|)
  }

  /** A book of consistent blocks that carry the parser's attributes lacks nothing the writer reads. */
  lemma NothingMissing(pages: seq<PageValue>)
    requires forall i, k :: 0 <= i < |pages| && 0 <= k < |pages[i].blocks| ==>
      Consistent(pages[i].blocks[k]) && Assigned(pages[i].blocks[k])
    ensures StoryMissing(pages).None?
  {
    forall i | 0 <= i < |pages| ensures PageMissing(pages[i].blocks).None? {
      FirstFound(pages[i].blocks, MissingAttr, |pages[i].blocks|);
    }
    BookFirstFound(pages, MissingAttr, |pages|);
  }

  /** A flowable whose style or column widths hold no unassigned attribute. */
  predicate Styled(f: Flowable) {
    (f.Paragraph? ==> f.style.leading.Some? && f.style.firstLineIndent.Some? && f.style.textColor.Some?)
    && (f.TableFlow? ==> f.colWidths.Some?)
  }

  lemma {:induction false} FlowsStyled(bs: seq<Block>, pageIdx: nat, n: nat, detect: seq<bv8> -> Option<string>)
    requires n <= |bs| && FirstUpTo(bs, MissingAttr, n).None?
    ensures forall k :: 0 <= k < |FlowsUpTo(bs, pageIdx, n, detect)| ==> Styled(FlowsUpTo(bs, pageIdx, n, detect)[k])
  {
    if n > 0 {
      FlowsStyled(bs, pageIdx, n - 1, detect);
    }
  }

  /** When nothing is missing, every paragraph style and table the story holds is fully assigned. */
  lemma {:induction false} StoryStyled(pages: seq<PageValue>, n: nat, detect: seq<bv8> -> Option<string>)
    requires n <= |pages| && BookFirstUpTo(pages, MissingAttr, n).None?
    ensures forall k :: 0 <= k < |StoryUpTo(pages, n, detect)| ==> Styled(StoryUpTo(pages, n, detect)[k])
  {
    if n > 0 {
      StoryStyled(pages, n - 1, detect);
      FlowsStyled(pages[n - 1].blocks, n - 1, |pages[n - 1].blocks|, detect);
    }
  }

  /** The margins `SimpleDocTemplate` gets: the first page's, or 45/45/30/30 for a book without pages. */
  function DocMargins(pages: seq<PageValue>): Result<Margins, Error> {
    if pages == [] then Ok(Margins(45.0, 45.0, 30.0, 30.0))
    else if pages[0].margins.None? then Err(MissingAttribute("left_margin"))
    else Ok(pages[0].margins.value)
  }

  /**
   * `_save_translated_book_pdf`: the document at the output path (the bottom margin is
   * computed but not passed), or the `AttributeError` of a missing margin or of the first
   * block in story order that lacks an attribute the writer reads.
   */
  function PdfSpec(book: BookValue, outputPath: Option<string>, detect: seq<bv8> -> Option<string>): (r: Result<Document, Error>)
    ensures r.Ok? ==> r.value.PdfDocument? && forall k :: 0 <= k < |r.value.story| ==> Styled(r.value.story[k])
  {
    match DocMargins(book.pages)
    case Err(e) => Err(e)
    case Ok(m) =>
      match StoryMissing(book.pages)
      case Some(name) => Err(MissingAttribute(name))
      case None =>
        StoryStyled(book.pages, |book.pages|, detect);
        Ok(PdfDocument(OutputPath(outputPath, book.path, PdfSuffix), m.left, m.right, m.top, Story(book.pages, detect)))
  }

  // ---------------------------------------------------------------- properties of the story

  /** How many page breaks a sequence of flowables holds. */
  function CountBreaks(fs: seq<Flowable>): nat {
    if fs == [] then 0 else CountBreaks(fs[..|fs| - 1]) + (if fs[|fs| - 1] == PageBreak then 1 else 0)
  }

  lemma {:induction false} CountBreaksAppend(a: seq<Flowable>, b: seq<Flowable>)
    ensures CountBreaks(a + b) == CountBreaks(a) + CountBreaks(b)
  {
    if b != [] {
      assert (a + b)[..|a + b| - 1] == a + b[..|b| - 1];
      CountBreaksAppend(a, b[..|b| - 1]);
    } else {
      assert a + b == a;
    }
  }

  lemma {:induction false} CountBreaksNone(fs: seq<Flowable>)
    requires PageBreak !in fs
    ensures CountBreaks(fs) == 0
  {
    if fs != [] {
      assert fs[|fs| - 1] in fs;
      CountBreaksNone(fs[..|fs| - 1]);
    }
  }

  /** A page's flowables, then a page break or not: the break is the only one added. */
  lemma CountBreaksJoin(prev: seq<Flowable>, flows: seq<Flowable>, brk: bool)
    requires PageBreak !in flows
    ensures CountBreaks(prev + flows + (if brk then [PageBreak] else [])) == CountBreaks(prev) + (if brk then 1 else 0)
  {
    var sep: seq<Flowable> := if brk then [PageBreak] else [];
    CountBreaksAppend(prev + flows, sep);
    CountBreaksAppend(prev, flows);
    CountBreaksNone(flows);
    assert CountBreaks(sep) == CountBreaks([]) + (if brk then 1 else 0);
  }

  /** A page contributes no page break of its own. */
  lemma {:induction false} FlowsHaveNoBreaks(bs: seq<Block>, pageIdx: nat, n: nat, detect: seq<bv8> -> Option<string>)
    requires n <= |bs|
    ensures PageBreak !in FlowsUpTo(bs, pageIdx, n, detect)
  {
    if n > 0 {
      FlowsHaveNoBreaks(bs, pageIdx, n - 1, detect);
    }
  }

  /** The number of the first `n` blocks that reach the story. */
  function CountEmitting(bs: seq<Block>, n: nat, detect: seq<bv8> -> Option<string>): nat
    requires n <= |bs|
  {
    if n == 0 then 0 else CountEmitting(bs, n - 1, detect) + (if Emits(bs[n - 1], detect) then 1 else 0)
  }

  /** A page adds one flowable per block that reaches the story, and no more. */
  lemma {:induction false} FlowsCount(bs: seq<Block>, pageIdx: nat, n: nat, detect: seq<bv8> -> Option<string>)
    requires n <= |bs|
    ensures |FlowsUpTo(bs, pageIdx, n, detect)| == CountEmitting(bs, n, detect)
  {
    if n > 0 {
      FlowsCount(bs, pageIdx, n - 1, detect);
    }
  }

  lemma StoryStep(pages: seq<PageValue>, n: nat, detect: seq<bv8> -> Option<string>)
    requires 0 < n <= |pages|
    ensures StoryUpTo(pages, n, detect)
         == StoryUpTo(pages, n - 1, detect) + PageFlows(pages[n - 1].blocks, n - 1, detect)
            + (if n < |pages| then [PageBreak] else [])
  {
  }

  /** The story of a book with pages has exactly one page break fewer than pages. */
  lemma {:induction false} StoryBreaks(pages: seq<PageValue>, n: nat, detect: seq<bv8> -> Option<string>)
    requires 0 < n <= |pages|
    ensures CountBreaks(StoryUpTo(pages, n, detect)) == (if n == |pages| then n - 1 else n)
  {
    StoryStep(pages, n, detect);
    FlowsHaveNoBreaks(pages[n - 1].blocks, n - 1, |pages[n - 1].blocks|, detect);
    CountBreaksJoin(StoryUpTo(pages, n - 1, detect), PageFlows(pages[n - 1].blocks, n - 1, detect), n < |pages|);
    if n > 1 {
      StoryBreaks(pages, n - 1, detect);
    }
  }

  /**
   * `a` and `b` differ at most in blocks that neither marks translated: the same number
   * of pages and blocks, and equal blocks wherever either side is translated.
   */
  predicate SameTranslatedBlocks(a: seq<Block>, b: seq<Block>) {
    |a| == |b| && forall k :: 0 <= k < |a| ==> a[k] == b[k] || (!a[k].status && !b[k].status)
  }

  predicate SameTranslatedPages(a: seq<PageValue>, b: seq<PageValue>) {
    |a| == |b| && forall i :: 0 <= i < |a| ==> SameTranslatedBlocks(a[i].blocks, b[i].blocks)
  }

  lemma {:induction false} FlowsOnlyTranslated(a: seq<Block>, b: seq<Block>, pageIdx: nat, n: nat, detect: seq<bv8> -> Option<string>)
    requires SameTranslatedBlocks(a, b) && n <= |a|
    ensures FlowsUpTo(a, pageIdx, n, detect) == FlowsUpTo(b, pageIdx, n, detect)
  {
    if n > 0 {
      FlowsOnlyTranslated(a, b, pageIdx, n - 1, detect);
    }
  }

  /** Books whose pages give the same flowables, page by page, give the same story. */
  lemma {:induction false} StoryCongruent(a: seq<PageValue>, b: seq<PageValue>, n: nat, detect: seq<bv8> -> Option<string>)
    requires |a| == |b| && n <= |a|
    requires forall i :: 0 <= i < n ==> PageFlows(a[i].blocks, i, detect) == PageFlows(b[i].blocks, i, detect)
    ensures StoryUpTo(a, n, detect) == StoryUpTo(b, n, detect)
  {
    if n > 0 {
      StoryCongruent(a, b, n - 1, detect);
    }
  }

  /** Only translated blocks reach the story: changing untranslated ones changes nothing. */
  lemma StoryOnlyTranslated(a: seq<PageValue>, b: seq<PageValue>, n: nat, detect: seq<bv8> -> Option<string>)
    requires SameTranslatedPages(a, b) && n <= |a|
    ensures StoryUpTo(a, n, detect) == StoryUpTo(b, n, detect)
  {
    forall i | 0 <= i < n ensures PageFlows(a[i].blocks, i, detect) == PageFlows(b[i].blocks, i, detect) {
      FlowsOnlyTranslated(a[i].blocks, b[i].blocks, i, |a[i].blocks|, detect);
    }
    StoryCongruent(a, b, n, detect);
  }

  // ---------------------------------------------------------------- the Markdown text

  /** The header row: the column labels 0 .. width-1. */
  function HeaderLine(f: DataFrame): string {
    "| " + Join(" | ", seq(f.width, j => IntToString(j))) + " |" + "\n"
  }

  /** The separator: one `---` per column. */
  function SeparatorLine(width: nat): string {
    "| " + Join(" | ", seq(width, _ => "---")) + " |" + "\n"
  }

  function RowLine(row: seq<Cell>): string {
    "| " + Join(" | ", RowText(row)) + " |"
  }

  function RowLines(f: DataFrame): (r: seq<string>)
    ensures |r| == |f.rows| && forall i :: 0 <= i < |f.rows| ==> r[i] == RowLine(f.rows[i])
  {
    seq(|f.rows|, i requires 0 <= i < |f.rows| => RowLine(f.rows[i]))
  }

  /** The body: one line per row, then a blank line. */
  function BodyText(f: DataFrame): string {
    Join("\n", RowLines(f)) + "\n\n"
  }

  function TableMarkdown(f: DataFrame): string {
    HeaderLine(f) + SeparatorLine(f.width) + BodyText(f)
  }

  /**
   * What one block writes: a translated text and a blank line, or a translated table;
   * nothing for an untranslated block or an image. A translated block whose translation
   * has the wrong type writes nothing here; the writer raises for it, as `MarkdownError` says.
   */
  function BlockMarkdown(b: Block): string {
    if !b.status then ""
    else
      match b.kind
      case Text => if b.translation.Str? then b.translation.s + "\n\n" else ""
      case Table => if b.translation.Frame? then TableMarkdown(b.translation.frame) else ""
      case Image => ""
  }

  /** Python's name for the type of a value. */
  function TypeName(v: Value): string {
    match v
    case NoneValue => "NoneType"
    case Str(_) => "str"
    case List(_) => "list"
    case Frame(_) => "DataFrame"
    case PilImage(_) => "Image"
    case PdfImage(_) => "dict"
  }

  /** Python's `TypeError` message for `v + '\n\n'` written to a file, for a `v` that is not a string. */
  function AppendMessage(v: Value): string {
    if v.List? then ListConcatMessage
    else if v.Frame? then FrameWriteMessage
    else "unsupported operand type(s) for +: '" + TypeName(v) + "' and 'str'"
  }

  const ListConcatMessage: string := "can only concatenate list (not \"str\") to list"
  const FrameWriteMessage: string := "write() argument must be str, not DataFrame"

  /**
   * What the Markdown writer raises for a block. A translated text block whose translation
   * is not a string fails at `text + '\n\n'`: a list cannot be concatenated with a string,
   * other values have no `+` with one, and a grid adds the string cell by cell and then
   * fails in `write`. A translated table block whose translation is not a grid has no
   * `columns`. Nothing else raises.
   */
  function MarkdownError(b: Block): (r: Option<Error>)
    ensures r.Some? ==> b.status && b.kind != Image
    ensures Consistent(b) ==> r.None?
  {
    if !b.status then None
    else
      match b.kind
      case Text =>
        if b.translation.Str? then None else Some(TypeErr(AppendMessage(b.translation)))
      case Table => if b.translation.Frame? then None else Some(MissingAttribute("columns"))
      case Image => None
  }

  /**
   * A translated text or table block raises exactly when it would write nothing: every
   * block the writer can write adds at least its line breaks or the table's header.
   */
  lemma MarkdownErrorExact(b: Block)
    ensures MarkdownError(b).None? <==> !b.status || b.kind == Image || BlockMarkdown(b) != ""
  {
  }

  /** The exception the Markdown writer raises for a page: its first raising block. */
  function PageMarkdownError(bs: seq<Block>): Option<Error> {
    FirstUpTo(bs, MarkdownError, |bs|)
  }

  /** The exception the Markdown writer raises for a book: its first raising block in book order. */
  function BookMarkdownError(pages: seq<PageValue>): Option<Error> {
    BookFirstUpTo(pages, MarkdownError, |pages|)
  }

  /** A book of consistent blocks is written without an exception. */
  lemma NoMarkdownError(pages: seq<PageValue>)
    requires forall i, k :: 0 <= i < |pages| && 0 <= k < |pages[i].blocks| ==> Consistent(pages[i].blocks[k])
    ensures BookMarkdownError(pages).None?
  {
    forall i | 0 <= i < |pages| ensures PageMarkdownError(pages[i].blocks).None? {
      FirstFound(pages[i].blocks, MarkdownError, |pages[i].blocks|);
    }
    BookFirstFound(pages, MarkdownError, |pages|);
  }

  function MarkdownUpTo(bs: seq<Block>, n: nat): string
    requires n <= |bs|
  {
    if n == 0 then "" else MarkdownUpTo(bs, n - 1) + BlockMarkdown(bs[n - 1])
  }

  function PageMarkdown(bs: seq<Block>): string {
    MarkdownUpTo(bs, |bs|)
  }

  const PageSeparator: string := "---\n\n"

  /** The text of the first `n` pages: each page's blocks, a separator after all but the last page. */
  function BookMarkdownUpTo(pages: seq<PageValue>, n: nat): string
    requires n <= |pages|
  {
    if n == 0 then ""
    else BookMarkdownUpTo(pages, n - 1) + PageMarkdown(pages[n - 1].blocks) + (if n < |pages| then PageSeparator else "")
  }

  function BookMarkdown(pages: seq<PageValue>): string {
    BookMarkdownUpTo(pages, |pages|)
  }

  function Repeat(s: string, n: nat): string {
    if n == 0 then "" else Repeat(s, n - 1) + s
  }

  lemma {:induction false} UntranslatedPageEmpty(bs: seq<Block>, n: nat)
    requires n <= |bs|
    requires forall k :: 0 <= k < |bs| ==> !bs[k].status
    ensures MarkdownUpTo(bs, n) == ""
  {
    if n > 0 {
      UntranslatedPageEmpty(bs, n - 1);
    }
  }

  /** A book with nothing translated is written as the page separators alone. */
  lemma {:induction false} UntranslatedBookMarkdown(pages: seq<PageValue>, n: nat)
    requires 0 < n <= |pages|
    requires forall i, k :: 0 <= i < |pages| && 0 <= k < |pages[i].blocks| ==> !pages[i].blocks[k].status
    ensures BookMarkdownUpTo(pages, n) == Repeat(PageSeparator, if n == |pages| then n - 1 else n)
  {
    UntranslatedPageEmpty(pages[n - 1].blocks, |pages[n - 1].blocks|);
    if n > 1 {
      UntranslatedBookMarkdown(pages, n - 1);
    }
  }

  /** An untranslated block writes nothing. */
  lemma UntranslatedWritesNothing(x: Block)
    requires !x.status
    ensures BlockMarkdown(x) == ""
  {
  }

  lemma {:induction false} MarkdownPageOnlyTranslated(a: seq<Block>, b: seq<Block>, n: nat)
    requires SameTranslatedBlocks(a, b) && n <= |a|
    ensures MarkdownUpTo(a, n) == MarkdownUpTo(b, n)
  {
    if n > 0 {
      MarkdownPageOnlyTranslated(a, b, n - 1);
      if a[n - 1] != b[n - 1] {
        UntranslatedWritesNothing(a[n - 1]);
        UntranslatedWritesNothing(b[n - 1]);
      }
    }
  }

  /** Only translated blocks reach the Markdown text. */
  lemma {:induction false} MarkdownOnlyTranslated(a: seq<PageValue>, b: seq<PageValue>, n: nat)
    requires SameTranslatedPages(a, b) && n <= |a|
    ensures BookMarkdownUpTo(a, n) == BookMarkdownUpTo(b, n)
  {
    if n > 0 {
      MarkdownOnlyTranslated(a, b, n - 1);
      MarkdownPageOnlyTranslated(a[n - 1].blocks, b[n - 1].blocks, |a[n - 1].blocks|);
    }
  }

  predicate NoNewline(s: string) {
    forall k :: 0 <= k < |s| ==> s[k] != '\n'
  }

  lemma {:induction false} JoinNoNewline(sep: string, xs: seq<string>)
    requires NoNewline(sep) && forall i :: 0 <= i < |xs| ==> NoNewline(xs[i])
    ensures NoNewline(Join(sep, xs))
    decreases |xs|
  {
    if |xs| > 1 {
      JoinNoNewline(sep, xs[1..]);
    }
  }

  /** No cell of the grid prints a line break. */
  predicate CellsOnOneLine(f: DataFrame) {
    forall i, j :: 0 <= i < |f.rows| && 0 <= j < |f.rows[i]| ==> NoNewline(CellText(f.rows[i][j]))
  }

  /**
   * The body of a table with rows has one line per row: cutting it at line breaks,
   * once the closing blank line is dropped, gives back exactly the row lines.
   */
  lemma BodyOneLinePerRow(f: DataFrame)
    requires |f.rows| > 0 && CellsOnOneLine(f)
    ensures var body := BodyText(f);
      |body| >= 2 && Split(body[..|body| - 2], "\n") == RowLines(f)
  {
    var lines := RowLines(f);
    forall i | 0 <= i < |lines| ensures NoNewline(lines[i]) {
      var texts := RowText(f.rows[i]);
      JoinNoNewline(" | ", texts);
      assert lines[i] == "| " + Join(" | ", texts) + " |";
    }
    forall x | x in lines ensures '\n' !in x {
      var i :| 0 <= i < |lines| && lines[i] == x;
    }
    SplitJoinChar(lines, '\n');
    var body := BodyText(f);
    assert body[..|body| - 2] == Join("\n", lines);
  }

  /**
   * `_save_translated_book_markdown`: the file at the output path and its text, or the
   * exception of the first block the writer cannot write.
   */
  function MarkdownSpec(book: BookValue, outputPath: Option<string>): Result<Document, Error> {
    match BookMarkdownError(book.pages)
    case Some(e) => Err(e)
    case None => Ok(MarkdownFile(OutputPath(outputPath, book.path, MarkdownSuffix), BookMarkdown(book.pages)))
  }

  /** `save_translated_book`: the chosen writer's document, or the unsupported-format error. */
  function SaveSpec(book: BookValue, outputPath: Option<string>, fileFormat: string,
                    detect: seq<bv8> -> Option<string>): Result<Document, Error> {
    match FormatOf(fileFormat)
    case None => Err(UnsupportedFormat(fileFormat))
    case Some(Pdf) => PdfSpec(book, outputPath, detect)
    case Some(Markdown) => MarkdownSpec(book, outputPath)
  }

  /**
   * Saving fails exactly for an unsupported format; for the PDF format, when the first
   * page lacks its margins or a translated block lacks an attribute the writer reads;
   * for Markdown, when a translated block holds a translation of the wrong type. The
   * error says which, the margin coming first.
   */
  lemma SaveFailsOnlyFor(book: BookValue, outputPath: Option<string>, fileFormat: string, detect: seq<bv8> -> Option<string>)
    ensures SaveSpec(book, outputPath, fileFormat, detect).Err? <==>
      FormatOf(fileFormat).None?
      || (FormatOf(fileFormat) == Some(Pdf)
          && ((book.pages != [] && book.pages[0].margins.None?) || StoryMissing(book.pages).Some?))
      || (FormatOf(fileFormat) == Some(Markdown) && BookMarkdownError(book.pages).Some?)
    ensures FormatOf(fileFormat).None? ==> SaveSpec(book, outputPath, fileFormat, detect) == Err(UnsupportedFormat(fileFormat))
    ensures FormatOf(fileFormat) == Some(Pdf) && book.pages != [] && book.pages[0].margins.None? ==>
      SaveSpec(book, outputPath, fileFormat, detect) == Err(MissingAttribute("left_margin"))
    ensures FormatOf(fileFormat) == Some(Pdf) && (book.pages != [] ==> book.pages[0].margins.Some?)
            && StoryMissing(book.pages).Some? ==>
      SaveSpec(book, outputPath, fileFormat, detect) == Err(MissingAttribute(StoryMissing(book.pages).value))
    ensures FormatOf(fileFormat) == Some(Markdown) && BookMarkdownError(book.pages).Some? ==>
      SaveSpec(book, outputPath, fileFormat, detect) == Err(BookMarkdownError(book.pages).value)
  {
  }

  // ---------------------------------------------------------------- the writing loops

  /** A valid book's snapshot lists each page's blocks at that page's position, and no page occurs twice. */
  lemma PagesListed(book: Book, pages: seq<PageValue>)
    requires book.Valid() && pages == book.PageValues()
    ensures |pages| == |book.pages| && forall i :: 0 <= i < |pages| ==> book.pages[i].Blocks() == pages[i].blocks
    ensures forall i, j :: 0 <= i < j < |book.pages| ==> book.pages[i] != book.pages[j]
  {
    forall i | 0 <= i < |pages| ensures book.pages[i].Blocks() == pages[i].blocks {
      assert pages[i] == book.PageAt(i);
    }
  }

  /**
   * `_save_translated_book_pdf`'s inner loop over one page's blocks: their flowables, or
   * the `AttributeError` of the first block that lacks an attribute the loop reads.
   */
  method PageStory(page: Page, ghost bs: seq<Block>, pageIdx: nat, detect: seq<bv8> -> Option<string>)
    returns (r: Result<seq<Flowable>, Error>)
    requires bs == page.Blocks()
    ensures PageMissing(bs).None? ==> r == Ok(PageFlows(bs, pageIdx, detect))
    ensures PageMissing(bs).Some? ==> r == Err(MissingAttribute(PageMissing(bs).value))
  {
    var flows := [];
    for k := 0 to |page.contents|
      invariant FirstUpTo(bs, MissingAttr, k).None?
      invariant flows == FlowsUpTo(bs, pageIdx, k, detect)
    {
      var content := page.contents[k];
      assert content.View() == bs[k];
      var missing := MissingAttr(content.View());
      if missing.Some? {
        FirstStops(bs, MissingAttr, k + 1, |bs|);
        return Err(MissingAttribute(missing.value));
      }
      flows := flows + BlockFlows(content.View(), pageIdx, k, detect);
    }
    r := Ok(flows);
  }

  /**
   * `_save_translated_book_pdf`'s outer loop: each page's flowables, then a page break
   * unless the page is the last one (compared by identity, as the source does); the
   * first `AttributeError` ends it.
   */
  method BuildStory(book: Book, ghost pages: seq<PageValue>, detect: seq<bv8> -> Option<string>)
    returns (r: Result<seq<Flowable>, Error>)
    requires |pages| == |book.pages| && forall i :: 0 <= i < |pages| ==> book.pages[i].Blocks() == pages[i].blocks
    requires forall i, j :: 0 <= i < j < |book.pages| ==> book.pages[i] != book.pages[j]
    ensures StoryMissing(pages).None? ==> r == Ok(Story(pages, detect))
    ensures StoryMissing(pages).Some? ==> r == Err(MissingAttribute(StoryMissing(pages).value))
  {
    var story := [];
    var pageObjs := book.pages;
    for i := 0 to |pageObjs|
      invariant BookFirstUpTo(pages, MissingAttr, i).None?
      invariant story == StoryUpTo(pages, i, detect)
    {
      var page := pageObjs[i];
      var last := page == pageObjs[|pageObjs| - 1];
      assert last <==> i + 1 == |pageObjs|;
      var flows := PageStory(page, pages[i].blocks, i, detect);
      if flows.Err? {
        BookFirstStops(pages, MissingAttr, i + 1, |pages|);
        return Err(flows.error);
      }
      var sep := if !last then [PageBreak] else [];
      story := story + flows.value + sep;
    }
    r := Ok(story);
  }

  /** `_save_translated_book_pdf`: the path, the margins from the first page, and the story. */
  method SavePdf(book: Book, ghost value: BookValue, outputPath: Option<string>, detect: seq<bv8> -> Option<string>)
    returns (r: Result<Document, Error>)
    requires book.Valid() && value == book.View()
    ensures r == PdfSpec(value, outputPath, detect)
  {
    var path := if outputPath.None? then Replace(book.pdfFilePath, ".pdf", PdfSuffix) else outputPath.value;
    var margins := Margins(45.0, 45.0, 30.0, 30.0);
    if book.pages != [] {
      assert book.pages[0].View() == value.pages[0];
      if book.pages[0].margins.None? {
        return Err(MissingAttribute("left_margin"));
      }
      margins := book.pages[0].margins.value;
    }
    PagesListed(book, value.pages);
    var story := BuildStory(book, value.pages, detect);
    if story.Err? {
      return Err(story.error);
    }
    r := Ok(PdfDocument(path, margins.left, margins.right, margins.top, story.value));
  }

  /**
   * The Markdown writer's inner loop over one page's blocks: their text, or the exception
   * of the first block it cannot write.
   */
  method PageText(page: Page, ghost bs: seq<Block>) returns (r: Result<string, Error>)
    requires bs == page.Blocks()
    ensures PageMarkdownError(bs).None? ==> r == Ok(PageMarkdown(bs))
    ensures PageMarkdownError(bs).Some? ==> r == Err(PageMarkdownError(bs).value)
  {
    var text := "";
    for k := 0 to |page.contents|
      invariant FirstUpTo(bs, MarkdownError, k).None?
      invariant text == MarkdownUpTo(bs, k)
    {
      var content := page.contents[k];
      assert content.View() == bs[k];
      var error := MarkdownError(content.View());
      if error.Some? {
        FirstStops(bs, MarkdownError, k + 1, |bs|);
        return Err(error.value);
      }
      text := text + BlockMarkdown(content.View());
    }
    r := Ok(text);
  }

  /** One page of the Markdown writer's outer loop: the first error so far is that page's, and the text grows by the page. */
  lemma BookMarkdownStep(pages: seq<PageValue>, i: nat)
    requires i < |pages| && BookFirstUpTo(pages, MarkdownError, i).None?
    ensures BookFirstUpTo(pages, MarkdownError, i + 1) == PageMarkdownError(pages[i].blocks)
    ensures PageMarkdownError(pages[i].blocks).Some? ==> BookMarkdownError(pages) == PageMarkdownError(pages[i].blocks)
    ensures BookMarkdownUpTo(pages, i + 1)
      == BookMarkdownUpTo(pages, i) + PageMarkdown(pages[i].blocks) + (if i + 1 < |pages| then PageSeparator else "")
  {
    if PageMarkdownError(pages[i].blocks).Some? {
      BookFirstStops(pages, MarkdownError, i + 1, |pages|);
    }
  }

  /**
   * The Markdown writer's outer loop: each page's text, then a separator unless the page
   * is the last one; the first exception ends it.
   */
  method BookText(book: Book, ghost pages: seq<PageValue>) returns (r: Result<string, Error>)
    requires |pages| == |book.pages| && forall i :: 0 <= i < |pages| ==> book.pages[i].Blocks() == pages[i].blocks
    requires forall i, j :: 0 <= i < j < |book.pages| ==> book.pages[i] != book.pages[j]
    ensures BookMarkdownError(pages).None? ==> r == Ok(BookMarkdown(pages))
    ensures BookMarkdownError(pages).Some? ==> r == Err(BookMarkdownError(pages).value)
  {
    var text := "";
    var pageObjs := book.pages;
    for i := 0 to |pageObjs|
      invariant BookFirstUpTo(pages, MarkdownError, i).None?
      invariant text == BookMarkdownUpTo(pages, i)
    {
      var page := pageObjs[i];
      var last := page == pageObjs[|pageObjs| - 1];
      assert last <==> i + 1 == |pageObjs|;
      var pageText := PageText(page, pages[i].blocks);
      BookMarkdownStep(pages, i);
      if pageText.Err? {
        return Err(pageText.error);
      }
      var sep := if !last then PageSeparator else "";
      text := text + pageText.value + sep;
    }
    r := Ok(text);
  }

  /** `_save_translated_book_markdown`: the file at the output path and the book's text, or the writer's exception. */
  method SaveMarkdown(book: Book, ghost value: BookValue, outputPath: Option<string>) returns (r: Result<Document, Error>)
    requires book.Valid() && value == book.View()
    ensures r == MarkdownSpec(value, outputPath)
  {
    var path := if outputPath.None? then Replace(book.pdfFilePath, ".pdf", MarkdownSuffix) else outputPath.value;
    PagesListed(book, value.pages);
    var text := BookText(book, value.pages);
    if text.Err? {
      return Err(text.error);
    }
    r := Ok(MarkdownFile(path, text.value));
  }

  /** `save_translated_book`: dispatch on the lower-cased format; any other format raises. */
  method SaveTranslatedBook(book: Book, ghost value: BookValue, outputPath: Option<string>, fileFormat: string,
                            detect: seq<bv8> -> Option<string>) returns (r: Result<Document, Error>)
    requires book.Valid() && value == book.View()
    ensures r == SaveSpec(value, outputPath, fileFormat, detect)
  {
    if Lower(fileFormat) == "pdf" {
      r := SavePdf(book, value, outputPath, detect);
    } else if Lower(fileFormat) == "markdown" {
      r := SaveMarkdown(book, value, outputPath);
    } else {
      r := Err(UnsupportedFormat(fileFormat));
    }
  }
}
