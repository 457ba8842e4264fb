# AI PDF translator — a Dafny model of its core

The translator reads a PDF file and turns every page into a `Page` of blocks: paragraphs of text,
tables and images. Blocks are ordered from the top of the page down and carry the margins and the text
attributes the page shows. It sends every text and table block to a language model with a prompt
asking for the target language, and records each answer on its block. It then writes the translated
book out, either as a PDF story (paragraphs, tables, images, a page break between pages) or as a
Markdown file.

This project models that core in Dafny and proves what each part promises:

- `PdfParser` (`parser.dfy`) is the layout extractor `PDFParser`. It covers the paragraph-tail rule,
  margins as the most common left edge, paragraph attributes as modes over the characters, the line
  loop that groups lines into paragraphs and emits a table block where a table's header line appears,
  the three block-building loops, the stable sort by anchor, page selection and the out-of-range error.
  The row-text loop joins each table row's cells and raises Python's `TypeError` at a `None` cell, which
  `pdfplumber` reports for cells that a merged region covers.
  The page's lines, tables and images (what `pdfplumber` reports) are its input values.
- `ContentModel` (`content.dfy`) holds `Content`, `TableContent` and `ImageContent`. Together they are
  one class `Content` whose `kind` selects the behaviour. `set_translation` is defined for each kind,
  including the parser for a table answer from the model; `iter_items` and `update_item` are covered too.
- `Frames` (`frames.dfy`) is the part of a pandas `DataFrame` the core uses: construction from rows,
  row-major iteration and a cell update.
- `PageModel` and `BookModel` (`page.dfy`, `book.dfy`) are the `Page` and `Book` classes, updated in place.
- `ModelPrompts` (`prompts.dfy`) holds the prompts of `Model` and its abstract `make_request`.
- `Common` (`common.dfy`) is the registry of model clients, the class `Common` of `common.py`.
- `Exceptions` (`exceptions.dfy`) holds `PageOutOfRangeException`, its message, and the other errors the
  core raises.
- `Writer` (`writer.dfy`) holds the PDF story, the Markdown text, the default output paths and the
  format dispatch. The PDF writer reads attributes the parser assigns after building a block; it raises
  `AttributeError` at the first translated block that lacks one. The Markdown writer raises at the first
  translated block whose translation has the wrong type: `TypeError` for a text block whose translation is
  not a string, `AttributeError` for `columns` on a table block whose translation is not a grid.
- `PdfTranslator` (`translator.dfy`) is `translate_pdf`: parse, the nested translation loop that updates
  the blocks in place and stops at the first exception, then the writer.
- `Wrappers` (`wrappers.dfy`) holds `Option`, `Result` and `AllOk`, a loop that collects one value per
  step and lets the first exception escape; the page loop of `parser_pdf` and the row-text loop are such loops.
- `PyStrings`, `Modal` and `StableSort` give the Python semantics the code relies on:
  - `str.strip`, `split`, `join`, `replace`, `lower` and `str(int)`;
  - `Counter.most_common(1)`, whose ties go to the value seen first;
  - `list.sort(key=..., reverse=True)`, which is stable.

Places where the code behaves unexpectedly are modelled as written:
- The page's right margin is set to its left margin (`ai_translator/translator/pdf_parser.py:64`).
- When a line matches the header of pending table `j`, the list of pending tables drops its first entry,
  not entry `j` (`ai_translator/translator/pdf_parser.py:94`). `PdfParser.MatchDropsHead` states this.
- `PageOutOfRangeException` reports the book's page count at the time of the check, which is always 0
  (`ai_translator/translator/pdf_parser.py:25`).
- An empty table answer gives an empty grid with the flag as passed, not `False`.
- `model_if_need_key` looks up a key no registry entry has, so it always raises `KeyError`.

The model's clients (`make_request` of a concrete model) are a function parameter `request`. It
returns an answer and a flag, or an exception. Image format detection is a function parameter `detect`.

## Model

| member | source | states |
|---|---|---|
| Wrappers.AllOkStep | ai_translator/translator/pdf_parser.py:32-33 | one more step runs only after the earlier ones succeeded, adding its value or its error |
| Wrappers.AllOkValues | ai_translator/translator/pdf_parser.py:32-33 | a loop completes exactly when every step does, holding every step's value in order |
| Wrappers.AllOkFirstError | ai_translator/translator/pdf_parser.py:32-33 | a loop that raised reports its first failing step's error |
| Wrappers.AllOkStops | ai_translator/translator/pdf_parser.py:32-33 | steps after the one that raised never run |
| PyStrings.Strip | ai_translator/book/content.py:113-114 | the stripped text neither starts nor ends with whitespace |
| PyStrings.Split | ai_translator/book/content.py:111 | a split always has at least one piece |
| PyStrings.JoinSplit | ai_translator/book/content.py:111-122 | joining the pieces of a split with the same separator gives the string back |
| PyStrings.SplitPiecesFree | ai_translator/book/content.py:115-122 | no piece of a split contains the separator |
| PyStrings.SplitJoinChar | ai_translator/book/content.py:111 | splitting a join on a one-character separator that no piece contains gives the pieces back |
| PyStrings.ReplaceSuffix | ai_translator/translator/writer.py:47 | replacing a suffix that occurs only at the end swaps exactly that suffix |
| PyStrings.Lower | ai_translator/translator/writer.py:32 | lower-casing maps character by character and keeps the length |
| PyStrings.NatToStringRoundTrip | ai_translator/translator/exceptions.py:10 | reading the decimal digits of a number back gives the number |
| PyStrings.IntToStringInjective | ai_translator/translator/exceptions.py:10 | different integers print differently |
| PyStrings.IntPrefixUnique | ai_translator/translator/exceptions.py:10 | a printed integer followed by non-digit text can be split back into the integer and the text |
| StableSort.SortDescSorted | ai_translator/translator/pdf_parser.py:116 | the sort leaves the keys in non-increasing order |
| StableSort.SortDescPermutes | ai_translator/translator/pdf_parser.py:116 | the sort is a permutation of its input |
| StableSort.SortDescStable | ai_translator/translator/pdf_parser.py:116 | elements with equal keys keep their input order |
| StableSort.SortDescMap | ai_translator/translator/pdf_parser.py:116 | sorting commutes with a map that preserves keys, so sorting objects by their snapshots' keys sorts the snapshots |
| StableSort.SortDescDistinct | ai_translator/translator/pdf_parser.py:116 | sorting distinct objects leaves them distinct |
| Modal.Count | ai_translator/translator/pdf_parser.py:135 | a count is at most the length, and positive exactly for present values |
| Modal.FirstIndex | ai_translator/translator/pdf_parser.py:135-137 | the first occurrence of a value: it is there and not before |
| Modal.BestIndex | ai_translator/translator/pdf_parser.py:135-137 | the first position holding a maximal count among the first n |
| Modal.MostCommon | ai_translator/translator/pdf_parser.py:135-137 | the result occurs, no value is more frequent, and every value seen earlier is strictly less frequent |
| Modal.MostCommonOrIsMode | ai_translator/translator/pdf_parser.py:129-140 | the helpers give the mode of a non-empty list and the default otherwise |
| Modal.ModeUnique | ai_translator/translator/pdf_parser.py:135-137 | at most one value is the first-seen most frequent one |
| Modal.TieGoesToFirstSeen | ai_translator/translator/pdf_parser.py:135-137 | of two values with equal counts in any list, the one seen later is never the result |
| Exceptions.PageOutOfRangeMessage | ai_translator/translator/exceptions.py:10 | the message starts with the fixed out-of-range heading |
| Exceptions.TwoNumbersUnique | ai_translator/translator/exceptions.py:10 | two numbers printed between fixed texts are determined by the text |
| Exceptions.MessageDeterminesFields | ai_translator/translator/exceptions.py:7-10 | the message determines the page count and the requested page |
| Exceptions.EmptyBookMessage | ai_translator/translator/exceptions.py:10 | the exact message for an empty book asked for page 5 |
| Common.FirstNamed | ai_translator/utils/common.py:29-32 | the first registry entry with the name, or none exactly when no entry has it |
| Common.ModelTypes | ai_translator/utils/common.py:23-25 | the three client names, in registry order |
| Common.ModelInfo | ai_translator/utils/common.py:27-32 | the empty dict exactly for names not in the registry; for a registered name, an entry with that name |
| Common.KnownTypes | ai_translator/utils/common.py:34-40 | names and required settings are found exactly for registered types, else `KeyError` |
| Common.QWenRequirements | ai_translator/utils/common.py:16-20 | the QWen client's model list and required settings |
| Common.NeedKeyAlwaysFails | ai_translator/utils/common.py:42-44 | `model_if_need_key` raises `KeyError('APIKey')` for every type |
| ModelPrompts.TextPrompt | ai_translator/model/model.py:9-10 | the prompt's length, and that it ends with the text |
| ModelPrompts.TablePrompt | ai_translator/model/model.py:15-16 | the prompt's length, and that it ends with the table text |
| ModelPrompts.TextPromptRecoversText | ai_translator/model/model.py:9-10 | the text can be cut back out of its prompt |
| ModelPrompts.TextAndTablePromptsDiffer | ai_translator/model/model.py:9-16 | no text prompt equals a table prompt |
| ModelPrompts.TranslatePrompt | ai_translator/model/model.py:18-23 | a prompt exists exactly for text and table blocks |
| ModelPrompts.TextBlockPrompt | ai_translator/model/model.py:19-20 | a text block's prompt ends with its original text |
| Frames.MaxWidth | ai_translator/book/content.py:93 | the length of a longest row, 0 for no rows |
| Frames.Pad | ai_translator/book/content.py:93 | a row keeps its cells and is filled with `None` up to the width |
| Frames.MakeFrame | ai_translator/book/content.py:93 | one row per input row, as wide as the longest, cells kept and padded with `None` |
| Frames.FrameOfStrings | ai_translator/book/content.py:126 | the grid of parsed answer rows: each cell the string, short rows padded with `None` |
| Frames.TableFrame | ai_translator/book/content.py:90-96 | an empty list raises `IndexError`, a first row shorter than the longest raises `ValueError("Error")`, else the grid |
| Frames.TableFrameAccepts | ai_translator/book/content.py:95-96 | the shape check accepts exactly non-empty lists whose first row is a longest one |
| Frames.RowItems | ai_translator/book/content.py:146-147 | one row's (row, column, cell) triples, left to right |
| Frames.ItemsRowMajor | ai_translator/book/content.py:143-147 | cell (i, j) is item number i * width + j |
| Frames.UpdateCell | ai_translator/book/content.py:151 | for a cell inside the grid: the target cell takes the value and every other cell stays |
| Frames.RowText | ai_translator/translator/writer.py:188 | `str` of every cell of a row, in order |
| ContentModel.Cleaned | ai_translator/book/content.py:114 | the cleaned row neither starts nor ends with a bracket |
| ContentModel.ParseRow | ai_translator/book/content.py:114-122 | a non-blank row gives at least one cell |
| ContentModel.NonBlank | ai_translator/book/content.py:113 | the kept lines are non-blank lines of the input |
| ContentModel.ParseLinesRows | ai_translator/book/content.py:111-122 | one row per non-blank line, in order, each split by its own separator |
| ContentModel.NonBlankKeepsAll | ai_translator/book/content.py:113 | without blank lines every line is kept |
| ContentModel.ParseRowRoundTrip | ai_translator/book/content.py:114-122 | the cells joined by the chosen separator give the cleaned row, and no cell contains the separator |
| ContentModel.BlankResponse | ai_translator/book/content.py:111-113 | a blank answer gives no rows |
| ContentModel.ParseLinesStep | ai_translator/book/content.py:111-122 | one more line adds one row unless it is blank |
| ContentModel.SplitResponseRow | ai_translator/book/content.py:114-122 | the loop body splits a row so that joining the cells gives the cleaned row back |
| ContentModel.ParseTableResponse | ai_translator/book/content.py:110-122 | the loop builds the rows the response parser specifies |
| ContentModel.ParseResponseLines | ai_translator/book/content.py:111-122 | the loop over lines builds the specified rows |
| ContentModel.SetTranslationSpec | ai_translator/book/content.py:67-168 | fails exactly for a non-string on a text block; the layout never changes; text and image blocks take the value and flag; a table is flagged only for a string answer with a true flag; consistency is kept |
| ContentModel.TableTranslationRows | ai_translator/book/content.py:111-132 | a string answer for a table gives one grid row per non-blank line and keeps the flag |
| ContentModel.EmptyTableAnswer | ai_translator/book/content.py:126-132 | an empty answer gives an empty grid with the flag as passed |
| ContentModel.IterItems | ai_translator/book/content.py:143-147 | fails exactly when the chosen grid is `None`, else lists its cells in row-major order |
| ContentModel.UpdateItem | ai_translator/book/content.py:149-151 | for a cell inside the grid: fails exactly on a `None` grid; otherwise only the chosen cell of the chosen grid changes |
| ContentModel.Content.constructor | ai_translator/book/content.py:58-64 | a block with the given kind, original and translation, unflagged, size 12, not bold |
| ContentModel.Content.Image | ai_translator/book/content.py:160-164 | an image block born flagged, its translation the image itself |
| ContentModel.Content.NewTable | ai_translator/book/content.py:90-98 | a fresh table block over the grid, or the shape check's exception |
| ContentModel.Content.SetTranslation | ai_translator/book/content.py:67-168 | the block becomes what the specification gives, or stays and the exception is returned |
| ContentModel.Content.UpdateCellInPlace | ai_translator/book/content.py:149-151 | the block becomes what `UpdateItem` gives, or stays and the exception is returned |
| PageModel.Page.constructor | ai_translator/book/page.py:21-22 | a page with no blocks and no margins |
| PageModel.Page.AddContent | ai_translator/book/page.py:25-26 | the block is appended; earlier blocks stay in order |
| BookModel.Book.constructor | ai_translator/book/book.py:11-13 | the path as given and no pages |
| BookModel.Book.AddPage | ai_translator/book/book.py:16-17 | the page is appended; earlier pages stay in order |
| PdfParser.IsParaTail | ai_translator/translator/pdf_parser.py:123-127 | a tail is a line short of 80% of the width, ending in a terminator, or the last line |
| PdfParser.ParaTailRule | ai_translator/translator/pdf_parser.py:124-126 | the same rule stated without division |
| PdfParser.MaxOf | ai_translator/translator/pdf_parser.py:148 | the maximum is an element and bounds every element |
| PdfParser.AllRight | ai_translator/translator/pdf_parser.py:142-150 | the rightmost right edge, or the width less 20 without characters |
| PdfParser.MarginsRule | ai_translator/translator/pdf_parser.py:60-66 | left margin the mode of the left edges (20 without), right margin equal to it, top from the first line unless 0 (then 30), bottom equal to top |
| PdfParser.ParaAttributesAreModes | ai_translator/translator/pdf_parser.py:165-219 | size, height and colour are modes (defaults 24, 24, black); bold exactly when the mode font name contains "bold" in any case |
| PdfParser.FirstLineOffset | ai_translator/translator/pdf_parser.py:153-157 | never negative: the first character's distance from the margin when positive, else 0 |
| PdfParser.ColWidths | ai_translator/translator/pdf_parser.py:221-223 | count equal columns |
| PdfParser.ColWidthsSum | ai_translator/translator/pdf_parser.py:221-223 | the column widths add up to the shared width |
| PdfParser.TableCells | ai_translator/translator/pdf_parser.py:90 | a one-row grid whose cells are the table's extracted rows |
| PdfParser.TableBlocks | ai_translator/translator/pdf_parser.py:86-95 | one table block per matched header |
| PdfParser.TextBlocksUpTo | ai_translator/translator/pdf_parser.py:99-109 | at most one block per paragraph, each a consistent text block |
| PdfParser.FirstHeaderMatch | ai_translator/translator/pdf_parser.py:86-87 | the first pending table whose header text is the line's, or none when none matches |
| PdfParser.KeptLines | ai_translator/translator/pdf_parser.py:79-80 | a line is kept exactly when its text repeats no table row |
| PdfParser.ScanUpTo | ai_translator/translator/pdf_parser.py:73-95 | after n lines the pending tables are a suffix of the page's tables and everything built is well formed |
| PdfParser.ParagraphsKeepLines | ai_translator/translator/pdf_parser.py:77-97 | the paragraphs hold, in order, exactly the lines that repeat no table row |
| PdfParser.MatchDropsHead | ai_translator/translator/pdf_parser.py:94 | matching the second pending table drops the first one from the pending list |
| PdfParser.MatchHeaderRule | ai_translator/translator/pdf_parser.py:86-95 | a matching header closes the open paragraph, adds one table and drops one pending table; otherwise nothing changes |
| PdfParser.PageBlocksOrdered | ai_translator/translator/pdf_parser.py:116 | the page's blocks are sorted top-first, a permutation of the created ones, ties in creation order |
| PdfParser.PageBlocksConsistent | ai_translator/translator/pdf_parser.py:90-114 | every block the parser creates, at every position of the sorted page, holds values that fit its kind and carries the attributes assigned at :92 and :105-107 |
| PdfParser.NewTableContent | ai_translator/translator/pdf_parser.py:90-92 | a fresh table block anchored at the header line with its column widths |
| PdfParser.FindHeader | ai_translator/translator/pdf_parser.py:86-95 | the inner loop finds the first matching pending table |
| PdfParser.AddTableContent | ai_translator/translator/pdf_parser.py:90-93 | the created blocks grow by the matched table's block |
| PdfParser.MatchLine | ai_translator/translator/pdf_parser.py:86-95 | the table part of a round does what the header rule says and creates its block |
| PdfParser.AddLineToParagraph | ai_translator/translator/pdf_parser.py:77-84 | the paragraph part of a round does what the tail rule says |
| PdfParser.ScanLine | ai_translator/translator/pdf_parser.py:73-95 | one round moves the loop state to the state after one more line |
| PdfParser.ScanLines | ai_translator/translator/pdf_parser.py:73-97 | the loop ends with the specified paragraphs and one fresh table block per match |
| PdfParser.NewTextContent | ai_translator/translator/pdf_parser.py:101-108 | a fresh text block with the paragraph's text and attributes |
| PdfParser.AddTextContent | ai_translator/translator/pdf_parser.py:99-109 | one round of the paragraph loop adds a block unless the paragraph is empty |
| PdfParser.MakeTextContents | ai_translator/translator/pdf_parser.py:99-109 | one fresh text block per non-empty paragraph, in order |
| PdfParser.AddImageContent | ai_translator/translator/pdf_parser.py:111-114 | one round of the image loop adds the image's block |
| PdfParser.MakeImageContents | ai_translator/translator/pdf_parser.py:111-114 | one fresh image block per image, anchored at its bottom edge |
| PdfParser.SortByTopY | ai_translator/translator/pdf_parser.py:116 | the objects reordered so that their snapshots are the stable top-first sort, none lost or doubled |
| PdfParser.Join3 | ai_translator/translator/pdf_parser.py:93-114 | three lists with no object in common join without aliasing |
| PdfParser.MakeBlockContents | ai_translator/translator/pdf_parser.py:99-114 | table blocks, then text blocks, then image blocks, all distinct objects |
| PdfParser.FirstNone | ai_translator/translator/pdf_parser.py:58 | the position of a row's first `None` cell: `None` there and text before it |
| PdfParser.StopsAt | ai_translator/translator/pdf_parser.py:55-58 | a row whose join raises ends the loop with that error, whatever follows |
| PdfParser.CollectRowTexts | ai_translator/translator/pdf_parser.py:55-58 | the loop's outcome is the joins of every row of every table, in order, stopping at the first that raises |
| PdfParser.RowsPresent | ai_translator/translator/pdf_parser.py:55-58 | every row's cells hold text exactly when every table's do, and then each row joins to the row text the line loop compares with |
| PdfParser.RowTextsJoined | ai_translator/translator/pdf_parser.py:55-58 | joining the rows completes exactly when no cell is `None`, giving the row texts; else the `TypeError` names the first `None` cell of the first row with one |
| PdfParser.CollectContents | ai_translator/translator/pdf_parser.py:60-114 | the created blocks in creation order, fresh and distinct |
| PdfParser.SortedContents | ai_translator/translator/pdf_parser.py:116 | the created blocks sorted top-first |
| PdfParser.NewPage | ai_translator/translator/pdf_parser.py:118 | a fresh page holding the blocks with the margins |
| PdfParser.ParsePdfPage | ai_translator/translator/pdf_parser.py:38-120 | raises exactly when a table cell is `None`, with the row loop's `TypeError`; else a fresh page whose snapshot is the page specification, its blocks fresh and distinct |
| PdfParser.SliceTo | ai_translator/translator/pdf_parser.py:30 | Python's `xs[:n]`, including negative n and n past the end |
| PdfParser.Selected | ai_translator/translator/pdf_parser.py:27-30 | the selected pages are a prefix of the document |
| PdfParser.PageResults | ai_translator/translator/pdf_parser.py:32-33 | one page outcome per selected page |
| PdfParser.BookOutcome | ai_translator/translator/pdf_parser.py:17-35 | parsing fails exactly for too many pages, reporting 0, or for a selected page with a `None` table cell, with the first such page's `TypeError` |
| PdfParser.BookPages | ai_translator/translator/pdf_parser.py:17-35 | a book that parses holds the path and every selected page's specification, in document order |
| PdfParser.ParserPdf | ai_translator/translator/pdf_parser.py:17-35 | raises `PageOutOfRangeException(0, pages)` when more pages are asked for than exist; otherwise fails exactly as the book specification does, with its error, or gives a fresh valid book of the selected pages, parsed in order |
| PdfParser.ParsePages | ai_translator/translator/pdf_parser.py:32-33 | the loop stops with the first page's exception exactly when one raises; otherwise it fills the empty book with the parsed pages in order |
| PdfParser.ParsePageAt | ai_translator/translator/pdf_parser.py:33 | page i parsed into a fresh page, or its exception |
| PdfParser.AppendParsedPage | ai_translator/translator/pdf_parser.py:33 | adding a parsed page extends the book's snapshot by that page |
| PdfParser.AddParsedPage | ai_translator/translator/pdf_parser.py:33 | adding a page that shares no object keeps the book free of aliasing |
| Writer.LowerSpells | ai_translator/translator/writer.py:32 | a string lowers to an ASCII word exactly when each character lowers to its letter |
| Writer.FormatIgnoresCase | ai_translator/translator/writer.py:32-36 | the PDF writer is chosen exactly for the three letters p, d, f in any case; choice is case-blind |
| Writer.DefaultOutputPath | ai_translator/translator/writer.py:46-47 | a path ending in its only ".pdf" gets the suffix in its place |
| Writer.DefaultOutputPathNoPdf | ai_translator/translator/writer.py:166-167 | a path without ".pdf" is used as it is |
| Writer.TextStyle | ai_translator/translator/writer.py:90-98 | bold font exactly for bold blocks; size, leading, indent, spacing and colour from the block (a document holds only styles whose attributes are assigned, see `Writer.PdfSpec`) |
| Writer.BlockFlows | ai_translator/translator/writer.py:81-148 | one flowable exactly for a flagged block that can be drawn, never a page break; a text block's is its translation |
| Writer.MissingAttr | ai_translator/translator/writer.py:81-125 | a block lacks nothing the writer reads exactly when it is unflagged, or carries the parser's attributes (and a table its grid); only a flagged text or table block can lack one |
| Writer.FirstFound | ai_translator/translator/writer.py:79-148 | a page's blocks raise (in the PDF or the Markdown writer) exactly when one of them does, and the exception is the first such block's |
| Writer.FirstStops | ai_translator/translator/writer.py:175-190 | once a block raises, later blocks do not change the outcome |
| Writer.BookFirstFound | ai_translator/translator/writer.py:174-193 | a book raises exactly when one of its pages does, and the exception is the first such page's |
| Writer.BookFirstStops | ai_translator/translator/writer.py:78-152 | once a page raises, later pages do not change the outcome |
| Writer.NothingMissing | ai_translator/translator/pdf_parser.py:92 | a book of consistent blocks carrying the parser's attributes lacks nothing the writer reads |
| Writer.FlowsStyled | ai_translator/translator/writer.py:90-125 | when a page lacks nothing, each paragraph style has leading, indent and colour, and each table its column widths |
| Writer.StoryStyled | ai_translator/translator/writer.py:78-152 | the same for the whole story |
| Writer.PdfSpec | ai_translator/translator/writer.py:43-154 | a document the PDF writer produces holds only fully assigned styles and column widths |
| Writer.CountBreaksJoin | ai_translator/translator/writer.py:150-152 | a page's flowables add no page break; the break after it adds one |
| Writer.FlowsCount | ai_translator/translator/writer.py:79-148 | a page gives one flowable per drawable flagged block |
| Writer.FlowsHaveNoBreaks | ai_translator/translator/writer.py:79-148 | a page's flowables hold no page break |
| Writer.StoryBreaks | ai_translator/translator/writer.py:150-152 | a book of n pages has n - 1 page breaks |
| Writer.StoryCongruent | ai_translator/translator/writer.py:78-152 | pages that give the same flowables give the same story |
| Writer.StoryOnlyTranslated | ai_translator/translator/writer.py:81 | changing unflagged blocks does not change the story |
| Writer.MarkdownError | ai_translator/translator/writer.py:176-190 | only a flagged text or table block can raise; a block whose translation has its kind's type never does; a text block gives the `TypeError` of `+ '\n\n'`, a table block the `AttributeError` for `columns` |
| Writer.MarkdownErrorExact | ai_translator/translator/writer.py:176-190 | a flagged text or table block raises exactly when it would write nothing |
| Writer.NoMarkdownError | ai_translator/translator/writer.py:176-190 | a book of consistent blocks never raises in the Markdown writer |
| Writer.BookMarkdownStep | ai_translator/translator/writer.py:174-193 | one pass of the outer loop: the first exception so far is that page's, and the text grows by the page and its separator |
| Writer.RowLines | ai_translator/translator/writer.py:187-189 | one Markdown line per grid row |
| Writer.UntranslatedPageEmpty | ai_translator/translator/writer.py:176 | a page with nothing flagged writes nothing |
| Writer.UntranslatedBookMarkdown | ai_translator/translator/writer.py:173-193 | a book with nothing flagged writes only the page separators |
| Writer.UntranslatedWritesNothing | ai_translator/translator/writer.py:176 | an unflagged block writes nothing |
| Writer.MarkdownPageOnlyTranslated | ai_translator/translator/writer.py:175-190 | changing unflagged blocks does not change a page's text |
| Writer.MarkdownOnlyTranslated | ai_translator/translator/writer.py:174-193 | changing unflagged blocks does not change the Markdown file |
| Writer.BodyOneLinePerRow | ai_translator/translator/writer.py:187-189 | the table body splits back into exactly its row lines |
| Writer.SaveFailsOnlyFor | ai_translator/translator/writer.py:29-193 | saving fails exactly for an unsupported format, for PDF when the first page lacks margins or a flagged block lacks an attribute the writer reads, or for Markdown when a flagged block's translation has the wrong type; the error names the format, the first missing attribute or the first block's exception |
| Writer.PagesListed | ai_translator/translator/writer.py:151 | a valid book's pages are distinct objects, so "not the last page" means "not at the last index" |
| Writer.PageStory | ai_translator/translator/writer.py:79-148 | the inner loop gives the page's flowables, or the `AttributeError` of its first block lacking an attribute |
| Writer.BuildStory | ai_translator/translator/writer.py:76-152 | the loops give the specified story, or the first `AttributeError` in story order |
| Writer.SavePdf | ai_translator/translator/writer.py:43-154 | the PDF document: path, first page's margins (45/45/30 without pages) and story; or the `AttributeError` of a missing margin or block attribute |
| Writer.PageText | ai_translator/translator/writer.py:175-190 | the inner loop gives the page's Markdown, or the exception of its first block that raises |
| Writer.BookText | ai_translator/translator/writer.py:174-193 | the loops give the specified Markdown text, or the first exception in page order |
| Writer.SaveMarkdown | ai_translator/translator/writer.py:163-193 | the Markdown file: path and text, or the exception of the first block it cannot write |
| Writer.SaveTranslatedBook | ai_translator/translator/writer.py:29-41 | the chosen writer's document or its exception, or the unsupported-format error |
| PdfTranslator.TranslateBlock | ai_translator/translator/pdf_transtor.py:37-52 | images are skipped untouched; a handled block keeps its layout and stays consistent |
| PdfTranslator.TextAnswerRecorded | ai_translator/translator/pdf_transtor.py:47-52 | a string answer for a text block is recorded with its flag and nothing else changes |
| PdfTranslator.BlockFailures | ai_translator/translator/pdf_transtor.py:47-52 | a block fails exactly when the model raises or a text block gets a non-string |
| PdfTranslator.Outcomes | ai_translator/translator/pdf_transtor.py:35-52 | each block's outcome handled on its own |
| PdfTranslator.BlocksRun | ai_translator/translator/pdf_transtor.py:35-52 | the inner loop leaves blocks past the current one untouched |
| PdfTranslator.BlocksRunKeeps | ai_translator/translator/pdf_transtor.py:35-52 | the inner loop keeps every layout, touches no image and keeps consistency |
| PdfTranslator.BlocksRunStops | ai_translator/translator/pdf_transtor.py:35-52 | after an exception nothing further changes |
| PdfTranslator.BlocksRunStep | ai_translator/translator/pdf_transtor.py:35-52 | one more block records its outcome or stops with its exception |
| PdfTranslator.BlocksRunSucceeds | ai_translator/translator/pdf_transtor.py:35-52 | the loop goes through exactly when every block succeeds, and then holds their results |
| PdfTranslator.BlocksRunFailure | ai_translator/translator/pdf_transtor.py:35-52 | a stop carries the first failing block's exception |
| PdfTranslator.PageRun | ai_translator/translator/pdf_transtor.py:35-52 | one result per block of the page |
| PdfTranslator.PageRunKeeps | ai_translator/translator/pdf_transtor.py:35-52 | a page run keeps every layout and consistency |
| PdfTranslator.PageRunSucceeds | ai_translator/translator/pdf_transtor.py:35-52 | a page goes through exactly when every block does, with their results |
| PdfTranslator.PageRunFailure | ai_translator/translator/pdf_transtor.py:35-52 | a page run that stops does so with some block's exception |
| PdfTranslator.PageRuns | ai_translator/translator/pdf_transtor.py:34-52 | each page's run computed on its own |
| PdfTranslator.BookRun | ai_translator/translator/pdf_transtor.py:34-52 | the outer loop leaves later pages untouched |
| PdfTranslator.BookRunKeeps | ai_translator/translator/pdf_transtor.py:34-52 | the outer loop keeps margins, layouts and consistency |
| PdfTranslator.BookRunStops | ai_translator/translator/pdf_transtor.py:34-52 | after an exception no later page changes |
| PdfTranslator.BookRunStep | ai_translator/translator/pdf_transtor.py:34-52 | one more page takes its page run and stops if that stopped |
| PdfTranslator.BookRunSucceeds | ai_translator/translator/pdf_transtor.py:34-52 | the outer loop goes through exactly when every page does |
| PdfTranslator.BookRunFailure | ai_translator/translator/pdf_transtor.py:34-52 | a stop carries the first stopped page's exception |
| PdfTranslator.TranslationRun | ai_translator/translator/pdf_transtor.py:34-52 | the translation keeps every page's margins and layout and every block consistent |
| PdfTranslator.TranslationSucceeds | ai_translator/translator/pdf_transtor.py:34-52 | the loop goes through exactly when every block does, giving each block its own result |
| PdfTranslator.TranslationFailure | ai_translator/translator/pdf_transtor.py:34-52 | a stopped loop carries an exception some block raised |
| PdfTranslator.TranslateContent | ai_translator/translator/pdf_transtor.py:38-52 | one block object is updated in place as its outcome says, or left and the exception returned |
| PdfTranslator.TranslateBlockAt | ai_translator/translator/pdf_transtor.py:35-52 | one round of the inner loop advances the run by one block |
| PdfTranslator.TranslateBlocks | ai_translator/translator/pdf_transtor.py:35-52 | the inner loop leaves the objects as the run says |
| PdfTranslator.TranslatePage | ai_translator/translator/pdf_transtor.py:35-52 | a page's objects end as its page run says |
| PdfTranslator.TranslatePageOf | ai_translator/translator/pdf_transtor.py:34-52 | one round of the outer loop advances the book run by one page |
| PdfTranslator.TranslatePages | ai_translator/translator/pdf_transtor.py:34-52 | the outer loop leaves the book as the run says |
| PdfTranslator.TranslateBook | ai_translator/translator/pdf_transtor.py:34-52 | the book ends as the translation run says, with its exception |
| PdfTranslator.ParsedConsistent | ai_translator/translator/pdf_transtor.py:32 | when parsing succeeds, every parsed block fits its kind |
| PdfTranslator.ParsedMargins | ai_translator/translator/pdf_transtor.py:32 | when parsing succeeds, every parsed page carries margins |
| PdfTranslator.TranslateAndSave | ai_translator/translator/pdf_transtor.py:34-54 | the loop, then the writer on the translated book |
| PdfTranslator.OutputFails | ai_translator/translator/pdf_transtor.py:34-54 | after parsing, failure exactly when some block fails, the format is unsupported, or the PDF writer meets a flagged block lacking an attribute; the last never happens when the blocks carry the parser's attributes, and the Markdown writer never raises for the loop's blocks |
| PdfTranslator.RunAssigned | ai_translator/translator/pdf_transtor.py:34-50 | the loop keeps the parser's attributes on every block, so the PDF writer finds none missing |
| PdfTranslator.ParsedAssigned | ai_translator/translator/pdf_parser.py:90-114 | every parsed block carries the attributes the PDF writer reads |
| PdfTranslator.TranslatePdf | ai_translator/translator/pdf_transtor.py:24-54 | parse, translate, write, as the specification composes them |
| PdfTranslator.TranslatePdfFails | ai_translator/translator/pdf_transtor.py:24-54 | fails exactly when parsing raises (passing its exception on; too many pages reports 0), a block fails or the format is unsupported; the writer's `AttributeError` cannot arise for parsed blocks |
| PdfTranslator.TranslatePdfTranslated | ai_translator/translator/pdf_transtor.py:24-54 | when parsing and every block succeed, the output is the writer's document for the translated pages |
| PdfTranslator.BaseRunRaises | ai_translator/model/model.py:25-26 | with the base model, a text or table block makes the loop raise `NotImplementedError` |
| PdfTranslator.ImagesOnlyRun | ai_translator/translator/pdf_transtor.py:38 | with images only, the loop changes nothing, whatever the model |
| PdfTranslator.BaseOutput | ai_translator/model/model.py:25-26 | with the base model: that exception when there is text, else the untouched pages written out |
| PdfTranslator.BaseModelFails | ai_translator/translator/pdf_transtor.py:24-54 | the same for a whole run from the PDF, once parsing succeeds |

## Left out

- Reading the PDF (`pdfplumber.open`, `extract_text_lines`, `extract_tables`, `images`) is not modelled. A page is the value `PdfParser.PdfPage` holding the lines, tables and images the library reports.
- `PdfParser.Shaped` states what the model takes pdfplumber to guarantee of the pages it reports: a positive width, lines with characters and visible text, and tables whose first row has a cell. Every page that is parsed must satisfy it. Some of the pages it excludes make the code raise, and that path is not modelled: a zero width with lines (`ZeroDivisionError` at pdf_parser.py:124), a blank line reaching 80% of the width (`IndexError` at :125), a paragraph whose first line has no characters (`IndexError` at :108) or a line without characters that matches a table's first row (:91), a table without rows once a line is compared with it (`IndexError` at :87), and a table with an empty first row once a blank line is compared with it (`ZeroDivisionError` at :222). The other breaks, such as a blank line short of 80% of the width or a line without characters that neither starts a paragraph nor heads a table, raise nothing; they are simply not modelled. A `None` table cell is modelled: it raises the `TypeError` of `" ".join`.
- ContentModel.UpdateItem, `ContentModel.Content.UpdateCellInPlace` and `Frames.UpdateCell` require the row and column to lie inside the grid. pandas `.at` would instead enlarge the frame by a row or a column for a position outside it; that enlargement is not modelled. No code in the core calls `update_item`.
- Writer.SaveFailsOnlyFor, `PdfTranslator.OutputFails` and `PdfTranslator.TranslatePdfFails` say "exactly" of the model only. reportlab's `Table` raises for data of a shape it rejects, such as an empty grid (what an empty table answer produces) or a `colWidths` list whose length differs from the grid's column count. Those exceptions are not modelled.
- `_get_para_top` is never called and is not modelled.
- Floating-point numbers are Dafny reals, so rounding is not modelled. `leading` is the mode height times 1.2, exactly.
- Building the PDF with reportlab is not modelled: fonts, `ParagraphStyle`, `TableStyle`, `SimpleDocTemplate.build`. The document is the value `Writer.Document` holding the path, margins and story.
- The bottom margin is computed but not passed to the document, as in the code; the model's document has no bottom margin.
- Image handling in the writer is not modelled: temporary files, `imghdr`, timestamped image names and the cleanup of the `images/` folder. Format detection is the parameter `detect`.
- Writing the Markdown file and logging (`LOG`, `print`) are not modelled. When the Markdown writer raises, the file already holds the text written before the failing block; the model gives only the exception.
- `Writer.BlockFlows` gives nothing for a flagged text block whose translation is not a string, and for a flagged image that is not an image record; what reportlab would do with those is not modelled. (A flagged table without a grid raises `AttributeError` for `values`, as `Writer.MissingAttr` says.) The parser and `set_translation` never create such blocks, which `PdfTranslator.TranslationRun` keeps as an invariant.
- `ContentModel.Content.SetTranslation` for an image does not check `PIL.Image` and takes any value, as the `ImageContent` override does.
- `Frames.FrameText` stands in for pandas `to_string(header=False, index=False)`. It joins cells by spaces and rows by newlines, not pandas' column alignment, so the exact table prompt text is not modelled.
- `pd.DataFrame` is modelled only for lists of rows; other constructor inputs do not occur in the core.
- `PyStrings.Lower` lowers ASCII letters and the Kelvin sign only. These are the only characters whose lower case is an ASCII letter, which is all the format dispatch compares against.
- The model clients (OpenAI, GLM, QWen), their HTTP requests and configuration, the command-line and UI entry points, and the logger are not modelled. `make_request` is the function parameter `request`, assumed deterministic.
- `PDFTranslator` stores the book in `self.book`; the model passes the book along instead.
- `PdfTranslator.PageRun` states only the length of its result in its own contract; what it computes is stated by `PdfTranslator.PageRunKeeps`, `PdfTranslator.PageRunSucceeds` and `PdfTranslator.PageRunFailure`.
