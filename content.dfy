/**
 * The blocks a page is made of: text, table and image contents, each with an
 * original value, a translation slot and a translated flag, plus the layout
 * attributes the writer reads. `Content`, `TableContent` and `ImageContent` form a
 * closed variant: the block's kind decides which `set_translation` runs.
 */
module ContentModel {
  import opened Wrappers
  import opened PyStrings
  import opened Exceptions
  import opened Frames

  datatype ContentType = Text | Table | Image

  /** A pdfplumber image record: its anchor, its display size and its raw stream bytes. */
  datatype ImageRecord = ImageRecord(y0: real, width: real, height: real, stream: seq<bv8>)

  /** A character's non-stroking colour, compared only for equality. */
  datatype Color = Color(components: seq<real>)

  /** The Python values a block's `original` and `translation` slots can hold. */
  datatype Value =
    | NoneValue
    | Str(s: string)
    | List(items: seq<Value>)
    | Frame(frame: DataFrame)
    | PilImage(id: nat)
    | PdfImage(image: ImageRecord)

  /**
   * A snapshot of a block's attributes. Attributes the source declares but assigns
   * only later (`leading`, `first_line_offset`, `text_color`, `col_widths`) are
   * `None` until assigned; `space_before` and `top_y` start at their class defaults.
   */
  datatype Block = Block(
    kind: ContentType,
    original: Value,
    translation: Value,
    status: bool,
    fontSize: real,
    isBold: bool,
    leading: Option<real>,
    firstLineOffset: Option<real>,
    textColor: Option<Color>,
    spaceBefore: real,
    topY: real,
    colWidths: Option<seq<real>>)

  /**
   * What every block built by the parser satisfies and every translation keeps: the
   * original has the kind's type, and a block marked translated holds a translation of
   * that type (tables also while untranslated hold a grid or nothing).
   */
  predicate Consistent(b: Block) {
    match b.kind
    case Text =>
      b.original.Str? && (b.translation.Str? || b.translation.NoneValue?)
      && (b.status ==> b.translation.Str?)
    case Table =>
      b.original.Frame? && Rectangular(b.original.frame)
      && (b.translation.Frame? || b.translation.NoneValue?)
      && (b.translation.Frame? ==> Rectangular(b.translation.frame))
      && (b.status ==> b.translation.Frame?)
    case Image =>
      b.original.PdfImage?
  }

  /**
   * The attributes the parser assigns after building a block: a text block's `leading`,
   * `first_line_offset` and `text_color`, a table block's `col_widths`. A block made
   * directly by its class lacks them.
   */
  predicate Assigned(b: Block) {
    (b.kind == Text ==> b.leading.Some? && b.firstLineOffset.Some? && b.textColor.Some?)
    && (b.kind == Table ==> b.colWidths.Some?)
  }

  /** Whether two blocks agree on everything except the translation slot and flag. */
  predicate SameLayout(a: Block, b: Block) {
    a.(translation := b.translation, status := b.status) == b
  }

  /** `check_translator_type`: TEXT takes a `str`, TABLE a `list`, IMAGE a PIL image. */
  predicate CheckTranslatorType(kind: ContentType, v: Value) {
    match kind
    case Text => v.Str?
    case Table => v.List?
    case Image => v.PilImage?
  }

  // ---------------------------------------------------------------- table response parser

  /** `row.strip().strip('[]')`. */
  function Cleaned(row: string): (r: string)
    ensures r != [] ==> r[0] !in {'[', ']'} && r[|r| - 1] !in {'[', ']'}
  {
    StripSet(Strip(row), {'[', ']'})
  }

  /** The first of `", "`, three spaces, two spaces that occurs in the row, else one space. */
  function RowSeparator(r: string): string {
    if Contains(r, ", ") then ", "
    else if Contains(r, "   ") then "   "
    else if Contains(r, "  ") then "  "
    else " "
  }

  /** One non-blank line of the response, split into cells. */
  function ParseRow(line: string): (cells: seq<string>)
    ensures |cells| > 0
  {
    var r := Cleaned(line);
    Split(r, RowSeparator(r))
  }

  /** The table the loop builds from `lines`: blank lines skipped, every other line a row. */
  function ParseLines(lines: seq<string>): seq<seq<string>> {
    if lines == [] then []
    else
      var last := lines[|lines| - 1];
      ParseLines(lines[..|lines| - 1]) + (if IsBlank(last) then [] else [ParseRow(last)])
  }

  /** The non-blank lines, in order. */
  function NonBlank(lines: seq<string>): (r: seq<string>)
    ensures |r| <= |lines|
    ensures forall k :: 0 <= k < |r| ==> !IsBlank(r[k]) && r[k] in lines
  {
    if lines == [] then []
    else
      var last := lines[|lines| - 1];
      var init := NonBlank(lines[..|lines| - 1]);
      assert forall x :: x in lines[..|lines| - 1] ==> x in lines;
      init + (if IsBlank(last) then [] else [last])
  }

  /** `translation.strip().split("\n")`, parsed. */
  function ParseTableText(s: string): seq<seq<string>> {
    ParseLines(Split(Strip(s), "\n"))
  }

  /** One row per non-blank line, in order, each split by its own separator. */
  lemma {:induction false} ParseLinesRows(lines: seq<string>)
    ensures |ParseLines(lines)| == |NonBlank(lines)|
    ensures forall k :: 0 <= k < |NonBlank(lines)| ==> ParseLines(lines)[k] == ParseRow(NonBlank(lines)[k])
  {
    if lines != [] {
      ParseLinesRows(lines[..|lines| - 1]);
    }
  }

  /** Lines without blanks are kept, one row each. */
  lemma {:induction false} NonBlankKeepsAll(lines: seq<string>)
    requires forall k :: 0 <= k < |lines| ==> !IsBlank(lines[k])
    ensures NonBlank(lines) == lines
  {
    if lines != [] {
      NonBlankKeepsAll(lines[..|lines| - 1]);
      assert lines == lines[..|lines| - 1] + [lines[|lines| - 1]];
    }
  }

  /**
   * A row splits on its chosen separator and nothing is lost: joining the cells with
   * that separator gives back the cleaned line, and no cell still holds it.
   */
  lemma ParseRowRoundTrip(line: string)
    ensures Join(RowSeparator(Cleaned(line)), ParseRow(line)) == Cleaned(line)
    ensures forall c :: c in ParseRow(line) ==> !Contains(c, RowSeparator(Cleaned(line)))
  {
    JoinSplit(Cleaned(line), RowSeparator(Cleaned(line)));
    SplitPiecesFree(Cleaned(line), RowSeparator(Cleaned(line)));
  }

  /** An empty or all-blank response parses to no rows at all. */
  lemma BlankResponse(s: string)
    requires IsBlank(s)
    ensures ParseTableText(s) == []
  {
    assert Split([], "\n") == [[]];
    var lines := Split(Strip(s), "\n");
    assert lines[..|lines| - 1] == [];
    assert IsBlank([]);
  }

  lemma ParseLinesStep(lines: seq<string>, i: nat)
    requires i < |lines|
    ensures ParseLines(lines[..i + 1]) ==
      ParseLines(lines[..i]) + (if IsBlank(lines[i]) then [] else [ParseRow(lines[i])])
  {
    assert lines[..i + 1][..i] == lines[..i];
  }

  /** The body of the loop for one non-blank line: clean it, pick the separator, split. */
  method SplitResponseRow(row: string) returns (cells: seq<string>)
    ensures cells == ParseRow(row)
    ensures Join(RowSeparator(Cleaned(row)), cells) == Cleaned(row)
  {
    var cleaned := Cleaned(row);
    if Contains(cleaned, ", ") {
      cells := Split(cleaned, ", ");
    } else if Contains(cleaned, "   ") {
      cells := Split(cleaned, "   ");
    } else if Contains(cleaned, "  ") {
      cells := Split(cleaned, "  ");
    } else {
      cells := Split(cleaned, " ");
    }
    ParseRowRoundTrip(row);
  }

  method ParseTableResponse(s: string) returns (tableData: seq<seq<string>>)
    ensures tableData == ParseTableText(s)
  {
    var lines := Split(Strip(s), "\n");
    tableData := ParseResponseLines(lines);
  }

  method ParseResponseLines(lines: seq<string>) returns (tableData: seq<seq<string>>)
    ensures tableData == ParseLines(lines)
  {
    tableData := [];
    var i := 0;
    assert lines[..0] == [];
    while i < |lines|
      invariant 0 <= i <= |lines|
      invariant tableData == ParseLines(lines[..i])
    {
      var row := lines[i];
      ParseLinesStep(lines, i);
      if !IsBlank(row) {
        var cells := SplitResponseRow(row);
        tableData := tableData + [cells];
      }
      i := i + 1;
    }
    assert lines[..i] == lines;
  }

  // ---------------------------------------------------------------- set_translation

  /** `TableContent.set_translation` on a value that is already known. */
  function TableTranslated(b: Block, v: Value, status: bool): Block {
    if v.Str? then b.(translation := Frame(FrameOfStrings(ParseTableText(v.s))), status := status)
    else b.(translation := NoneValue, status := false)
  }

  /**
   * `set_translation` of the block's own class. Only a text block can raise, and only
   * for a non-string value, leaving the block as it was; a table turns a non-string into
   * "no translation, not translated"; an image takes any value. Nothing but the
   * translation slot and the flag ever changes, and a consistent block stays consistent.
   */
  function SetTranslationSpec(b: Block, v: Value, status: bool): (r: Result<Block, Error>)
    ensures r.Err? <==> b.kind == Text && !v.Str?
    ensures r.Err? ==> r.error == TypeErr(NotAnException)
    ensures r.Ok? ==> SameLayout(b, r.value)
    ensures r.Ok? && b.kind != Table ==> r.value.translation == v && r.value.status == status
    ensures r.Ok? && b.kind == Table ==> (r.value.status <==> v.Str? && status)
    ensures r.Ok? && Consistent(b) ==> Consistent(r.value)
  {
    match b.kind
    case Text => if CheckTranslatorType(Text, v) then Ok(b.(translation := v, status := status)) else Err(TypeErr(NotAnException))
    case Table => Ok(TableTranslated(b, v, status))
    case Image => Ok(b.(translation := v, status := status))
  }

  /** A table's translation holds exactly one row per non-blank line of the response, in order. */
  lemma TableTranslationRows(b: Block, s: string, status: bool)
    requires b.kind == Table
    ensures var r := SetTranslationSpec(b, Str(s), status);
      r.Ok? && r.value.status == status && r.value.translation.Frame?
      && |r.value.translation.frame.rows| == |NonBlank(Split(Strip(s), "\n"))|
  {
    ParseLinesRows(Split(Strip(s), "\n"));
  }

  /** An empty answer for a table gives an empty grid with the flag as passed. */
  lemma EmptyTableAnswer(b: Block, status: bool)
    requires b.kind == Table
    ensures SetTranslationSpec(b, Str(""), status) == Ok(b.(translation := Frame(DataFrame(0, [])), status := status))
  {
    assert IsBlank("");
    BlankResponse("");
  }

  // ---------------------------------------------------------------- table cell access

  /** The grid `iter_items`/`update_item` act on: the translation or the original. */
  function Target(b: Block, translated: bool): Value {
    if translated then b.translation else b.original
  }

  /**
   * `iter_items`: every cell of the chosen grid once, row by row and left to right; an
   * untranslated table has no grid to iterate (`None.iterrows` fails).
   */
  function IterItems(b: Block, translated: bool): (r: Result<seq<(nat, nat, Cell)>, Error>)
    requires b.kind == Table && Consistent(b)
    ensures r.Ok? <==> Target(b, translated).Frame?
    ensures r.Ok? ==> RowMajor(Target(b, translated).frame, r.value)
  {
    if Target(b, translated).Frame? then
      var f := Target(b, translated).frame;
      ItemsRowMajor(f);
      Ok(Items(f))
    else
      Err(MissingAttribute("iterrows"))
  }

  /** `update_item` for a cell inside the chosen grid; `None.at` fails. */
  function UpdateItem(b: Block, row: nat, col: nat, v: Cell, translated: bool): (r: Result<Block, Error>)
    requires b.kind == Table && Consistent(b)
    requires Target(b, translated).Frame? ==>
      row < |Target(b, translated).frame.rows| && col < Target(b, translated).frame.width
    ensures r.Ok? <==> Target(b, translated).Frame?
    ensures r.Ok? ==> Consistent(r.value) && Target(r.value, !translated) == Target(b, !translated)
    ensures r.Ok? ==> SameLayout(b, r.value) || (!translated && r.value.(original := b.original) == b)
    ensures r.Ok? ==> (Target(r.value, translated).Frame?
      && CellUpdated(Target(b, translated).frame, Target(r.value, translated).frame, row, col, v))
  {
    if Target(b, translated).Frame? then
      var g := Frame(UpdateCell(Target(b, translated).frame, row, col, v));
      if translated then Ok(b.(translation := g)) else Ok(b.(original := g))
    else
      Err(MissingAttribute("at"))
  }

  /** `get_original_as_str`: the original grid as text (see `Frames.FrameText`). */
  function OriginalAsStr(b: Block): string
    requires b.kind == Table && b.original.Frame?
  {
    FrameText(b.original.frame)
  }

  // ---------------------------------------------------------------- the block object

  class Content {
    const kind: ContentType
    var original: Value
    var translation: Value
    var status: bool
    var fontSize: real
    var isBold: bool
    var leading: Option<real>
    var firstLineOffset: Option<real>
    var textColor: Option<Color>
    var spaceBefore: real
    var topY: real
    var colWidths: Option<seq<real>>

    function View(): Block
      reads this
    {
      Block(kind, original, translation, status, fontSize, isBold, leading, firstLineOffset,
            textColor, spaceBefore, topY, colWidths)
    }

    /** `Content(content_type, original, translation=None)`. */
    constructor (kind: ContentType, original: Value, translation: Value)
      ensures View() == Block(kind, original, translation, false, 12.0, false, None, None, None, 5.0, 0.0, None)
    {
      this.kind := kind;
      this.original := original;
      this.translation := translation;
      status := false;
      fontSize := 12.0;
      isBold := false;
      leading := None;
      firstLineOffset := None;
      textColor := None;
      spaceBefore := 5.0;
      topY := 0.0;
      colWidths := None;
    }

    /** `ImageContent(image)`: born translated, its translation the image itself. */
    constructor Image(image: ImageRecord)
      ensures View() == Block(ContentType.Image, PdfImage(image), PdfImage(image), true, 12.0, false,
                              None, None, None, 5.0, 0.0, None)
      ensures Consistent(View())
    {
      kind := ContentType.Image;
      original := PdfImage(image);
      translation := PdfImage(image);
      status := true;
      fontSize := 12.0;
      isBold := false;
      leading := None;
      firstLineOffset := None;
      textColor := None;
      spaceBefore := 5.0;
      topY := 0.0;
      colWidths := None;
    }

    /** `TableContent(data)`: the grid of `data`, or the exception its shape check raises. */
    static method NewTable(data: seq<seq<Cell>>) returns (r: Result<Content, Error>)
      ensures r.Err? <==> TableFrame(data).Err?
      ensures r.Err? ==> r.error == TableFrame(data).error
      ensures r.Ok? ==> fresh(r.value)
      ensures r.Ok? ==> r.value.View() == Block(ContentType.Table, Frame(TableFrame(data).value), NoneValue,
                                                false, 12.0, false, None, None, None, 5.0, 0.0, None)
      ensures r.Ok? ==> Consistent(r.value.View())
    {
      match TableFrame(data)
      case Err(e) => r := Err(e);
      case Ok(f) =>
        var c := new Content(ContentType.Table, Frame(f), NoneValue);
        r := Ok(c);
    }

    /** `set_translation` of the block's own class (see `SetTranslationSpec`). */
    method SetTranslation(v: Value, st: bool) returns (outcome: Outcome<Error>)
      modifies this
      ensures var r := SetTranslationSpec(old(View()), v, st);
        (r.Ok? ==> outcome == Pass && View() == r.value)
        && (r.Err? ==> outcome == Fail(r.error) && View() == old(View()))
    {
      outcome := Pass;
      match kind
      case Text =>
        if !CheckTranslatorType(kind, v) {
          outcome := Fail(TypeErr(NotAnException));
          return;
        }
        translation := v;
        status := st;
      case Table =>
        if v.Str? {
          var tableData := ParseTableResponse(v.s);
          translation := Frame(FrameOfStrings(tableData));
          status := st;
        } else {
          translation := NoneValue;
          status := false;
        }
      case Image =>
        translation := v;
        status := st;
    }

    /** `update_item(row_idx, col_idx, new_value, translated)` (see `UpdateItem`). */
    method UpdateCellInPlace(row: nat, col: nat, v: Cell, translated: bool) returns (outcome: Outcome<Error>)
      requires kind == ContentType.Table && Consistent(View())
      requires Target(View(), translated).Frame? ==>
        row < |Target(View(), translated).frame.rows| && col < Target(View(), translated).frame.width
      modifies this
      ensures var r := UpdateItem(old(View()), row, col, v, translated);
        (r.Ok? ==> outcome == Pass && View() == r.value)
        && (r.Err? ==> outcome == Fail(r.error) && View() == old(View()))
    {
      var target := if translated then translation else original;
      match target
      case Frame(f) =>
        var g := Frame(UpdateCell(f, row, col, v));
        if translated { translation := g; } else { original := g; }
        outcome := Pass;
      case _ =>
        outcome := Fail(MissingAttribute("at"));
    }
  }
}
