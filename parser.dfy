/**
 * The layout extractor: turns one PDF page's text lines, tables and images, as the
 * PDF library reports them, into a `Page` of TEXT, TABLE and IMAGE blocks ordered
 * from the top of the page down, and the pages of a document into a `Book`.
 *
 * Lines are grouped into paragraphs by the paragraph-tail rule; lines that repeat a
 * table row are dropped; a table block is emitted where its header line appears;
 * margins and paragraph attributes are the most common values over the characters.
 */
module PdfParser {
  import opened Wrappers
  import opened PyStrings
  import opened Exceptions
  import opened Modal
  import opened StableSort
  import opened Frames
  import opened ContentModel
  import opened PageModel
  import opened BookModel

  // ---------------------------------------------------------------- input records

  /** One character: its box, font size and height, font name and fill colour. */
  datatype Char = Char(x0: real, x1: real, y0: real, size: real, height: real, fontName: string, color: Color)

  /** One text line: its text, right edge, top and characters. */
  datatype Line = Line(text: string, x1: real, top: real, chars: seq<Char>)

  /** A table cell as the PDF library reports it: its text, or `None` for a cell a merged region covers. */
  type RawCell = Option<string>

  /** An extracted table as reported: rows of cells. */
  type RawTable = seq<seq<RawCell>>

  /** A table whose every cell holds text. */
  type TableRows = seq<seq<string>>

  /** What the PDF library reports for one page. */
  datatype PdfPage = PdfPage(width: real, lines: seq<Line>, tables: seq<RawTable>, images: seq<ImageRecord>)

  /** Every line has characters and visible text. */
  predicate LinesOk(lines: seq<Line>) {
    forall i :: 0 <= i < |lines| ==> lines[i].chars != [] && Strip(lines[i].text) != []
  }

  /** Every table has a first row, and that row has a cell. */
  predicate TablesHaveHeaders(ts: seq<TableRows>) {
    forall j :: 0 <= j < |ts| ==> ts[j] != [] && ts[j][0] != []
  }

  /** Every reported table has a first row, and that row has a cell. */
  predicate RawHeaders(ts: seq<RawTable>) {
    forall j :: 0 <= j < |ts| ==> ts[j] != [] && ts[j][0] != []
  }

  /**
   * What the extractor relies on without checking: a positive page width, every line
   * with characters and visible text, every table with a non-empty first row.
   */
  predicate Shaped(p: PdfPage) {
    p.width > 0.0 && LinesOk(p.lines) && RawHeaders(p.tables)
  }

  predicate RowPresent(row: seq<RawCell>) {
    forall c :: 0 <= c < |row| ==> row[c].Some?
  }

  predicate TablePresent(t: RawTable) {
    forall r :: 0 <= r < |t| ==> RowPresent(t[r])
  }

  /** No cell of any table is `None`. */
  predicate CellsPresent(ts: seq<RawTable>) {
    forall j :: 0 <= j < |ts| ==> TablePresent(ts[j])
  }

  function RowValues(row: seq<RawCell>): (r: seq<string>)
    requires RowPresent(row)
    ensures |r| == |row| && forall c :: 0 <= c < |row| ==> r[c] == row[c].value
  {
    seq(|row|, c requires 0 <= c < |row| => row[c].value)
  }

  function TableValues(t: RawTable): (r: TableRows)
    requires TablePresent(t)
    ensures |r| == |t| && forall i :: 0 <= i < |t| ==> r[i] == RowValues(t[i])
  {
    seq(|t|, i requires 0 <= i < |t| => RowValues(t[i]))
  }

  /** The tables with every cell's text, once no cell is `None`. */
  function TablesOf(raw: seq<RawTable>): (ts: seq<TableRows>)
    requires CellsPresent(raw)
    ensures |ts| == |raw| && forall j :: 0 <= j < |ts| ==> ts[j] == TableValues(raw[j])
    ensures RawHeaders(raw) ==> TablesHaveHeaders(ts)
  {
    seq(|raw|, j requires 0 <= j < |raw| => TableValues(raw[j]))
  }

  /** A page the extractor turns into blocks: shaped, and no table cell is `None`. */
  predicate WellFormed(p: PdfPage) {
    Shaped(p) && CellsPresent(p.tables)
  }

  // ---------------------------------------------------------------- paragraph tails

  /** The sentence-ending characters; the semicolon is the ASCII one only. */
  const Terminators: set<char> := {'.', '"', '\U{201D}', '?', '\U{3002}', '!', ';'}

  predicate EndsWithTerminator(s: string) {
    s != [] && s[|s| - 1] in Terminators
  }

  /**
   * `_is_para_tail`: a line ends its paragraph when it stops short of 80% of the page
   * width, ends in a terminator, or is the last line of the page.
   */
  function IsParaTail(width: real, line: Line, idx: int, total: int): (r: bool)
    requires width > 0.0
    requires line.x1 / width >= 0.8 ==> Strip(line.text) != []
    ensures r <==> line.x1 / width < 0.8 || EndsWithTerminator(Strip(line.text)) || idx == total - 1
  {
    line.x1 / width < 0.8 || Strip(line.text)[|Strip(line.text)| - 1] in Terminators || idx == total - 1
  }

  lemma RatioBelow(x: real, width: real)
    requires width > 0.0
    ensures x / width < 0.8 <==> x < 0.8 * width
  {
    assert x == (x / width) * width;
  }

  /** The tail rule without division: the right edge is left of 80% of the width. */
  lemma ParaTailRule(width: real, line: Line, idx: int, total: int)
    requires width > 0.0
    requires line.x1 / width >= 0.8 ==> Strip(line.text) != []
    ensures IsParaTail(width, line, idx, total) <==>
      line.x1 < 0.8 * width || EndsWithTerminator(Strip(line.text)) || idx == total - 1
  {
    RatioBelow(line.x1, width);
  }

  // ---------------------------------------------------------------- margins

  /** First-character `x0` of every line that has characters, in order. */
  function Lefts(lines: seq<Line>): seq<real> {
    if lines == [] then []
    else
      var l := lines[|lines| - 1];
      Lefts(lines[..|lines| - 1]) + (if l.chars != [] then [l.chars[0].x0] else [])
  }

  /** Last-character `x1` of every line that has characters, in order. */
  function Rights(lines: seq<Line>): seq<real> {
    if lines == [] then []
    else
      var l := lines[|lines| - 1];
      Rights(lines[..|lines| - 1]) + (if l.chars != [] then [l.chars[|l.chars| - 1].x1] else [])
  }

  /** `_get_all_left`: the most common left edge, 20 for a page without characters. */
  function AllLeft(lines: seq<Line>): real {
    MostCommonOr(Lefts(lines), 20.0)
  }

  function MaxOf(xs: seq<real>): (m: real)
    requires xs != []
    ensures m in xs && forall x :: x in xs ==> x <= m
  {
    if |xs| == 1 then xs[0]
    else
      var m := MaxOf(xs[1..]);
      assert forall x :: x in xs ==> x == xs[0] || x in xs[1..];
      if xs[0] >= m then xs[0] else m
  }

  /** `_get_all_right`: the rightmost right edge, the width less 20 without characters. */
  function AllRight(width: real, lines: seq<Line>): (r: real)
    ensures Rights(lines) == [] ==> r == width - 20.0
    ensures Rights(lines) != [] ==> r in Rights(lines) && forall x :: x in Rights(lines) ==> x <= r
  {
    if Rights(lines) == [] then width - 20.0 else MaxOf(Rights(lines))
  }

  /**
   * The page margins: left and right are both the most common left edge, top is the
   * first line's top unless that is missing or zero (then 30), and bottom equals top.
   */
  function MarginsOf(p: PdfPage): Margins {
    var left := AllLeft(p.lines);
    var top := if p.lines != [] && p.lines[0].top != 0.0 then p.lines[0].top else 30.0;
    Margins(left, left, top, top)
  }

  /**
   * The margins: left is the most common left edge (the first seen among equally
   * common ones, 20 without characters), right equals left, top is the first line's
   * top unless there is none or it is zero (then 30), and bottom equals top.
   */
  lemma MarginsRule(p: PdfPage)
    ensures var m := MarginsOf(p);
      ModeOr(Lefts(p.lines), 20.0, m.left) && m.right == m.left && m.bottom == m.top
      && (p.lines != [] && p.lines[0].top != 0.0 ==> m.top == p.lines[0].top)
      && (p.lines == [] || p.lines[0].top == 0.0 ==> m.top == 30.0)
  {
    MostCommonOrIsMode(Lefts(p.lines), 20.0);
  }

  // ---------------------------------------------------------------- paragraph attributes

  /** Every character of the lines, line by line. */
  function CharsOf(lines: seq<Line>): seq<Char> {
    if lines == [] then [] else CharsOf(lines[..|lines| - 1]) + lines[|lines| - 1].chars
  }

  lemma {:induction false} CharsOfEmpty(lines: seq<Line>)
    requires lines != [] && lines[0].chars != []
    ensures CharsOf(lines) != []
  {
    if |lines| > 1 {
      CharsOfEmpty(lines[..|lines| - 1]);
    }
  }

  function Sizes(cs: seq<Char>): seq<real> { Map(cs, (c: Char) => c.size) }
  function Heights(cs: seq<Char>): seq<real> { Map(cs, (c: Char) => c.height) }
  function Colors(cs: seq<Char>): seq<Color> { Map(cs, (c: Char) => c.color) }
  function FontNames(cs: seq<Char>): seq<string> { Map(cs, (c: Char) => c.fontName) }

  /** `_get_para_font_size`: the most common character size, 24 without characters. */
  function ParaFontSize(lines: seq<Line>): real {
    MostCommonOr(Sizes(CharsOf(lines)), 24.0)
  }

  /** `_get_para_font_height`: the most common character height, 24 without characters. */
  function ParaFontHeight(lines: seq<Line>): real {
    MostCommonOr(Heights(CharsOf(lines)), 24.0)
  }

  const Black: Color := Color([0.0, 0.0, 0.0])

  /** `_get_para_text_color`: the most common fill colour, black without characters. */
  function ParaColor(lines: seq<Line>): Color {
    MostCommonOr(Colors(CharsOf(lines)), Black)
  }

  /** `_get_para_is_bold`: whether the most common font name contains "bold" in any case. */
  function ParaIsBold(lines: seq<Line>): bool {
    var names := FontNames(CharsOf(lines));
    if names == [] then false else Contains(Lower(MostCommon(names)), "bold")
  }

  /**
   * Each paragraph attribute is the mode of its character attribute (ties to the
   * first seen), or the default without characters: size 24, height 24, black; and
   * the paragraph is bold iff the mode font name contains "bold" in any case.
   */
  lemma ParaAttributesAreModes(lines: seq<Line>)
    ensures ModeOr(Sizes(CharsOf(lines)), 24.0, ParaFontSize(lines))
    ensures ModeOr(Heights(CharsOf(lines)), 24.0, ParaFontHeight(lines))
    ensures ModeOr(Colors(CharsOf(lines)), Black, ParaColor(lines))
    ensures CharsOf(lines) == [] ==> !ParaIsBold(lines)
    ensures CharsOf(lines) != [] ==> exists name ::
      IsMode(FontNames(CharsOf(lines)), name) && (ParaIsBold(lines) <==> Contains(Lower(name), "bold"))
  {
    MostCommonOrIsMode(Sizes(CharsOf(lines)), 24.0);
    MostCommonOrIsMode(Heights(CharsOf(lines)), 24.0);
    MostCommonOrIsMode(Colors(CharsOf(lines)), Black);
    if CharsOf(lines) != [] {
      var names := FontNames(CharsOf(lines));
      assert IsMode(names, MostCommon(names));
    }
  }

  /** `_get_line_first_offset`: how far the first character sits right of the margin, never negative. */
  function FirstLineOffset(lines: seq<Line>, left: real): (r: real)
    ensures r >= 0.0
    ensures lines != [] && lines[0].chars != [] ==>
      r >= lines[0].chars[0].x0 - left && (r == 0.0 || r == lines[0].chars[0].x0 - left)
    ensures lines == [] || lines[0].chars == [] ==> r == 0.0
  {
    if lines != [] && lines[0].chars != [] then
      var d := lines[0].chars[0].x0 - left;
      if d > 0.0 then d else 0.0
    else 0.0
  }

  // ---------------------------------------------------------------- column widths

  function Sum(xs: seq<real>): real {
    if xs == [] then 0.0 else Sum(xs[..|xs| - 1]) + xs[|xs| - 1]
  }

  /** `_get_col_widths`: `count` equal columns sharing `width`. */
  function ColWidths(width: real, count: nat): (ws: seq<real>)
    requires count > 0
    ensures |ws| == count && forall i :: 0 <= i < count ==> ws[i] == width / count as real
  {
    seq(count, _ => width / count as real)
  }

  lemma {:induction false} SumConstant(n: nat, x: real)
    ensures Sum(seq(n, _ => x)) == n as real * x
  {
    if n > 0 {
      var s := seq(n, _ => x);
      assert s[..n - 1] == seq(n - 1, _ => x);
      SumConstant(n - 1, x);
    }
  }

  /** The column widths add up to the width they share. */
  lemma ColWidthsSum(width: real, count: nat)
    requires count > 0
    ensures Sum(ColWidths(width, count)) == width
  {
    SumConstant(count, width / count as real);
  }

  // ---------------------------------------------------------------- blocks

  /** The space-joined rows of every table: the texts a paragraph line must not repeat. */
  function RowTexts(tables: seq<TableRows>): seq<string> {
    if tables == [] then []
    else
      var t := tables[|tables| - 1];
      var init := tables[..|tables| - 1];
      RowTexts(init) + seq(|t|, i requires 0 <= i < |t| => Join(" ", t[i]))
  }

  /** The `TypeError` Python's `str.join` raises when item `i` of its argument is `None`. */
  function NoneItem(i: nat): Error {
    TypeErr("sequence item " + IntToString(i) + ": expected str instance, NoneType found")
  }

  /** The position of a row's first `None` cell. */
  function FirstNone(row: seq<RawCell>): (i: nat)
    requires !RowPresent(row)
    ensures i < |row| && row[i].None? && forall c :: 0 <= c < i ==> row[c].Some?
  {
    if row[0].None? then 0 else FirstNone(row[1..]) + 1
  }

  /** `" ".join(row)`: the cells' texts separated by spaces, or the error for the first `None` cell. */
  function JoinCells(row: seq<RawCell>): Result<string, Error> {
    if RowPresent(row) then Ok(Join(" ", RowValues(row))) else Err(NoneItem(FirstNone(row)))
  }

  /** The rows of every table, table after table. */
  function Rows(tables: seq<RawTable>): seq<seq<RawCell>> {
    if tables == [] then [] else Rows(tables[..|tables| - 1]) + tables[|tables| - 1]
  }

  lemma {:induction false} RowsAppend(a: seq<RawTable>, b: seq<RawTable>)
    ensures Rows(a + b) == Rows(a) + Rows(b)
    decreases |b|
  {
    if b == [] {
      assert a + b == a;
    } else {
      var init := b[..|b| - 1];
      RowsAppend(a, init);
      assert (a + b)[..|a + b| - 1] == a + init;
    }
  }

  /** Row `i` of table `j` splits the rows into those joined before it and those after. */
  lemma RowsSplit(tables: seq<RawTable>, j: nat, i: nat)
    requires j < |tables| && i <= |tables[j]|
    ensures Rows(tables) == Rows(tables[..j]) + tables[j][..i] + (tables[j][i..] + Rows(tables[j + 1..]))
  {
    assert tables == (tables[..j] + [tables[j]]) + tables[j + 1..];
    RowsAppend(tables[..j] + [tables[j]], tables[j + 1..]);
    RowsAppend(tables[..j], [tables[j]]);
    assert Rows([tables[j]]) == tables[j];
    assert tables[j] == tables[j][..i] + tables[j][i..];
  }

  /** A row whose join raises ends the loop: no later row is joined. */
  lemma StopsAt(tables: seq<RawTable>, j: nat, i: nat)
    requires j < |tables| && i < |tables[j]|
    requires AllOk(Map(Rows(tables[..j]) + tables[j][..i + 1], JoinCells)).Err?
    ensures AllOk(Map(Rows(tables), JoinCells)) == AllOk(Map(Rows(tables[..j]) + tables[j][..i + 1], JoinCells))
  {
    var done := Rows(tables[..j]) + tables[j][..i + 1];
    var rest := tables[j][i + 1..] + Rows(tables[j + 1..]);
    RowsSplit(tables, j, i + 1);
    assert Map(done + rest, JoinCells) == Map(done, JoinCells) + Map(rest, JoinCells);
    AllOkStops(Map(done, JoinCells), Map(rest, JoinCells));
  }

  /** Joining row `i` of table `j` extends the joins done so far by one. */
  lemma JoinNext(tables: seq<RawTable>, j: nat, i: nat)
    requires j < |tables| && i < |tables[j]|
    ensures Map(Rows(tables[..j]) + tables[j][..i + 1], JoinCells) ==
      Map(Rows(tables[..j]) + tables[j][..i], JoinCells) + [JoinCells(tables[j][i])]
  {
    var done := Rows(tables[..j]) + tables[j][..i];
    assert done + [tables[j][i]] == Rows(tables[..j]) + tables[j][..i + 1];
  }

  /** Once every row of table `j` is joined, so are the rows of the first `j + 1` tables. */
  lemma TableDone(tables: seq<RawTable>, j: nat)
    requires j < |tables|
    ensures Rows(tables[..j + 1]) == Rows(tables[..j]) + tables[j][..|tables[j]|]
  {
    assert tables[..j + 1][..j] == tables[..j];
    assert tables[j][..|tables[j]|] == tables[j];
  }

  /**
   * The loop before the margins: every row of every table joined by spaces, in order,
   * the first `None` cell raising the join's `TypeError`.
   */
  method CollectRowTexts(tables: seq<RawTable>) returns (r: Result<seq<string>, Error>)
    ensures r == AllOk(Map(Rows(tables), JoinCells))
  {
    var texts: seq<string> := [];
    for j := 0 to |tables|
      invariant AllOk(Map(Rows(tables[..j]), JoinCells)) == Ok(texts)
    {
      var table := tables[j];
      assert Rows(tables[..j]) + table[..0] == Rows(tables[..j]);
      for i := 0 to |table|
        invariant AllOk(Map(Rows(tables[..j]) + table[..i], JoinCells)) == Ok(texts)
      {
        var joined := JoinCells(table[i]);
        JoinNext(tables, j, i);
        AllOkStep(Map(Rows(tables[..j]) + table[..i], JoinCells), joined);
        if joined.Err? {
          StopsAt(tables, j, i);
          return Err(joined.error);
        }
        texts := texts + [joined.value];
      }
      TableDone(tables, j);
    }
    assert tables[..|tables|] == tables;
    r := Ok(texts);
  }

  /** The cells of every row, table after table, all hold text exactly when every table's do. */
  lemma {:induction false} RowsPresent(tables: seq<RawTable>)
    ensures (forall k :: 0 <= k < |Rows(tables)| ==> RowPresent(Rows(tables)[k])) <==> CellsPresent(tables)
    ensures CellsPresent(tables) ==> |RowTexts(TablesOf(tables))| == |Rows(tables)|
    ensures CellsPresent(tables) ==>
      forall k :: 0 <= k < |Rows(tables)| ==> JoinCells(Rows(tables)[k]) == Ok(RowTexts(TablesOf(tables))[k])
  {
    if tables != [] {
      var init, t := tables[..|tables| - 1], tables[|tables| - 1];
      RowsPresent(init);
      var rows, before := Rows(tables), Rows(init);
      assert rows == before + t;
      assert (forall k :: 0 <= k < |rows| ==> RowPresent(rows[k])) <==>
        (forall k :: 0 <= k < |before| ==> RowPresent(before[k])) && TablePresent(t) by {
        assert forall k :: 0 <= k < |before| ==> rows[k] == before[k];
        assert forall k :: 0 <= k < |t| ==> rows[|before| + k] == t[k];
      }
      assert CellsPresent(tables) <==> CellsPresent(init) && TablePresent(t) by {
        if CellsPresent(init) && TablePresent(t) {
          forall j | 0 <= j < |tables| ensures TablePresent(tables[j]) {
            if j < |init| { assert tables[j] == init[j]; }
          }
        }
        if CellsPresent(tables) {
          forall j | 0 <= j < |init| ensures TablePresent(init[j]) {
            assert init[j] == tables[j];
          }
        }
      }
      if CellsPresent(tables) {
        var ts := TablesOf(tables);
        assert ts[..|ts| - 1] == TablesOf(init);
        var tv := ts[|ts| - 1];
        assert RowTexts(ts) == RowTexts(TablesOf(init)) + seq(|tv|, i requires 0 <= i < |tv| => Join(" ", tv[i]));
        forall k | 0 <= k < |rows| ensures JoinCells(rows[k]) == Ok(RowTexts(ts)[k]) {
          if k >= |Rows(init)| {
            assert rows[k] == t[k - |Rows(init)|];
          }
        }
      }
    }
  }

  /**
   * Joining the rows completes exactly when no cell is `None`, and then it gives the
   * texts a paragraph line is compared with; otherwise the `TypeError` names the first
   * `None` cell of the first row that has one.
   */
  lemma RowTextsJoined(tables: seq<RawTable>)
    ensures AllOk(Map(Rows(tables), JoinCells)).Ok? <==> CellsPresent(tables)
    ensures CellsPresent(tables) ==> AllOk(Map(Rows(tables), JoinCells)).value == RowTexts(TablesOf(tables))
    ensures !CellsPresent(tables) ==> exists k ::
      0 <= k < |Rows(tables)| && (forall m :: 0 <= m < k ==> RowPresent(Rows(tables)[m])) &&
      !RowPresent(Rows(tables)[k]) && AllOk(Map(Rows(tables), JoinCells)) == Err(NoneItem(FirstNone(Rows(tables)[k])))
  {
    var rows := Rows(tables);
    var rs := Map(rows, JoinCells);
    RowsPresent(tables);
    AllOkValues(rs);
    if !CellsPresent(tables) {
      AllOkFirstError(rs);
      var k :| 0 <= k < |rs| && rs[k].Err? && (forall i :: 0 <= i < k ==> rs[i].Ok?) && AllOk(rs).error == rs[k].error;
      assert forall m :: 0 <= m < k ==> RowPresent(rows[m]) by {
        forall m | 0 <= m < k ensures RowPresent(rows[m]) { assert rs[m].Ok?; }
      }
    }
  }

  /** The text a table's header line must have: its first row joined by spaces. */
  function HeaderText(t: TableRows): string
    requires t != []
  {
    Join(" ", t[0])
  }

  /** The one-row grid `TableContent([table])` builds: each cell one extracted row. */
  function TableCells(t: TableRows): (cells: seq<Cell>)
    ensures |cells| == |t| && forall i :: 0 <= i < |t| ==> cells[i] == CellRow(t[i])
  {
    seq(|t|, i requires 0 <= i < |t| => CellRow(t[i]))
  }

  /** What the extractor fixes for one page before the line loop. */
  datatype Env = Env(width: real, total: nat, rowTexts: seq<string>, left: real, right: real)

  function EnvOf(p: PdfPage): Env
    requires CellsPresent(p.tables)
  {
    Env(p.width, |p.lines|, RowTexts(TablesOf(p.tables)), AllLeft(p.lines), AllRight(p.width, p.lines))
  }

  /**
   * A table block: anchored at the header line's first character, with as many equal
   * columns as the header row has cells, sharing the span between the page's left
   * margin and its rightmost edge.
   */
  function TableBlock(t: TableRows, line: Line, env: Env): Block
    requires t != [] && t[0] != [] && line.chars != []
  {
    Block(ContentType.Table, Frame(MakeFrame([TableCells(t)])), NoneValue, false, 12.0, false,
          None, None, None, 5.0, line.chars[0].y0, Some(ColWidths(env.right - env.left, |t[0]|)))
  }

  function LineText(l: Line): string { Strip(l.text) }

  /** A paragraph's text: its lines' stripped texts joined by spaces. */
  function ParaText(para: seq<Line>): string {
    Join(" ", Map(para, LineText))
  }

  /** A text block with the paragraph's most common attributes, anchored at its first character. */
  function TextBlock(para: seq<Line>, env: Env): Block
    requires para != [] && para[0].chars != []
  {
    Block(ContentType.Text, Str(ParaText(para)), NoneValue, false, ParaFontSize(para), ParaIsBold(para),
          Some(ParaFontHeight(para) * 1.2), Some(FirstLineOffset(para, env.left)), Some(ParaColor(para)),
          5.0, para[0].chars[0].y0, None)
  }

  /** Every non-empty paragraph starts with a line that has characters. */
  predicate Anchored(paras: seq<seq<Line>>) {
    forall k :: 0 <= k < |paras| && paras[k] != [] ==> paras[k][0].chars != []
  }

  /** The table blocks of the matched tables, in order of their header lines. */
  function TableBlocks(matched: seq<(TableRows, Line)>, env: Env): (bs: seq<Block>)
    requires MatchesOk(matched)
    ensures |bs| == |matched|
  {
    if matched == [] then []
    else
      var m := matched[|matched| - 1];
      TableBlocks(matched[..|matched| - 1], env) + [TableBlock(m.0, m.1, env)]
  }

  predicate MatchesOk(matched: seq<(TableRows, Line)>) {
    forall k :: 0 <= k < |matched| ==> matched[k].0 != [] && matched[k].0[0] != [] && matched[k].1.chars != []
  }

  /** The text blocks of the first `n` paragraphs: one per non-empty paragraph, in order. */
  function TextBlocksUpTo(paras: seq<seq<Line>>, env: Env, n: nat): (bs: seq<Block>)
    requires Anchored(paras) && n <= |paras|
    ensures |bs| <= n && AllOfKind(bs, ContentType.Text)
  {
    if n == 0 then []
    else if paras[n - 1] == [] then TextBlocksUpTo(paras, env, n - 1)
    else
      TextBlockConsistent(paras[n - 1], env);
      AllOfKindSnoc(TextBlocksUpTo(paras, env, n - 1), TextBlock(paras[n - 1], env), ContentType.Text);
      TextBlocksUpTo(paras, env, n - 1) + [TextBlock(paras[n - 1], env)]
  }

  /** One text block per non-empty paragraph, in order; empty paragraphs yield nothing. */
  function TextBlocks(paras: seq<seq<Line>>, env: Env): seq<Block>
    requires Anchored(paras)
  {
    TextBlocksUpTo(paras, env, |paras|)
  }

  /** An image block: born translated, anchored at the image's bottom edge. */
  function ImageBlock(img: ImageRecord): Block {
    Block(ContentType.Image, PdfImage(img), PdfImage(img), true, 12.0, false, None, None, None, 5.0, img.y0, None)
  }

  // ---------------------------------------------------------------- the line loop

  /**
   * The loop state after some lines: the open paragraph, the closed paragraphs, the
   * tables still waiting for their header line, and the tables matched so far with
   * their header lines.
   */
  datatype Scan = Scan(temp: seq<Line>, paras: seq<seq<Line>>, pending: seq<TableRows>, matched: seq<(TableRows, Line)>)

  /** The first pending table whose header text is `text`. */
  function FirstHeaderMatch(pending: seq<TableRows>, text: string): (m: Option<nat>)
    requires TablesHaveHeaders(pending)
    ensures m.Some? ==> m.value < |pending| && HeaderText(pending[m.value]) == text
    ensures m.Some? ==> forall j :: 0 <= j < m.value ==> HeaderText(pending[j]) != text
    ensures m.None? ==> forall j :: 0 <= j < |pending| ==> HeaderText(pending[j]) != text
    decreases |pending|
  {
    if pending == [] then None
    else if HeaderText(pending[0]) == text then Some(0)
    else
      match FirstHeaderMatch(pending[1..], text)
      case None => None
      case Some(k) => Some(k + 1)
  }

  /** A line joins the open paragraph unless it repeats a table row; a tail line closes it. */
  function AddLine(env: Env, s: Scan, idx: nat, line: Line): (r: Scan)
    requires env.width > 0.0 && Strip(line.text) != []
    ensures r.pending == s.pending && r.matched == s.matched
  {
    var temp := if Strip(line.text) in env.rowTexts then s.temp else s.temp + [line];
    if IsParaTail(env.width, line, idx, env.total) then s.(temp := [], paras := s.paras + [temp])
    else s.(temp := temp)
  }

  /**
   * A line equal to a pending table's header closes the open paragraph (even an empty
   * one), matches that table, and drops the HEAD of the pending list, which is the
   * matched table only when it was the first one pending.
   */
  function MatchHeader(s: Scan, line: Line): Scan
    requires TablesHaveHeaders(s.pending)
  {
    match FirstHeaderMatch(s.pending, Strip(line.text))
    case None => s
    case Some(m) => Scan([], s.paras + [s.temp], s.pending[1..], s.matched + [(s.pending[m], line)])
  }

  /** One round of the line loop. */
  function Step(env: Env, s: Scan, idx: nat, line: Line): Scan
    requires env.width > 0.0 && Strip(line.text) != []
    requires TablesHaveHeaders(s.pending)
  {
    MatchHeader(AddLine(env, s, idx, line), line)
  }

  /**
   * What holds after the first `n` lines: every match consumed one pending table from
   * the front (the pending list is the page's tables less as many leading ones as
   * tables were matched), whatever was built comes from the page, and the closed
   * paragraphs followed by the open one hold exactly the lines read so far that do
   * not repeat a table row.
   */
  predicate ScanInv(env: Env, lines: seq<Line>, tables: seq<TableRows>, n: nat, s: Scan)
    requires n <= |lines|
  {
    |s.matched| <= |tables| && s.pending == tables[|s.matched|..] && ScanOk(s)
    && Flatten(s.paras) + s.temp == KeptLines(lines[..n], env.rowTexts)
  }

  /** The state after the first `n` lines. */
  function ScanUpTo(env: Env, lines: seq<Line>, tables: seq<TableRows>, n: nat): (s: Scan)
    requires env.width > 0.0 && LinesOk(lines) && TablesHaveHeaders(tables) && n <= |lines|
    ensures ScanInv(env, lines, tables, n, s)
  {
    if n == 0 then Scan([], [], tables, [])
    else
      var s := ScanUpTo(env, lines, tables, n - 1);
      StepInv(env, lines, tables, n, s);
      Step(env, s, n - 1, lines[n - 1])
  }

  function PageScan(p: PdfPage): Scan
    requires WellFormed(p)
  {
    ScanUpTo(EnvOf(p), p.lines, TablesOf(p.tables), |p.lines|)
  }

  /** The paragraphs after the loop: the open one is closed if it holds any line. */
  function FinalParas(s: Scan): seq<seq<Line>> {
    if |s.temp| > 0 then s.paras + [s.temp] else s.paras
  }

  /** Whatever the loop builds comes from the page: its lines have characters, its tables headers. */
  predicate ScanOk(s: Scan) {
    Anchored(s.paras) && (s.temp != [] ==> s.temp[0].chars != []) && MatchesOk(s.matched)
  }

  lemma AnchoredAppend(paras: seq<seq<Line>>, t: seq<Line>)
    requires Anchored(paras) && (t != [] ==> t[0].chars != [])
    ensures Anchored(paras + [t])
  {
    assert forall k :: 0 <= k < |paras| ==> (paras + [t])[k] == paras[k];
  }

  lemma MatchesOkAppend(matched: seq<(TableRows, Line)>, t: TableRows, line: Line)
    requires MatchesOk(matched) && t != [] && t[0] != [] && line.chars != []
    ensures MatchesOk(matched + [(t, line)])
  {
    assert forall k :: 0 <= k < |matched| ==> (matched + [(t, line)])[k] == matched[k];
  }

  lemma AddLineOk(env: Env, s: Scan, idx: nat, line: Line)
    requires env.width > 0.0 && Strip(line.text) != [] && line.chars != []
    requires ScanOk(s)
    ensures ScanOk(AddLine(env, s, idx, line))
  {
    var temp := if Strip(line.text) in env.rowTexts then s.temp else s.temp + [line];
    assert temp != [] ==> temp[0].chars != [];
    if IsParaTail(env.width, line, idx, env.total) {
      AnchoredAppend(s.paras, temp);
      assert AddLine(env, s, idx, line) == s.(temp := [], paras := s.paras + [temp]);
    } else {
      assert AddLine(env, s, idx, line) == s.(temp := temp);
    }
  }

  lemma MatchHeaderOk(s: Scan, line: Line)
    requires line.chars != [] && TablesHaveHeaders(s.pending) && ScanOk(s)
    ensures ScanOk(MatchHeader(s, line))
  {
    match FirstHeaderMatch(s.pending, Strip(line.text))
    case None =>
    case Some(m) =>
      AnchoredAppend(s.paras, s.temp);
      MatchesOkAppend(s.matched, s.pending[m], line);
  }

  /** A round consumes a pending table exactly when it matches one. */
  lemma StepPending(env: Env, tables: seq<TableRows>, s: Scan, idx: nat, line: Line)
    requires env.width > 0.0 && Strip(line.text) != [] && TablesHaveHeaders(tables)
    requires |s.matched| <= |tables| && s.pending == tables[|s.matched|..]
    ensures var s' := Step(env, s, idx, line); |s'.matched| <= |tables| && s'.pending == tables[|s'.matched|..]
  {
    var a := AddLine(env, s, idx, line);
    assert a.pending == s.pending && a.matched == s.matched;
    match FirstHeaderMatch(a.pending, Strip(line.text))
    case None =>
    case Some(m) =>
      assert tables[|s.matched| + 1..] == s.pending[1..];
  }

  lemma StepInv(env: Env, lines: seq<Line>, tables: seq<TableRows>, n: nat, s: Scan)
    requires env.width > 0.0 && LinesOk(lines) && TablesHaveHeaders(tables) && 0 < n <= |lines|
    requires ScanInv(env, lines, tables, n - 1, s)
    ensures TablesHaveHeaders(s.pending)
    ensures ScanInv(env, lines, tables, n, Step(env, s, n - 1, lines[n - 1]))
  {
    var line := lines[n - 1];
    StepPending(env, tables, s, n - 1, line);
    AddLineOk(env, s, n - 1, line);
    MatchHeaderOk(AddLine(env, s, n - 1, line), line);
    StepKeeps(env, s, n - 1, line);
    KeptLinesSnoc(lines, n, env.rowTexts);
  }

  lemma FinalParasAnchored(s: Scan)
    requires ScanOk(s)
    ensures Anchored(FinalParas(s))
  {
  }

  /** The blocks in creation order: tables, then paragraphs, then images. */
  function Unsorted(p: PdfPage): seq<Block>
    requires WellFormed(p)
  {
    var env, s := EnvOf(p), PageScan(p);
    FinalParasAnchored(s);
    TableBlocks(s.matched, env) + TextBlocks(FinalParas(s), env) + Map(p.images, ImageBlock)
  }

  function TopY(b: Block): real { b.topY }

  /** `_new_parser_pdf_page`: the blocks sorted by anchor, top of the page first, and the margins. */
  function PageSpec(p: PdfPage): PageValue
    requires WellFormed(p)
  {
    PageValue(SortDesc(Unsorted(p), TopY), Some(MarginsOf(p)))
  }

  // ---------------------------------------------------------------- properties

  /** Every line, in order. */
  function Flatten(paras: seq<seq<Line>>): seq<Line> {
    if paras == [] then [] else Flatten(paras[..|paras| - 1]) + paras[|paras| - 1]
  }

  /** The lines that do not repeat a table row, in order. */
  function KeptLines(lines: seq<Line>, rows: seq<string>): (r: seq<Line>)
    ensures forall l :: l in r <==> l in lines && Strip(l.text) !in rows
  {
    if lines == [] then []
    else
      var l := lines[|lines| - 1];
      var init := lines[..|lines| - 1];
      assert lines == init + [l];
      KeptLines(init, rows) + (if Strip(l.text) in rows then [] else [l])
  }

  lemma FlattenAppend(paras: seq<seq<Line>>, t: seq<Line>)
    ensures Flatten(paras + [t]) == Flatten(paras) + t
  {
    assert (paras + [t])[..|paras|] == paras;
  }

  /** A line adds itself to the paragraphs unless it repeats a table row. */
  lemma AddLineKeeps(env: Env, s: Scan, idx: nat, line: Line)
    requires env.width > 0.0 && Strip(line.text) != []
    ensures var s' := AddLine(env, s, idx, line);
      Flatten(s'.paras) + s'.temp
      == Flatten(s.paras) + s.temp + (if Strip(line.text) in env.rowTexts then [] else [line])
  {
    var temp := if Strip(line.text) in env.rowTexts then s.temp else s.temp + [line];
    assert temp == s.temp + (if Strip(line.text) in env.rowTexts then [] else [line]);
    if IsParaTail(env.width, line, idx, env.total) {
      FlattenAppend(s.paras, temp);
      assert AddLine(env, s, idx, line) == s.(temp := [], paras := s.paras + [temp]);
    } else {
      assert AddLine(env, s, idx, line) == s.(temp := temp);
    }
  }

  /** A header line moves no paragraph line. */
  lemma MatchHeaderKeeps(s: Scan, line: Line)
    requires TablesHaveHeaders(s.pending)
    ensures Flatten(MatchHeader(s, line).paras) + MatchHeader(s, line).temp == Flatten(s.paras) + s.temp
  {
    FlattenAppend(s.paras, s.temp);
  }

  /** A round adds its line to the paragraphs unless the line repeats a table row. */
  lemma StepKeeps(env: Env, s: Scan, idx: nat, line: Line)
    requires env.width > 0.0 && Strip(line.text) != [] && TablesHaveHeaders(s.pending)
    ensures var s' := Step(env, s, idx, line);
      Flatten(s'.paras) + s'.temp
      == Flatten(s.paras) + s.temp + (if Strip(line.text) in env.rowTexts then [] else [line])
  {
    AddLineKeeps(env, s, idx, line);
    MatchHeaderKeeps(AddLine(env, s, idx, line), line);
  }

  lemma KeptLinesSnoc(lines: seq<Line>, n: nat, rows: seq<string>)
    requires 0 < n <= |lines|
    ensures KeptLines(lines[..n], rows)
      == KeptLines(lines[..n - 1], rows) + (if Strip(lines[n - 1].text) in rows then [] else [lines[n - 1]])
  {
    assert lines[..n][..n - 1] == lines[..n - 1];
  }

  /**
   * The paragraphs of a page hold exactly its lines that repeat no table row, in
   * order: a line equal to a space-joined table row never reaches a paragraph, and
   * every other line reaches exactly one.
   */
  lemma ParagraphsKeepLines(p: PdfPage)
    requires WellFormed(p)
    ensures Flatten(FinalParas(PageScan(p))) == KeptLines(p.lines, RowTexts(TablesOf(p.tables)))
  {
    var s := PageScan(p);
    assert p.lines[..|p.lines|] == p.lines;
    if |s.temp| > 0 {
      FlattenAppend(s.paras, s.temp);
    }
  }

  /**
   * The pending-list quirk: a line matching the SECOND pending table matches that
   * table but drops the FIRST one, so the matched table stays pending.
   */
  lemma MatchDropsHead(s: Scan, line: Line)
    requires TablesHaveHeaders(s.pending) && |s.pending| >= 2
    requires HeaderText(s.pending[0]) != Strip(line.text) && HeaderText(s.pending[1]) == Strip(line.text)
    ensures MatchHeader(s, line).pending == s.pending[1..]
    ensures MatchHeader(s, line).matched == s.matched + [(s.pending[1], line)]
  {
    assert FirstHeaderMatch(s.pending[1..], Strip(line.text)) == Some(0);
  }

  /**
   * A header line closes the open paragraph and matches exactly one table (the first
   * pending one with that header); any other line changes no table state.
   */
  lemma MatchHeaderRule(s: Scan, line: Line)
    requires TablesHaveHeaders(s.pending)
    ensures var s' := MatchHeader(s, line);
      (exists j :: 0 <= j < |s.pending| && HeaderText(s.pending[j]) == Strip(line.text)) ==>
        s'.temp == [] && s'.paras == s.paras + [s.temp] && |s'.matched| == |s.matched| + 1
        && s'.pending == s.pending[1..]
    ensures var s' := MatchHeader(s, line);
      (forall j :: 0 <= j < |s.pending| ==> HeaderText(s.pending[j]) != Strip(line.text)) ==> s' == s
  {
  }

  /**
   * The page's blocks are in non-increasing anchor order, are a permutation of the
   * blocks as created, and blocks with equal anchors keep their creation order.
   */
  lemma PageBlocksOrdered(p: PdfPage, k: real)
    requires WellFormed(p)
    ensures SortedDesc(PageSpec(p).blocks, TopY)
    ensures multiset(PageSpec(p).blocks) == multiset(Unsorted(p))
    ensures WithKey(PageSpec(p).blocks, TopY, k) == WithKey(Unsorted(p), TopY, k)
  {
    SortDescSorted(Unsorted(p), TopY);
    SortDescPermutes(Unsorted(p), TopY);
    SortDescStable(Unsorted(p), TopY, k);
  }

  /** Every block is consistent, carries the attributes the parser assigns, and is of the given kind. */
  predicate AllOfKind(bs: seq<Block>, kind: ContentType) {
    forall k :: 0 <= k < |bs| ==> Consistent(bs[k]) && Assigned(bs[k]) && bs[k].kind == kind
  }

  lemma AllOfKindAppend(a: seq<Block>, b: seq<Block>, kind: ContentType)
    requires AllOfKind(a, kind) && AllOfKind(b, kind)
    ensures AllOfKind(a + b, kind)
  {
    forall k | 0 <= k < |a + b| ensures Consistent((a + b)[k]) && Assigned((a + b)[k]) && (a + b)[k].kind == kind {
      if k >= |a| {
        assert (a + b)[k] == b[k - |a|];
      }
    }
  }

  lemma AllOfKindSnoc(a: seq<Block>, b: Block, kind: ContentType)
    requires AllOfKind(a, kind) && Consistent(b) && Assigned(b) && b.kind == kind
    ensures AllOfKind(a + [b], kind)
  {
    forall k | 0 <= k < |a| + 1 ensures Consistent((a + [b])[k]) && Assigned((a + [b])[k]) && (a + [b])[k].kind == kind {
      if k == |a| {
        assert (a + [b])[k] == b;
      } else {
        assert (a + [b])[k] == a[k];
      }
    }
  }

  lemma TextBlockConsistent(para: seq<Line>, env: Env)
    requires para != [] && para[0].chars != []
    ensures Consistent(TextBlock(para, env)) && Assigned(TextBlock(para, env)) && TextBlock(para, env).kind == ContentType.Text
  {
  }

  lemma {:induction false} TableBlocksConsistent(matched: seq<(TableRows, Line)>, env: Env)
    requires MatchesOk(matched)
    ensures AllOfKind(TableBlocks(matched, env), ContentType.Table)
  {
    if matched != [] {
      var init := matched[..|matched| - 1];
      var m := matched[|matched| - 1];
      TableBlocksConsistent(init, env);
      AllOfKindSnoc(TableBlocks(init, env), TableBlock(m.0, m.1, env), ContentType.Table);
    }
  }

  lemma ImageBlocksConsistent(images: seq<ImageRecord>)
    ensures AllOfKind(Map(images, ImageBlock), ContentType.Image)
  {
  }

  lemma ConcatConsistent(tb: seq<Block>, xb: seq<Block>, ib: seq<Block>)
    requires AllOfKind(tb, ContentType.Table) && AllOfKind(xb, ContentType.Text) && AllOfKind(ib, ContentType.Image)
    ensures forall b :: b in tb + xb + ib ==> Consistent(b) && Assigned(b)
  {
    forall b | b in tb + xb + ib ensures Consistent(b) && Assigned(b) {
      if b in tb {
        var k :| 0 <= k < |tb| && tb[k] == b;
      } else if b in xb {
        var k :| 0 <= k < |xb| && xb[k] == b;
      } else {
        var k :| 0 <= k < |ib| && ib[k] == b;
      }
    }
  }

  /** The blocks as created: the table blocks, then the text blocks, then the image blocks. */
  lemma UnsortedConsistent(p: PdfPage)
    requires WellFormed(p)
    ensures forall b :: b in Unsorted(p) ==> Consistent(b) && Assigned(b)
  {
    var env, s := EnvOf(p), PageScan(p);
    FinalParasAnchored(s);
    TableBlocksConsistent(s.matched, env);
    ImageBlocksConsistent(p.images);
    ConcatConsistent(TableBlocks(s.matched, env), TextBlocks(FinalParas(s), env), Map(p.images, ImageBlock));
  }

  /**
   * Every block the extractor builds is consistent: untranslated text and table
   * blocks holding a string and a rectangular grid, and translated image blocks. Each
   * also carries the attributes the extractor assigns (`leading`, `first_line_offset`
   * and `text_color` of a text block, `col_widths` of a table block).
   */
  lemma PageBlocksConsistent(p: PdfPage)
    requires WellFormed(p)
    ensures forall b :: b in PageSpec(p).blocks ==> Consistent(b)
    ensures forall k :: 0 <= k < |PageSpec(p).blocks| ==> Consistent(PageSpec(p).blocks[k])
    ensures forall k :: 0 <= k < |PageSpec(p).blocks| ==> Assigned(PageSpec(p).blocks[k])
  {
    UnsortedConsistent(p);
    var bs := PageSpec(p).blocks;
    SortDescPermutes(Unsorted(p), TopY);
    forall b | b in bs ensures Consistent(b) && Assigned(b) {
      assert b in multiset(Unsorted(p));
    }
    forall k | 0 <= k < |bs| ensures Consistent(bs[k]) && Assigned(bs[k]) {
      assert bs[k] in bs;
    }
  }

  // ---------------------------------------------------------------- the objects

  /** The attribute snapshots of a list of blocks. */
  function Views(cs: seq<Content>): (bs: seq<Block>)
    reads cs
    ensures |bs| == |cs| && forall i :: 0 <= i < |cs| ==> bs[i] == cs[i].View()
  {
    seq(|cs|, i reads cs requires 0 <= i < |cs| => cs[i].View())
  }

  predicate Unaliased(cs: seq<Content>) {
    forall i, j :: 0 <= i < j < |cs| ==> cs[i] != cs[j]
  }

  /** `TableContent([table])` with its anchor and column widths assigned. */
  method NewTableContent(t: TableRows, line: Line, env: Env) returns (c: Content)
    requires t != [] && t[0] != [] && line.chars != []
    ensures fresh(c) && c.View() == TableBlock(t, line, env)
  {
    var data := [TableCells(t)];
    assert MaxWidth(data) == |data[0]|;
    var r := Content.NewTable(data);
    c := r.value;
    c.topY := line.chars[0].y0;
    c.colWidths := Some(ColWidths(env.right - env.left, |t[0]|));
  }

  /** The first pending table whose header is `text`: the inner `for table in tables ... break`. */
  method FindHeader(pending: seq<TableRows>, text: string) returns (m: Option<nat>)
    requires TablesHaveHeaders(pending)
    ensures m == FirstHeaderMatch(pending, text)
  {
    var k := 0;
    while k < |pending|
      invariant k <= |pending|
      invariant forall j :: 0 <= j < k ==> HeaderText(pending[j]) != text
    {
      if text == HeaderText(pending[k]) {
        return Some(k);
      }
      k := k + 1;
    }
    return None;
  }

  lemma TableBlocksSnoc(matched: seq<(TableRows, Line)>, t: TableRows, line: Line, env: Env)
    requires MatchesOk(matched) && t != [] && t[0] != [] && line.chars != []
    ensures MatchesOk(matched + [(t, line)])
    ensures TableBlocks(matched + [(t, line)], env) == TableBlocks(matched, env) + [TableBlock(t, line, env)]
  {
    MatchesOkAppend(matched, t, line);
    assert (matched + [(t, line)])[..|matched|] == matched;
  }

  /** A matched table's block appended to the blocks built so far. */
  method AddTableContent(env: Env, t: TableRows, line: Line, ghost matched: seq<(TableRows, Line)>, contents: seq<Content>)
      returns (contents': seq<Content>)
    requires MatchesOk(matched) && t != [] && t[0] != [] && line.chars != []
    requires Views(contents) == TableBlocks(matched, env) && Unaliased(contents)
    ensures MatchesOk(matched + [(t, line)])
    ensures Views(contents') == TableBlocks(matched + [(t, line)], env) && Unaliased(contents')
    ensures |contents'| == |contents| + 1 && forall k :: 0 <= k < |contents| ==> contents'[k] == contents[k]
    ensures forall k :: |contents| <= k < |contents'| ==> fresh(contents'[k])
  {
    var tc := NewTableContent(t, line, env);
    TableBlocksSnoc(matched, t, line, env);
    ViewsSnoc(contents, tc);
    UnaliasedSnoc(contents, tc);
    contents' := contents + [tc];
  }

  /** The inner table loop for one line: a table block when the line is a pending header. */
  method MatchLine(env: Env, line: Line, temp: seq<Line>, paras: seq<seq<Line>>,
                   pending: seq<TableRows>, ghost matched: seq<(TableRows, Line)>, contents: seq<Content>)
      returns (temp': seq<Line>, paras': seq<seq<Line>>, pending': seq<TableRows>,
               ghost matched': seq<(TableRows, Line)>, contents': seq<Content>)
    requires line.chars != [] && TablesHaveHeaders(pending) && MatchesOk(matched)
    requires Views(contents) == TableBlocks(matched, env) && Unaliased(contents)
    ensures Scan(temp', paras', pending', matched') == MatchHeader(Scan(temp, paras, pending, matched), line)
    ensures MatchesOk(matched') && Views(contents') == TableBlocks(matched', env) && Unaliased(contents')
    ensures |contents| <= |contents'| && forall k :: 0 <= k < |contents| ==> contents'[k] == contents[k]
    ensures forall k :: |contents| <= k < |contents'| ==> fresh(contents'[k])
  {
    temp', paras', pending', matched', contents' := temp, paras, pending, matched, contents;
    ghost var s := Scan(temp, paras, pending, matched);
    var m := FindHeader(pending, Strip(line.text));
    if m.Some? {
      var t := pending[m.value];
      contents' := AddTableContent(env, t, line, matched, contents);
      temp', paras', pending', matched' := [], paras + [temp], pending[1..], matched + [(t, line)];
      assert MatchHeader(s, line) == Scan(temp', paras', pending', matched');
    } else {
      assert MatchHeader(s, line) == s;
    }
  }

  /** The paragraph part of the line loop's body: keep the line unless it repeats a table row, close at a tail. */
  method AddLineToParagraph(env: Env, idx: nat, line: Line, temp: seq<Line>, paras: seq<seq<Line>>)
      returns (temp': seq<Line>, paras': seq<seq<Line>>)
    requires env.width > 0.0 && Strip(line.text) != []
    ensures forall pending, matched ::
      (Scan(temp', paras', pending, matched) == AddLine(env, Scan(temp, paras, pending, matched), idx, line))
  {
    temp', paras' := temp, paras;
    if Strip(line.text) !in env.rowTexts {
      temp' := temp' + [line];
    }
    if IsParaTail(env.width, line, idx, env.total) {
      paras' := paras' + [temp'];
      temp' := [];
    }
  }

  /** One round of the line loop: the paragraph part, then the table part. */
  method ScanLine(env: Env, lines: seq<Line>, tables: seq<TableRows>, idx: nat,
                  temp: seq<Line>, paras: seq<seq<Line>>, pending: seq<TableRows>,
                  ghost matched: seq<(TableRows, Line)>, contents: seq<Content>)
      returns (temp': seq<Line>, paras': seq<seq<Line>>, pending': seq<TableRows>,
               ghost matched': seq<(TableRows, Line)>, contents': seq<Content>)
    requires env.width > 0.0 && LinesOk(lines) && TablesHaveHeaders(tables) && idx < |lines|
    requires Scan(temp, paras, pending, matched) == ScanUpTo(env, lines, tables, idx)
    requires Views(contents) == TableBlocks(matched, env) && Unaliased(contents)
    ensures Scan(temp', paras', pending', matched') == ScanUpTo(env, lines, tables, idx + 1)
    ensures MatchesOk(matched') && Views(contents') == TableBlocks(matched', env) && Unaliased(contents')
    ensures |contents| <= |contents'| && forall k :: 0 <= k < |contents| ==> contents'[k] == contents[k]
    ensures forall k :: |contents| <= k < |contents'| ==> fresh(contents'[k])
  {
    var line := lines[idx];
    assert line.chars != [] && Strip(line.text) != [];
    var t0, p0 := AddLineToParagraph(env, idx, line, temp, paras);
    ghost var s0 := AddLine(env, Scan(temp, paras, pending, matched), idx, line);
    assert Scan(t0, p0, pending, matched) == s0;
    temp', paras', pending', matched', contents' := MatchLine(env, line, t0, p0, pending, matched, contents);
  }

  /** The line loop of `_new_parser_pdf_page`, then the flush of the open paragraph. */
  method ScanLines(env: Env, lines: seq<Line>, tables: seq<TableRows>)
      returns (paras: seq<seq<Line>>, contents: seq<Content>)
    requires env.width > 0.0 && LinesOk(lines) && TablesHaveHeaders(tables)
    ensures var s := ScanUpTo(env, lines, tables, |lines|);
      paras == FinalParas(s) && Anchored(paras) && Views(contents) == TableBlocks(s.matched, env)
    ensures forall k :: 0 <= k < |contents| ==> fresh(contents[k])
    ensures Unaliased(contents)
  {
    var temp, pending;
    temp, paras, pending, contents := [], [], tables, [];
    ghost var matched: seq<(TableRows, Line)> := [];
    for idx := 0 to |lines|
      invariant Scan(temp, paras, pending, matched) == ScanUpTo(env, lines, tables, idx)
      invariant MatchesOk(matched) && Views(contents) == TableBlocks(matched, env)
      invariant Unaliased(contents)
      invariant forall k :: 0 <= k < |contents| ==> fresh(contents[k])
    {
      temp, paras, pending, matched, contents := ScanLine(env, lines, tables, idx, temp, paras, pending, matched, contents);
    }
    FinalParasAnchored(Scan(temp, paras, pending, matched));
    if |temp| > 0 {
      paras := paras + [temp];
    }
  }

  /** A paragraph's text block with its attributes assigned. */
  method NewTextContent(para: seq<Line>, env: Env) returns (c: Content)
    requires para != [] && para[0].chars != []
    ensures fresh(c) && c.View() == TextBlock(para, env)
  {
    var b := TextBlock(para, env);
    c := new Content(ContentType.Text, b.original, NoneValue);
    c.fontSize := b.fontSize;
    c.isBold := b.isBold;
    c.leading := b.leading;
    c.firstLineOffset := b.firstLineOffset;
    c.textColor := b.textColor;
    c.topY := b.topY;
  }

  lemma ViewsSnoc(cs: seq<Content>, c: Content)
    ensures Views(cs + [c]) == Views(cs) + [c.View()]
  {
  }

  lemma UnaliasedSnoc(cs: seq<Content>, c: Content)
    requires Unaliased(cs) && c !in cs
    ensures Unaliased(cs + [c])
  {
  }

  lemma UnaliasedAppend(a: seq<Content>, b: seq<Content>)
    requires Unaliased(a) && Unaliased(b)
    requires forall i, j :: 0 <= i < |a| && 0 <= j < |b| ==> a[i] != b[j]
    ensures Unaliased(a + b)
  {
    forall i, j | 0 <= i < j < |a + b| ensures (a + b)[i] != (a + b)[j] {
      if j >= |a| && i < |a| {
        assert (a + b)[i] == a[i] && (a + b)[j] == b[j - |a|];
      }
    }
  }

  /** One round of the paragraph loop: a text block for the paragraph at `i` unless it is empty. */
  method AddTextContent(paras: seq<seq<Line>>, i: nat, env: Env, contents: seq<Content>) returns (contents': seq<Content>)
    requires Anchored(paras) && i < |paras|
    requires Views(contents) == TextBlocksUpTo(paras, env, i) && Unaliased(contents)
    ensures Views(contents') == TextBlocksUpTo(paras, env, i + 1) && Unaliased(contents')
    ensures |contents| <= |contents'| && forall k :: 0 <= k < |contents| ==> contents'[k] == contents[k]
    ensures forall k :: |contents| <= k < |contents'| ==> fresh(contents'[k])
  {
    contents' := contents;
    if paras[i] != [] {
      var tc := NewTextContent(paras[i], env);
      ViewsSnoc(contents, tc);
      UnaliasedSnoc(contents, tc);
      contents' := contents + [tc];
    }
  }

  /** The paragraph loop: one text block per non-empty paragraph. */
  method MakeTextContents(paras: seq<seq<Line>>, env: Env) returns (contents: seq<Content>)
    requires Anchored(paras)
    ensures Views(contents) == TextBlocks(paras, env)
    ensures forall k :: 0 <= k < |contents| ==> fresh(contents[k])
    ensures Unaliased(contents)
  {
    contents := [];
    for i := 0 to |paras|
      invariant Views(contents) == TextBlocksUpTo(paras, env, i)
      invariant forall k :: 0 <= k < |contents| ==> fresh(contents[k])
      invariant Unaliased(contents)
    {
      contents := AddTextContent(paras, i, env, contents);
    }
  }

  /** One round of the image loop: an image block anchored at the image's `y0`. */
  method AddImageContent(images: seq<ImageRecord>, i: nat, contents: seq<Content>) returns (contents': seq<Content>)
    requires i < |images|
    requires Views(contents) == Map(images[..i], ImageBlock) && Unaliased(contents)
    ensures Views(contents') == Map(images[..i + 1], ImageBlock) && Unaliased(contents')
    ensures |contents'| == |contents| + 1 && forall k :: 0 <= k < |contents| ==> contents'[k] == contents[k]
    ensures fresh(contents'[|contents|])
  {
    var ic := new Content.Image(images[i]);
    ic.topY := images[i].y0;
    ViewsSnoc(contents, ic);
    UnaliasedSnoc(contents, ic);
    assert Map(images[..i + 1], ImageBlock) == Map(images[..i], ImageBlock) + [ImageBlock(images[i])];
    contents' := contents + [ic];
  }

  /** The image loop: one image block per image. */
  method MakeImageContents(images: seq<ImageRecord>) returns (contents: seq<Content>)
    ensures Views(contents) == Map(images, ImageBlock)
    ensures forall k :: 0 <= k < |contents| ==> fresh(contents[k])
    ensures Unaliased(contents)
  {
    contents := [];
    for i := 0 to |images|
      invariant Views(contents) == Map(images[..i], ImageBlock)
      invariant forall k :: 0 <= k < |contents| ==> fresh(contents[k])
      invariant Unaliased(contents)
    {
      contents := AddImageContent(images, i, contents);
    }
    assert images[..|images|] == images;
  }

  function PairTopY(pr: (Block, Content)): real { pr.0.topY }
  function PairBlock(pr: (Block, Content)): Block { pr.0 }
  function PairContent(pr: (Block, Content)): Content { pr.1 }

  /** `contents.sort(key=lambda x: x.top_y, reverse=True)`. */
  method SortByTopY(cs: seq<Content>) returns (sorted: seq<Content>)
    requires Unaliased(cs)
    ensures Views(sorted) == SortDesc(Views(cs), TopY)
    ensures |sorted| == |cs| && forall k :: 0 <= k < |sorted| ==> sorted[k] in cs
    ensures Unaliased(sorted)
  {
    var pairs := seq(|cs|, i reads cs requires 0 <= i < |cs| => (cs[i].View(), cs[i]));
    var sortedPairs := SortDesc(pairs, PairTopY);
    sorted := Map(sortedPairs, PairContent);
    SortDescMap(pairs, PairTopY, PairBlock, TopY);
    SortDescPermutes(pairs, PairTopY);
    SortDescDistinct(pairs, PairTopY, PairContent);
    assert Map(pairs, PairBlock) == Views(cs);
    forall i | 0 <= i < |sorted| ensures sorted[i].View() == sortedPairs[i].0 && sorted[i] in cs {
      assert sortedPairs[i] in multiset(pairs);
    }
  }

  lemma ViewsAppend(a: seq<Content>, b: seq<Content>)
    ensures Views(a + b) == Views(a) + Views(b)
  {
  }

  /** The three lists joined: snapshots join, and lists with no object in common join without aliasing. */
  lemma Join3(a: seq<Content>, b: seq<Content>, c: seq<Content>)
    requires Unaliased(a) && Unaliased(b) && Unaliased(c)
    requires forall i, j :: 0 <= i < |a| && 0 <= j < |b| ==> a[i] != b[j]
    requires forall i, j :: 0 <= i < |a| && 0 <= j < |c| ==> a[i] != c[j]
    requires forall i, j :: 0 <= i < |b| && 0 <= j < |c| ==> b[i] != c[j]
    ensures Views(a + b + c) == Views(a) + Views(b) + Views(c)
    ensures Unaliased(a + b + c)
    ensures forall k :: |a| <= k < |a| + |b| ==> (a + b + c)[k] == b[k - |a|]
    ensures forall k :: |a| + |b| <= k < |a + b + c| ==> (a + b + c)[k] == c[k - |a| - |b|]
  {
    UnaliasedAppend(a, b);
    forall i, j | 0 <= i < |a + b| && 0 <= j < |c| ensures (a + b)[i] != c[j] {
      if i >= |a| {
        assert (a + b)[i] == b[i - |a|];
      }
    }
    UnaliasedAppend(a + b, c);
    ViewsAppend(a, b);
    ViewsAppend(a + b, c);
  }

  /** The paragraph loop, then the image loop, appending to the table blocks. */
  method MakeBlockContents(tableContents: seq<Content>, paras: seq<seq<Line>>, env: Env, images: seq<ImageRecord>)
      returns (contents: seq<Content>)
    requires Anchored(paras) && Unaliased(tableContents)
    ensures Views(contents) == Views(tableContents) + TextBlocks(paras, env) + Map(images, ImageBlock)
    ensures |tableContents| <= |contents| && forall k :: 0 <= k < |tableContents| ==> contents[k] == tableContents[k]
    ensures forall k :: |tableContents| <= k < |contents| ==> fresh(contents[k])
    ensures Unaliased(contents)
  {
    var textContents := MakeTextContents(paras, env);
    var imageContents := MakeImageContents(images);
    Join3(tableContents, textContents, imageContents);
    contents := tableContents + textContents + imageContents;
  }

  /** The blocks of the three loops, in creation order. */
  method CollectContents(p: PdfPage, rowTexts: seq<string>) returns (contents: seq<Content>)
    requires WellFormed(p) && rowTexts == RowTexts(TablesOf(p.tables))
    ensures Views(contents) == Unsorted(p)
    ensures forall k :: 0 <= k < |contents| ==> fresh(contents[k])
    ensures Unaliased(contents)
  {
    var env := Env(p.width, |p.lines|, rowTexts, AllLeft(p.lines), AllRight(p.width, p.lines));
    assert env == EnvOf(p);
    var paras, tableContents := ScanLines(env, p.lines, TablesOf(p.tables));
    contents := MakeBlockContents(tableContents, paras, env, p.images);
  }

  /** The blocks of a page, sorted by anchor with the top of the page first. */
  method SortedContents(p: PdfPage, rowTexts: seq<string>) returns (sorted: seq<Content>)
    requires WellFormed(p) && rowTexts == RowTexts(TablesOf(p.tables))
    ensures Views(sorted) == SortDesc(Unsorted(p), TopY)
    ensures forall k :: 0 <= k < |sorted| ==> fresh(sorted[k])
    ensures Unaliased(sorted)
  {
    var contents := CollectContents(p, rowTexts);
    sorted := SortByTopY(contents);
    forall k | 0 <= k < |sorted| ensures fresh(sorted[k]) {
      var j :| 0 <= j < |contents| && contents[j] == sorted[k];
    }
  }

  /** A fresh page holding `contents` (whose snapshots are `blocks`) and the given margins. */
  method NewPage(contents: seq<Content>, ghost blocks: seq<Block>, margins: Margins) returns (page: Page)
    requires Views(contents) == blocks
    ensures fresh(page) && page.contents == contents && page.View() == PageValue(blocks, Some(margins))
  {
    page := new Page();
    page.margins := Some(margins);
    page.contents := contents;
    assert page.Blocks() == Views(contents);
  }

  /**
   * What `_new_parser_pdf_page` gives: the `TypeError` of the row loop when a table
   * cell is `None`, or else the page's blocks and margins.
   */
  function PageResult(p: PdfPage): Result<PageValue, Error>
    requires Shaped(p)
  {
    match AllOk(Map(Rows(p.tables), JoinCells))
    case Err(e) => Err(e)
    case Ok(_) => RowTextsJoined(p.tables); Ok(PageSpec(p))
  }

  /**
   * `_new_parser_pdf_page`: raises when a table cell is `None`; otherwise a fresh page
   * whose blocks are fresh, distinct objects.
   */
  method ParsePdfPage(p: PdfPage) returns (r: Result<Page, Error>)
    requires Shaped(p)
    ensures r.Err? <==> !CellsPresent(p.tables)
    ensures r.Err? ==> PageResult(p) == Err(r.error)
    ensures r.Ok? ==> fresh(r.value) && PageResult(p) == Ok(r.value.View())
    ensures r.Ok? ==> Unaliased(r.value.contents)
    ensures r.Ok? ==> forall k :: 0 <= k < |r.value.contents| ==> fresh(r.value.contents[k])
  {
    var rowTexts := CollectRowTexts(p.tables);
    RowTextsJoined(p.tables);
    if rowTexts.Err? {
      return Err(rowTexts.error);
    }
    var sorted := SortedContents(p, rowTexts.value);
    var page := NewPage(sorted, SortDesc(Unsorted(p), TopY), MarginsOf(p));
    return Ok(page);
  }

  /** `pdf.pages[:n]`: a prefix, of length `n` when `0 <= n <= |xs|`, counted from the end when `n < 0`. */
  function SliceTo<T>(xs: seq<T>, n: int): (r: seq<T>)
    ensures |r| <= |xs| && r == xs[..|r|]
    ensures 0 <= n <= |xs| ==> |r| == n
    ensures n > |xs| ==> r == xs
    ensures n < 0 ==> |r| == if |xs| + n >= 0 then |xs| + n else 0
  {
    if n >= 0 then (if n <= |xs| then xs[..n] else xs)
    else if |xs| + n >= 0 then xs[..|xs| + n] else []
  }

  /** The pages `parser_pdf` parses: all of them, or the first `pages`. */
  function Selected(pdf: seq<PdfPage>, pages: Option<int>): (r: seq<PdfPage>)
    ensures |r| <= |pdf| && r == pdf[..|r|]
  {
    if pages.None? then pdf else SliceTo(pdf, pages.value)
  }

  predicate AllShaped(pdf: seq<PdfPage>) {
    forall k :: 0 <= k < |pdf| ==> Shaped(pdf[k])
  }

  /** More pages are asked for than the file has. */
  predicate TooMany(pdf: seq<PdfPage>, pages: Option<int>) {
    pages.Some? && pages.value > |pdf|
  }

  /** What `parser_pdf` relies on: every page it goes on to parse is shaped. */
  predicate Parsable(pdf: seq<PdfPage>, pages: Option<int>) {
    !TooMany(pdf, pages) ==> AllShaped(Selected(pdf, pages))
  }

  function PageResults(pdf: seq<PdfPage>): (rs: seq<Result<PageValue, Error>>)
    requires AllShaped(pdf)
    ensures |rs| == |pdf| && forall k :: 0 <= k < |pdf| ==> rs[k] == PageResult(pdf[k])
  {
    seq(|pdf|, i requires 0 <= i < |pdf| => PageResult(pdf[i]))
  }

  /**
   * What `parser_pdf` gives: the out-of-range exception, the first exception a selected
   * page raises, or the book of the selected pages.
   */
  function BookSpec(path: string, pdf: seq<PdfPage>, pages: Option<int>): Result<BookValue, Error>
    requires Parsable(pdf, pages)
  {
    if TooMany(pdf, pages) then Err(PageOutOfRange(0, pages.value))
    else match AllOk(PageResults(Selected(pdf, pages)))
      case Err(e) => Err(e)
      case Ok(values) => Ok(BookValue(path, values))
  }

  /**
   * `parser_pdf` fails exactly when too many pages are asked for, with
   * `PageOutOfRangeException(0, pages)`, or when a selected page has a `None` table
   * cell, with the `TypeError` of the first such page.
   */
  lemma BookOutcome(path: string, pdf: seq<PdfPage>, pages: Option<int>)
    requires Parsable(pdf, pages)
    ensures TooMany(pdf, pages) ==> BookSpec(path, pdf, pages) == Err(PageOutOfRange(0, pages.value))
    ensures !TooMany(pdf, pages) ==> (BookSpec(path, pdf, pages).Ok? <==>
      forall k :: 0 <= k < |Selected(pdf, pages)| ==> CellsPresent(Selected(pdf, pages)[k].tables))
    ensures !TooMany(pdf, pages) && BookSpec(path, pdf, pages).Err? ==>
      var sel := Selected(pdf, pages);
      exists k :: 0 <= k < |sel| && !CellsPresent(sel[k].tables) &&
        (forall i :: 0 <= i < k ==> CellsPresent(sel[i].tables)) &&
        Err(BookSpec(path, pdf, pages).error) == PageResult(sel[k])
  {
    if !TooMany(pdf, pages) {
      var sel := Selected(pdf, pages);
      var rs := PageResults(sel);
      AllOkValues(rs);
      forall k | 0 <= k < |sel| ensures rs[k].Ok? <==> CellsPresent(sel[k].tables) {
        RowTextsJoined(sel[k].tables);
      }
      if AllOk(rs).Err? {
        AllOkFirstError(rs);
      }
    }
  }

  /** A book that parses holds the path and every selected page's specification, in document order. */
  lemma BookPages(path: string, pdf: seq<PdfPage>, pages: Option<int>)
    requires Parsable(pdf, pages) && BookSpec(path, pdf, pages).Ok?
    ensures BookSpec(path, pdf, pages).value.path == path
    ensures |BookSpec(path, pdf, pages).value.pages| == |Selected(pdf, pages)|
    ensures forall k :: 0 <= k < |Selected(pdf, pages)| ==>
      WellFormed(Selected(pdf, pages)[k]) && BookSpec(path, pdf, pages).value.pages[k] == PageSpec(Selected(pdf, pages)[k])
  {
    var sel := Selected(pdf, pages);
    var rs := PageResults(sel);
    AllOkValues(rs);
    forall k | 0 <= k < |sel| ensures WellFormed(sel[k]) && rs[k] == Ok(PageSpec(sel[k])) {
      RowTextsJoined(sel[k].tables);
    }
  }

  /**
   * `parser_pdf`: raises `PageOutOfRangeException(0, pages)` before reading any page
   * when more pages are asked for than the file has; otherwise parses the selected
   * pages in order, stopping at the first exception, into a fresh book.
   */
  method ParserPdf(path: string, pdf: seq<PdfPage>, pages: Option<int>) returns (r: Result<Book, Error>)
    requires Parsable(pdf, pages)
    ensures TooMany(pdf, pages) ==> r == Err(PageOutOfRange(0, pages.value))
    ensures r.Err? <==> BookSpec(path, pdf, pages).Err?
    ensures r.Err? ==> r.error == BookSpec(path, pdf, pages).error
    ensures r.Ok? ==> fresh(r.value) && r.value.Valid() && r.value.View() == BookSpec(path, pdf, pages).value
    ensures r.Ok? ==> forall i, k :: 0 <= i < |r.value.pages| && 0 <= k < |r.value.pages[i].contents| ==>
      fresh(r.value.pages[i].contents[k])
  {
    var book := new Book(path);
    if pages.Some? && pages.value > |pdf| {
      return Err(PageOutOfRange(|book.pages|, pages.value));
    }
    var toParse := Selected(pdf, pages);
    ghost var specs := PageResults(toParse);
    var failure := ParsePages(book, toParse, specs);
    if failure.Some? {
      return Err(failure.value);
    }
    return Ok(book);
  }

  /** `specs[k]` is what parsing page `k` gives. */
  predicate SpecOf(pdf: seq<PdfPage>, specs: seq<Result<PageValue, Error>>, k: int) {
    0 <= k < |pdf| == |specs| && Shaped(pdf[k]) && specs[k] == PageResult(pdf[k])
  }

  /**
   * `parser_pdf`'s loop: every page parsed, in order, and appended to the empty book,
   * until a page raises.
   */
  method ParsePages(book: Book, pdf: seq<PdfPage>, ghost specs: seq<Result<PageValue, Error>>)
    returns (failure: Option<Error>)
    requires |specs| == |pdf| && (forall k :: 0 <= k < |pdf| ==> SpecOf(pdf, specs, k))
    requires book.Valid() && book.pages == []
    modifies book`pages
    ensures failure.Some? <==> AllOk(specs).Err?
    ensures failure.Some? ==> failure.value == AllOk(specs).error
    ensures failure.None? ==> book.Valid() && AllOk(specs) == Ok(book.PageValues())
    ensures forall j, k :: 0 <= j < |book.pages| && 0 <= k < |book.pages[j].contents| ==> fresh(book.pages[j].contents[k])
  {
    for i := 0 to |pdf|
      invariant book.Valid() && AllOk(specs[..i]) == Ok(book.PageValues())
      invariant forall j, k :: 0 <= j < |book.pages| && 0 <= k < |book.pages[j].contents| ==> fresh(book.pages[j].contents[k])
    {
      ghost var done := book.PageValues();
      var page := ParsePageAt(pdf, specs, i);
      assert book.PageValues() == done;
      assert specs[..i + 1] == specs[..i] + [specs[i]];
      AllOkStep(specs[..i], specs[i]);
      if page.Err? {
        AllOkStops(specs[..i + 1], specs[i + 1..]);
        assert specs[..i + 1] + specs[i + 1..] == specs;
        return Some(page.error);
      }
      assert specs[i] == Ok(page.value.View());
      assert AllOk(specs[..i + 1]) == Ok(done + [page.value.View()]);
      AppendParsedPage(book, page.value);
    }
    assert specs[..|pdf|] == specs;
    return None;
  }

  /** `_new_parser_pdf_page(pdf.pages[i])`, its outcome stated through `specs`. */
  method ParsePageAt(pdf: seq<PdfPage>, ghost specs: seq<Result<PageValue, Error>>, i: nat)
    returns (r: Result<Page, Error>)
    requires |specs| == |pdf| && (forall k :: 0 <= k < |pdf| ==> SpecOf(pdf, specs, k)) && i < |pdf|
    ensures r.Err? ==> specs[i] == Err(r.error)
    ensures r.Ok? ==> fresh(r.value) && Unaliased(r.value.contents) && specs[i] == Ok(r.value.View())
    ensures r.Ok? ==> forall k :: 0 <= k < |r.value.contents| ==> fresh(r.value.contents[k])
  {
    assert SpecOf(pdf, specs, i);
    r := ParsePdfPage(pdf[i]);
  }

  /** `book.add_page` for a freshly parsed page: the book's snapshot grows by the page's. */
  method AppendParsedPage(book: Book, page: Page)
    requires book.Valid() && Unaliased(page.contents)
    requires forall i :: 0 <= i < |book.pages| ==> book.pages[i] != page
    requires forall i, l, k :: 0 <= i < |book.pages| && 0 <= l < |book.pages[i].contents| && 0 <= k < |page.contents| ==>
      book.pages[i].contents[l] != page.contents[k]
    modifies book`pages
    ensures book.pages == old(book.pages) + [page]
    ensures book.Valid() && book.PageValues() == old(book.PageValues()) + [page.View()]
  {
    ghost var before := book.PageValues();
    AddParsedPage(book, page);
    forall k | 0 <= k < |before| ensures book.PageAt(k) == before[k] {
    }
    assert book.PageAt(|before|) == page.View();
  }

  /** `book.add_page` for a page that shares no object with the book, keeping the book free of aliasing. */
  method AddParsedPage(book: Book, page: Page)
    requires book.Valid() && Unaliased(page.contents)
    requires forall i :: 0 <= i < |book.pages| ==> book.pages[i] != page
    requires forall i, l, k :: 0 <= i < |book.pages| && 0 <= l < |book.pages[i].contents| && 0 <= k < |page.contents| ==>
      book.pages[i].contents[l] != page.contents[k]
    modifies book`pages
    ensures book.pages == old(book.pages) + [page]
    ensures book.Valid()
  {
    ghost var before := book.pages;
    book.AddPage(page);
    var ps := book.pages;
    assert forall i :: 0 <= i < |before| ==> ps[i] == before[i];
    forall i, j | 0 <= i < j < |ps| ensures ps[i] != ps[j] {
      if j < |before| {
        assert before[i] != before[j];
      }
    }
    forall i, k, j, l | 0 <= i < |ps| && 0 <= k < |ps[i].contents| && 0 <= j < |ps| && 0 <= l < |ps[j].contents| && (i != j || k != l)
      ensures ps[i].contents[k] != ps[j].contents[l]
    {
      if i < |before| && j < |before| {
        assert before[i].contents[k] != before[j].contents[l];
      } else if i < |before| {
        assert ps[j] == page;
      } else if j < |before| {
        assert ps[i] == page;
      } else {
        assert ps[i] == page && ps[j] == page;
      }
    }
  }
}
