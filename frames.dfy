/**
 * The part of a pandas `DataFrame` the translator uses: a grid built from a list of
 * rows, with default integer row and column labels, ragged rows padded with `None`,
 * cell-by-cell traversal and single-cell assignment.
 */
module Frames {
  import opened Wrappers
  import opened PyStrings
  import opened Exceptions

  /** A cell: a string, a whole extracted table row (a Python list), or `None`. */
  datatype Cell = CellStr(s: string) | CellRow(items: seq<string>) | CellNone

  /** `width` is the number of columns, labelled 0 .. width-1; rows are labelled 0 .. |rows|-1. */
  datatype DataFrame = DataFrame(width: nat, rows: seq<seq<Cell>>)

  predicate Rectangular(f: DataFrame) {
    forall i :: 0 <= i < |f.rows| ==> |f.rows[i]| == f.width
  }

  /** The length of the longest row, 0 for no rows. */
  function MaxWidth(data: seq<seq<Cell>>): (w: nat)
    ensures forall i :: 0 <= i < |data| ==> |data[i]| <= w
    ensures data != [] ==> exists i :: 0 <= i < |data| && |data[i]| == w
    ensures data == [] ==> w == 0
  {
    if data == [] then 0
    else
      var w := MaxWidth(data[1..]);
      assert forall i :: 1 <= i < |data| ==> data[i] == data[1..][i - 1];
      if |data[0]| >= w then |data[0]| else w
  }

  function Pad(row: seq<Cell>, w: nat): (r: seq<Cell>)
    requires |row| <= w
    ensures |r| == w
    ensures forall j :: 0 <= j < |row| ==> r[j] == row[j]
    ensures forall j :: |row| <= j < w ==> r[j] == CellNone
  {
    row + seq(w - |row|, _ => CellNone)
  }

  /** `pd.DataFrame(data)` for a list of rows: one row each, padded to the longest. */
  function MakeFrame(data: seq<seq<Cell>>): (f: DataFrame)
    ensures Rectangular(f) && |f.rows| == |data| && f.width == MaxWidth(data)
    ensures forall i, j :: 0 <= i < |data| && 0 <= j < |data[i]| ==> f.rows[i][j] == data[i][j]
    ensures forall i, j :: 0 <= i < |data| && |data[i]| <= j < f.width ==> f.rows[i][j] == CellNone
  {
    var w := MaxWidth(data);
    DataFrame(w, seq(|data|, i requires 0 <= i < |data| => Pad(data[i], w)))
  }

  /** The frame of string rows, as the table-response parser builds it. */
  function FrameOfStrings(table: seq<seq<string>>): (f: DataFrame)
    ensures Rectangular(f) && |f.rows| == |table|
    ensures forall i :: 0 <= i < |table| ==> |table[i]| <= f.width
    ensures forall i, j :: 0 <= i < |table| && 0 <= j < |table[i]| ==> f.rows[i][j] == CellStr(table[i][j])
    ensures forall i, j :: 0 <= i < |table| && |table[i]| <= j < f.width ==> f.rows[i][j] == CellNone
  {
    var data := seq(|table|, i requires 0 <= i < |table| =>
      seq(|table[i]|, j requires 0 <= j < |table[i]| => CellStr(table[i][j])));
    assert forall i :: 0 <= i < |table| ==> |data[i]| == |table[i]|;
    MakeFrame(data)
  }

  /**
   * `TableContent.__init__`'s frame: `data[0]` raises `IndexError` on empty data, and
   * the shape check raises `ValueError` unless the frame is `len(data) x len(data[0])`.
   */
  function TableFrame(data: seq<seq<Cell>>): (r: Result<DataFrame, Error>)
    ensures data == [] ==> r == Err(IndexErr)
    ensures data != [] && |data[0]| != MaxWidth(data) ==> r == Err(ValueErr("Error"))
    ensures r.Ok? ==> r.value == MakeFrame(data) && r.value.width == |data[0]|
  {
    if data == [] then Err(IndexErr)
    else if |data[0]| != MaxWidth(data) then Err(ValueErr("Error"))
    else Ok(MakeFrame(data))
  }

  /** The constructor accepts exactly the non-empty lists whose first row is a longest one. */
  lemma TableFrameAccepts(data: seq<seq<Cell>>)
    ensures TableFrame(data).Ok? <==> data != [] && forall i :: 0 <= i < |data| ==> |data[i]| <= |data[0]|
  {
    if data != [] && forall i :: 0 <= i < |data| ==> |data[i]| <= |data[0]| {
      var i :| 0 <= i < |data| && |data[i]| == MaxWidth(data);
      assert MaxWidth(data) == |data[0]|;
    }
  }

  /** One row's `(row label, column label, cell)` triples, left to right. */
  function RowItems(i: nat, row: seq<Cell>): (r: seq<(nat, nat, Cell)>)
    ensures |r| == |row| && forall j :: 0 <= j < |row| ==> r[j] == (i, j, row[j])
  {
    seq(|row|, j requires 0 <= j < |row| => (i, j, row[j]))
  }

  /** `iter_items` over the first `n` rows: `iterrows`, then `enumerate(row)`. */
  function ItemsUpTo(f: DataFrame, n: nat): seq<(nat, nat, Cell)>
    requires n <= |f.rows|
  {
    if n == 0 then [] else ItemsUpTo(f, n - 1) + RowItems(n - 1, f.rows[n - 1])
  }

  function Items(f: DataFrame): seq<(nat, nat, Cell)> {
    ItemsUpTo(f, |f.rows|)
  }

  /** Where row `i` starts among the items of a frame `w` cells wide. */
  function RowStart(i: nat, w: nat): nat {
    if i == 0 then 0 else RowStart(i - 1, w) + w
  }

  lemma {:induction false} RowStartIsProduct(i: nat, w: nat)
    ensures RowStart(i, w) == i * w
  {
    if i > 0 {
      RowStartIsProduct(i - 1, w);
      assert (i - 1) * w + w == i * w;
    }
  }

  /** Row `n - 1` comes right after the earlier rows' items. */
  lemma ItemsUpToLast(f: DataFrame, n: nat, j: nat)
    requires Rectangular(f) && 0 < n <= |f.rows| && j < f.width
    ensures ItemsUpTo(f, n)[|ItemsUpTo(f, n - 1)| + j] == (n - 1, j, f.rows[n - 1][j])
  {
    assert ItemsUpTo(f, n) == ItemsUpTo(f, n - 1) + RowItems(n - 1, f.rows[n - 1]);
  }

  /** The earlier rows' items stay in place. */
  lemma ItemsUpToEarlier(f: DataFrame, n: nat, p: nat)
    requires 0 < n <= |f.rows| && p < |ItemsUpTo(f, n - 1)|
    ensures ItemsUpTo(f, n)[p] == ItemsUpTo(f, n - 1)[p]
  {
    assert ItemsUpTo(f, n) == ItemsUpTo(f, n - 1) + RowItems(n - 1, f.rows[n - 1]);
  }

  lemma {:induction false} ItemsUpToAt(f: DataFrame, n: nat)
    requires Rectangular(f) && n <= |f.rows|
    ensures |ItemsUpTo(f, n)| == RowStart(n, f.width)
    ensures forall i :: 0 <= i < n ==> RowStart(i, f.width) + f.width <= RowStart(n, f.width)
    ensures forall i, j :: 0 <= i < n && 0 <= j < f.width ==>
      ItemsUpTo(f, n)[RowStart(i, f.width) + j] == (i, j, f.rows[i][j])
  {
    if n > 0 {
      ItemsUpToAt(f, n - 1);
      var w := f.width;
      assert |ItemsUpTo(f, n)| == |ItemsUpTo(f, n - 1)| + w;
      assert RowStart(n, w) == RowStart(n - 1, w) + w;
      forall i, j | 0 <= i < n && 0 <= j < w
        ensures ItemsUpTo(f, n)[RowStart(i, w) + j] == (i, j, f.rows[i][j])
      {
        if i < n - 1 {
          assert ItemsUpTo(f, n - 1)[RowStart(i, w) + j] == (i, j, f.rows[i][j]);
          ItemsUpToEarlier(f, n, RowStart(i, w) + j);
        } else {
          ItemsUpToLast(f, n, j);
        }
      }
    }
  }

  /** `items` lists cell (i, j) of a rectangular frame at position i * width + j. */
  predicate RowMajor(f: DataFrame, items: seq<(nat, nat, Cell)>)
    requires Rectangular(f)
  {
    |items| == |f.rows| * f.width
    && forall i, j :: 0 <= i < |f.rows| && 0 <= j < f.width ==>
      i * f.width + j < |items| && items[i * f.width + j] == (i, j, f.rows[i][j])
  }

  /**
   * Every cell is visited once, in row-major order: the item at i * width + j is
   * cell (i, j), and there are exactly rows * width items.
   */
  lemma ItemsRowMajor(f: DataFrame)
    requires Rectangular(f)
    ensures RowMajor(f, Items(f))
  {
    ItemsUpToAt(f, |f.rows|);
    RowStartIsProduct(|f.rows|, f.width);
    forall i | 0 <= i < |f.rows| {
      RowStartIsProduct(i, f.width);
    }
  }

  /** `g` is `f` with cell (r, c) set to `v` and every other cell as it was. */
  predicate CellUpdated(f: DataFrame, g: DataFrame, r: nat, c: nat, v: Cell)
    requires Rectangular(f)
  {
    Rectangular(g) && g.width == f.width && |g.rows| == |f.rows|
    && r < |f.rows| && c < f.width && g.rows[r][c] == v
    && forall i, j :: 0 <= i < |f.rows| && 0 <= j < f.width && (i != r || j != c) ==>
      g.rows[i][j] == f.rows[i][j]
  }

  /** `df.at[r, c] = v` for labels inside the frame. */
  function UpdateCell(f: DataFrame, r: nat, c: nat, v: Cell): (g: DataFrame)
    requires Rectangular(f) && r < |f.rows| && c < f.width
    ensures CellUpdated(f, g, r, c, v)
  {
    DataFrame(f.width, f.rows[r := f.rows[r][c := v]])
  }

  /** `str(cell)`: a string as itself, `None` as "None", a list in Python's list notation. */
  function CellText(c: Cell): string {
    match c
    case CellStr(s) => s
    case CellNone => "None"
    case CellRow(items) => "[" + Join(", ", seq(|items|, k requires 0 <= k < |items| => "'" + items[k] + "'")) + "]"
  }

  function RowText(row: seq<Cell>): (r: seq<string>)
    ensures |r| == |row| && forall j :: 0 <= j < |row| ==> r[j] == CellText(row[j])
  {
    seq(|row|, j requires 0 <= j < |row| => CellText(row[j]))
  }

  /** Stand-in for `to_string(header=False, index=False)`: cells by spaces, rows by newlines. */
  function FrameText(f: DataFrame): string {
    Join("\n", seq(|f.rows|, i requires 0 <= i < |f.rows| => Join(" ", RowText(f.rows[i]))))
  }
}
