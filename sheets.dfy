/**
 A single-sheet workbook as a grid of cells, and the few workbook and
 data-frame operations the attendance transform performs on it.

 Rows and columns are counted from 0 here; row 0 is the header row, which the
 spreadsheet numbers 1, and column 0 is spreadsheet column 1.
 */
module Sheets {
  import opened Wrappers

  /** The value of one cell: empty, text, or a whole number. */
  datatype Cell = Blank | Text(s: string) | Number(n: int)

  type Grid = seq<seq<Cell>>

  /** Every row of `g` has exactly `width` cells. */
  ghost predicate Rectangular(g: Grid, width: nat) {
    forall i :: 0 <= i < |g| ==> |g[i]| == width
  }

  /** The header row; an empty sheet has no header cells. */
  function HeaderRow(g: Grid): seq<Cell> {
    if |g| == 0 then [] else g[0]
  }

  /** The leftmost column of `row` holding exactly `v`, if any does. */
  function FirstColumn(row: seq<Cell>, v: Cell): (col: Option<nat>)
    ensures col.Some? ==> col.value < |row| && row[col.value] == v
                          && forall k :: 0 <= k < col.value ==> row[k] != v
    ensures col.None? <==> forall k :: 0 <= k < |row| ==> row[k] != v
  {
    if row == [] then None
    else if row[0] == v then Some(0)
    else
      match FirstColumn(row[1..], v)
      case None => None
      case Some(k) => Some(k + 1)
  }

  /** A column found in a row stays the leftmost one while the row keeps its cells up to it. */
  lemma FirstColumnKeptByPrefix(row: seq<Cell>, row': seq<Cell>, v: Cell, col: nat)
    requires FirstColumn(row, v) == Some(col)
    requires col < |row'| && row'[..col + 1] == row[..col + 1]
    ensures FirstColumn(row', v) == Some(col)
  {
    forall k | 0 <= k <= col ensures row'[k] == row[k] {
      assert row'[k] == row'[..col + 1][k] && row[k] == row[..col + 1][k];
    }
    var found := FirstColumn(row', v);
    assert found.Some? by {
      assert row'[col] == v;
    }
    assert found.value == col by {
      assert found.value <= col by {
        assert row'[col] == v;
      }
    }
  }

  /**
   `insert_cols(at)`: every row gets a blank cell at position `at`; the cells
   before it stay put and the cells from `at` on move one place right.
   */
  function WithBlankColumn(g: Grid, width: nat, at: nat): (r: Grid)
    requires Rectangular(g, width) && at <= width
    ensures |r| == |g| && Rectangular(r, width + 1)
    ensures forall i, c :: 0 <= i < |g| && 0 <= c < at ==> r[i][c] == g[i][c]
    ensures forall i :: 0 <= i < |g| ==> r[i][at] == Blank
    ensures forall i, c :: 0 <= i < |g| && at <= c < width ==> r[i][c + 1] == g[i][c]
  {
    seq(|g|, i requires 0 <= i < |g| => g[i][..at] + [Blank] + g[i][at..])
  }

  /** `row` with `v` at column `col`, appended when `col` is one past the end. */
  function Place(row: seq<Cell>, col: nat, v: Cell): (r: seq<Cell>)
    requires col <= |row|
    ensures |r| == if col == |row| then |row| + 1 else |row|
    ensures r[col] == v
    ensures forall k :: 0 <= k < |row| && k != col ==> r[k] == row[k]
  {
    if col == |row| then row + [v] else row[col := v]
  }

  /**
   The column `df[title] = ...` writes to: the leftmost column already
   titled `title`, or a new column after the last one.
   */
  function TargetColumn(g: Grid, width: nat, title: string): (col: nat)
    requires Rectangular(g, width)
    ensures col <= width
    ensures col < width ==> |g| > 0 && g[0][col] == Text(title)
    ensures col < width ==> forall k :: 0 <= k < col ==> g[0][k] != Text(title)
    ensures col == width ==> forall k :: 0 <= k < |HeaderRow(g)| ==> HeaderRow(g)[k] != Text(title)
  {
    match FirstColumn(HeaderRow(g), Text(title))
    case Some(col) => col
    case None => width
  }

  /**
   `df[title] = df[src]`: the column titled `title` (found or appended) holds
   a copy of column `src` in every data row.
   */
  function WithColumnCopy(g: Grid, width: nat, title: string, src: nat): (r: Grid)
    requires Rectangular(g, width) && |g| > 0 && src < width
    ensures |r| == |g|
    ensures Rectangular(r, if TargetColumn(g, width, title) == width then width + 1 else width)
  {
    var dst := TargetColumn(g, width, title);
    seq(|g|, i requires 0 <= i < |g| => Place(g[i], dst, if i == 0 then Text(title) else g[i][src]))
  }

  /**
   After `df[title] = df[src]`, the target column holds the title and the
   copied values, and every other cell keeps its value.
   */
  lemma ColumnCopyCells(g: Grid, width: nat, title: string, src: nat)
    requires Rectangular(g, width) && |g| > 0 && src < width
    ensures var r, dst := WithColumnCopy(g, width, title, src), TargetColumn(g, width, title);
      && r[0][dst] == Text(title)
      && (forall i :: 1 <= i < |g| ==> r[i][dst] == g[i][src])
      && forall i, c :: 0 <= i < |g| && 0 <= c < width && c != dst ==> r[i][c] == g[i][c]
  {
  }

  /**
   The sheet of a workbook: the openpyxl sheet the certificates are marked on
   and, after the save-and-reload round trip, the data frame the attendance is
   adjusted on.
   */
  class Worksheet {
    var cells: Grid
    var width: nat

    ghost predicate Valid()
      reads this
    {
      Rectangular(cells, width)
    }

    /** A sheet holding exactly `g`, with `width` columns. */
    constructor (g: Grid, w: nat)
      requires Rectangular(g, w)
      ensures Valid() && cells == g && width == w
    {
      cells := g;
      width := w;
    }

    /** `insert_cols(at)`: a blank column at `at`, the later columns shifted right. */
    method InsertColumn(at: nat)
      requires Valid() && at <= width
      modifies this
      ensures Valid() && width == old(width) + 1
      ensures cells == WithBlankColumn(old(cells), old(width), at)
    {
      cells := WithBlankColumn(cells, width, at);
      width := width + 1;
    }

    /** `cell(row, col).value = v`: one cell changes, nothing else. */
    method SetCell(row: nat, col: nat, v: Cell)
      requires Valid() && row < |cells| && col < width
      modifies this
      ensures Valid() && width == old(width)
      ensures cells == old(cells)[row := old(cells)[row][col := v]]
    {
      cells := cells[row := cells[row][col := v]];
    }

    /** `df[title] = df[src]`, returning the column written to. */
    method CopyColumn(title: string, src: nat) returns (dst: nat)
      requires Valid() && |cells| > 0 && src < width
      modifies this
      ensures dst == TargetColumn(old(cells), old(width), title)
      ensures Valid() && width == if dst == old(width) then old(width) + 1 else old(width)
      ensures cells == WithColumnCopy(old(cells), old(width), title, src)
    {
      dst := TargetColumn(cells, width, title);
      cells := WithColumnCopy(cells, width, title, src);
      if dst == width {
        width := width + 1;
      }
    }
  }
}
