/**
 * The merged-cell grid builder (src/infra/adapters/parsing/html/table_grid_builder.py).
 *
 * A table is its rows of cells; each cell carries its text and its `rowspan`
 * and `colspan` attributes. The builder lays the cells out on a
 * rows x max_cols grid of strings, tracking which positions are taken in a
 * parallel `occupied` matrix. Both matrices are two-dimensional arrays updated
 * in place, as in the source; the functions over `Matrix` values below are the
 * specification the methods are proved against.
 */
module GridBuilder {
  import opened Wrappers
  import opened Strings

  /** A span attribute as read from the element: absent, a non-negative integer, or text `int()` rejects. */
  datatype SpanAttr = Missing | Num(n: nat) | Malformed

  /** One `td`/`th` element: its inner text and its `rowspan` and `colspan` attributes. */
  datatype Cell = Cell(text: string, rowspan: SpanAttr, colspan: SpanAttr)

  type Row = seq<Cell>
  type Matrix<T> = seq<seq<T>>

  /** `int(cell.get_attribute(name) or "1")`; None where `int()` raises. */
  function SpanValue(a: SpanAttr): Option<nat> {
    match a
    case Missing => Some(1)
    case Num(n) => Some(n)
    case Malformed => None
  }

  /** `cell.inner_text().replace(" ", " ").strip()`. */
  function CellText(c: Cell): (r: string)
    ensures NoSpaceAtEnds(r)
  {
    Strip(ReplaceAll(c.text, "\U{a0}", " "))
  }

  /** A cell text without non-breaking spaces is only trimmed. */
  lemma CellTextWithoutNbsp(c: Cell)
    requires !Contains(c.text, "\U{a0}")
    ensures CellText(c) == Strip(c.text)
  {
  }

  /** The number of columns a row declares: the sum of its colspans; None when one is malformed. */
  function RowWidth(row: Row): (w: Option<nat>)
    ensures w.None? <==> exists j :: 0 <= j < |row| && row[j].colspan.Malformed?
  {
    if row == [] then Some(0)
    else
      var rest := RowWidth(row[1..]);
      assert forall j :: 0 <= j < |row| - 1 ==> row[1..][j] == row[j + 1];
      if row[0].colspan.Malformed? || rest.None? then None
      else Some(SpanValue(row[0].colspan).value + rest.value)
  }

  /** Some row holds a cell whose colspan `int()` rejects. */
  predicate SomeColspanMalformed(rows: seq<Row>) {
    exists i :: 0 <= i < |rows| && RowWidth(rows[i]).None?
  }

  /**
   * The largest declared row width (0 for no rows); None when some colspan
   * is malformed, where `_calculate_max_columns` raises.
   */
  function MaxColumns(rows: seq<Row>): (m: Option<nat>)
    ensures m.None? <==> SomeColspanMalformed(rows)
    ensures m.Some? ==> forall i :: 0 <= i < |rows| ==> RowWidth(rows[i]).value <= m.value
    ensures m.Some? ==> m.value == 0 || exists i :: 0 <= i < |rows| && RowWidth(rows[i]) == m
  {
    if rows == [] then Some(0)
    else
      var last := RowWidth(rows[|rows| - 1]);
      var init := rows[..|rows| - 1];
      assert forall i :: 0 <= i < |init| ==> init[i] == rows[i];
      match (MaxColumns(init), last)
      case (Some(a), Some(b)) => Some(if a < b then b else a)
      case (None, _) =>
        var i :| 0 <= i < |init| && RowWidth(init[i]).None?;
        assert RowWidth(rows[i]).None?;
        None
      case (_, None) => None
  }

  /** `_calculate_max_columns`: the running maximum over the rows' declared widths. */
  method CalculateMaxColumns(rows: seq<Row>) returns (maxCols: Option<nat>)
    ensures maxCols == MaxColumns(rows)
  {
    var m: nat := 0;
    for k := 0 to |rows|
      invariant MaxColumns(rows[..k]) == Some(m)
    {
      assert rows[..k + 1][..k] == rows[..k];
      var colCount := RowWidth(rows[k]);
      if colCount.None? {
        assert !MaxColumns(rows[..k + 1]).Some?;
        MaxColumnsNoneExtends(rows, k + 1);
        return None;
      }
      if colCount.value > m {
        m := colCount.value;
      }
    }
    assert rows[..|rows|] == rows;
    return Some(m);
  }

  /** A malformed colspan in a prefix of the rows is a malformed colspan of the whole table. */
  lemma MaxColumnsNoneExtends(rows: seq<Row>, k: nat)
    requires k <= |rows| && MaxColumns(rows[..k]).None?
    ensures MaxColumns(rows).None?
  {
    var i :| 0 <= i < k && RowWidth(rows[..k][i]).None?;
    assert RowWidth(rows[i]).None?;
  }

  // ---------------------------------------------------------------------
  // The specification: the layout as the sequence of blocks written so far

  /** A cell written onto the grid: its top-left position, its spans, and the cell it came from. */
  datatype Block = Block(row: nat, col: nat, rowspan: nat, colspan: nat, source: Cell)

  predicate Covers(b: Block, i: int, j: int) {
    b.row <= i < b.row + b.rowspan && b.col <= j < b.col + b.colspan
  }

  /** `occupied[i][j]` after the blocks have been written: some block covers the position. */
  predicate Occupied(blocks: seq<Block>, i: int, j: int) {
    blocks != [] && (Covers(blocks[|blocks| - 1], i, j) || Occupied(blocks[..|blocks| - 1], i, j))
  }

  /** `grid[i][j]` after the blocks have been written: the text of the last block covering it, else "". */
  function TextAt(blocks: seq<Block>, i: int, j: int): string {
    if blocks == [] then ""
    else if Covers(blocks[|blocks| - 1], i, j) then CellText(blocks[|blocks| - 1].source)
    else TextAt(blocks[..|blocks| - 1], i, j)
  }

  /** Writing one more block: it wins where it covers, everything else is as before. */
  lemma Write(blocks: seq<Block>, b: Block, i: int, j: int)
    ensures Occupied(blocks + [b], i, j) <==> Covers(b, i, j) || Occupied(blocks, i, j)
    ensures TextAt(blocks + [b], i, j) == if Covers(b, i, j) then CellText(b.source) else TextAt(blocks, i, j)
  {
    assert (blocks + [b])[..|blocks|] == blocks;
  }

  /** The inner `while`: the first column at or after `col` that is not occupied, or `col` once past `maxCols`. */
  function NextFree(blocks: seq<Block>, rowIdx: nat, col: nat, maxCols: nat): (c: nat)
    ensures col <= c
    ensures c < maxCols ==> !Occupied(blocks, rowIdx, c)
    ensures col < maxCols ==> c <= maxCols
    decreases maxCols - col
  {
    if col < maxCols && Occupied(blocks, rowIdx, col) then NextFree(blocks, rowIdx, col + 1, maxCols) else col
  }

  /** The cursor stops at the first free column: every column it passes over is occupied. */
  lemma {:induction false} NextFreeSkipsOccupied(blocks: seq<Block>, rowIdx: nat, col: nat, maxCols: nat)
    ensures forall k :: col <= k < NextFree(blocks, rowIdx, col, maxCols) ==> k < maxCols && Occupied(blocks, rowIdx, k)
    decreases maxCols - col
  {
    if col < maxCols && Occupied(blocks, rowIdx, col) {
      NextFreeSkipsOccupied(blocks, rowIdx, col + 1, maxCols);
    } else {
      assert NextFree(blocks, rowIdx, col, maxCols) == col;
    }
  }

  /**
   * `_process_table_row` from the cell list `cells` on, with the column
   * cursor at `col`: each cell is written at the first free column at or
   * after the cursor, which then moves on by the declared colspan; once the
   * cursor reaches `maxCols` the remaining cells are dropped. None where
   * `int()` raises on a span attribute.
   */
  function PlaceCells(blocks: seq<Block>, cells: seq<Cell>, rowIdx: nat, col: nat, maxCols: nat): (r: Option<seq<Block>>)
    ensures r.Some? ==> blocks <= r.value
    ensures cells == [] ==> r == Some(blocks)
    decreases |cells|
  {
    if cells == [] then Some(blocks)
    else
      var c := NextFree(blocks, rowIdx, col, maxCols);
      if c >= maxCols then Some(blocks)
      else match (SpanValue(cells[0].rowspan), SpanValue(cells[0].colspan))
        case (Some(rs), Some(cs)) =>
          PlaceCells(blocks + [Block(rowIdx, c, rs, cs, cells[0])], cells[1..], rowIdx, c + cs, maxCols)
        case _ => None
  }

  /** One step of `PlaceCells` where the first cell is written. */
  lemma PlaceCellsWrites(blocks: seq<Block>, cells: seq<Cell>, rowIdx: nat, col: nat, maxCols: nat, rs: nat, cs: nat)
    requires cells != [] && NextFree(blocks, rowIdx, col, maxCols) < maxCols
    requires SpanValue(cells[0].rowspan) == Some(rs) && SpanValue(cells[0].colspan) == Some(cs)
    ensures var c := NextFree(blocks, rowIdx, col, maxCols);
      PlaceCells(blocks, cells, rowIdx, col, maxCols)
      == PlaceCells(blocks + [Block(rowIdx, c, rs, cs, cells[0])], cells[1..], rowIdx, c + cs, maxCols)
  {
  }

  /** The loop of `build_grid` over rows `k..`, each placed at its own row index. */
  function PlaceRows(blocks: seq<Block>, rows: seq<Row>, k: nat, maxCols: nat): (r: Option<seq<Block>>)
    requires k <= |rows|
    ensures r.Some? ==> blocks <= r.value
    decreases |rows| - k
  {
    if k == |rows| then Some(blocks)
    else match PlaceCells(blocks, rows[k], k, 0, maxCols)
      case None => None
      case Some(next) => PlaceRows(next, rows, k + 1, maxCols)
  }

  predicate IsGrid<T>(m: Matrix<T>, numRows: nat, numCols: nat) {
    |m| == numRows && forall i :: 0 <= i < numRows ==> |m[i]| == numCols
  }

  /** The `numRows` x `numCols` grid the blocks produce. */
  function Render(blocks: seq<Block>, numRows: nat, numCols: nat): (m: Matrix<string>)
    ensures IsGrid(m, numRows, numCols)
    ensures forall i, j :: 0 <= i < numRows && 0 <= j < numCols ==> m[i][j] == TextAt(blocks, i, j)
  {
    seq(numRows, i => seq(numCols, j => TextAt(blocks, i, j)))
  }

  /** The blocks written when laying out the whole table, on a grid `maxCols` wide. */
  function Layout(rows: seq<Row>, maxCols: nat): Option<seq<Block>> {
    PlaceRows([], rows, 0, maxCols)
  }

  /** `build_grid` as a function of the table's rows. */
  function GridOf(rows: seq<Row>): (m: Matrix<string>)
    ensures m != [] <==> rows != [] && MaxColumns(rows).Some? && Layout(rows, MaxColumns(rows).value).Some?
    ensures m != [] ==> IsGrid(m, |rows|, MaxColumns(rows).value)
  {
    if rows == [] then []
    else match MaxColumns(rows)
      case None => []
      case Some(maxCols) =>
        match Layout(rows, maxCols)
        case None => []
        case Some(blocks) => Render(blocks, |rows|, maxCols)
  }

  // ---------------------------------------------------------------------
  // The imperative builder

  /** The contents of a two-dimensional array as a matrix value. */
  function Contents<T>(a: array2<T>): (m: Matrix<T>)
    reads a
    ensures IsGrid(m, a.Length0, a.Length1)
    ensures forall i, j :: 0 <= i < a.Length0 && 0 <= j < a.Length1 ==> m[i][j] == a[i, j]
  {
    seq(a.Length0, i requires 0 <= i < a.Length0 reads a =>
      seq(a.Length1, j requires 0 <= j < a.Length1 reads a => a[i, j]))
  }

  /** The arrays hold what the blocks produce. */
  predicate Represents(grid: array2<string>, occupied: array2<bool>, blocks: seq<Block>)
    reads grid, occupied
  {
    && occupied.Length0 == grid.Length0 && occupied.Length1 == grid.Length1
    && forall i, j :: 0 <= i < grid.Length0 && 0 <= j < grid.Length1 ==>
         grid[i, j] == TextAt(blocks, i, j) && occupied[i, j] == Occupied(blocks, i, j)
  }

  /** Two matrices of the same shape that agree everywhere are equal. */
  lemma MatrixExt<T>(a: Matrix<T>, b: Matrix<T>, numRows: nat, numCols: nat)
    requires IsGrid(a, numRows, numCols) && IsGrid(b, numRows, numCols)
    requires forall i, j :: 0 <= i < numRows && 0 <= j < numCols ==> a[i][j] == b[i][j]
    ensures a == b
  {
    forall i | 0 <= i < numRows
      ensures a[i] == b[i]
    {
      assert forall j :: 0 <= j < numCols ==> a[i][j] == b[i][j];
    }
  }

  /** `_initialize_grid`: a `numRows` x `numCols` grid of "" with nothing occupied. */
  method InitializeGrid(numRows: nat, numCols: nat) returns (grid: array2<string>, occupied: array2<bool>)
    ensures fresh(grid) && fresh(occupied)
    ensures grid.Length0 == numRows && grid.Length1 == numCols
    ensures Represents(grid, occupied, [])
  {
    grid := new string[numRows, numCols]((_, _) => "");
    occupied := new bool[numRows, numCols]((_, _) => false);
  }

  /** `_fill_cell_in_grid`: write the text over the clipped rowspan x colspan block and mark it occupied. */
  method FillCellInGrid(grid: array2<string>, occupied: array2<bool>,
                        rowIdx: nat, colIdx: nat, cellText: string, rowspan: nat, colspan: nat,
                        ghost blocks: seq<Block>, ghost source: Cell)
    requires Represents(grid, occupied, blocks) && cellText == CellText(source)
    modifies grid, occupied
    ensures Represents(grid, occupied, blocks + [Block(rowIdx, colIdx, rowspan, colspan, source)])
  {
    ghost var b := Block(rowIdx, colIdx, rowspan, colspan, source);
    var r := 0;
    while r < rowspan
      invariant 0 <= r <= rowspan
      invariant forall i, j :: 0 <= i < grid.Length0 && 0 <= j < grid.Length1 ==>
        grid[i, j] == (if InBlock(i, j, rowIdx, colIdx, r, colspan) then cellText else TextAt(blocks, i, j)) &&
        occupied[i, j] == (InBlock(i, j, rowIdx, colIdx, r, colspan) || Occupied(blocks, i, j))
    {
      if rowIdx + r >= grid.Length0 {
        break;
      }
      var c := 0;
      while c < colspan
        invariant 0 <= c <= colspan
        invariant forall i, j :: 0 <= i < grid.Length0 && 0 <= j < grid.Length1 ==>
          grid[i, j] == (if InBlock(i, j, rowIdx, colIdx, r, colspan) || InBlock(i, j, rowIdx + r, colIdx, 1, c)
                         then cellText else TextAt(blocks, i, j)) &&
          occupied[i, j] == (InBlock(i, j, rowIdx, colIdx, r, colspan) || InBlock(i, j, rowIdx + r, colIdx, 1, c)
                             || Occupied(blocks, i, j))
      {
        if colIdx + c >= grid.Length1 {
          break;
        }
        grid[rowIdx + r, colIdx + c] := cellText;
        occupied[rowIdx + r, colIdx + c] := true;
        c := c + 1;
      }
      r := r + 1;
    }
    forall i, j | 0 <= i < grid.Length0 && 0 <= j < grid.Length1
      ensures grid[i, j] == TextAt(blocks + [b], i, j) && occupied[i, j] == Occupied(blocks + [b], i, j)
    {
      Write(blocks, b, i, j);
    }
  }

  /** Position (i, j) lies in the `rs` x `cs` block whose top-left corner is (r0, c0). */
  predicate InBlock(i: int, j: int, r0: int, c0: int, rs: int, cs: int) {
    r0 <= i < r0 + rs && c0 <= j < c0 + cs
  }

  /** The cursor loop of `_process_table_row`: move right past occupied columns while inside the grid. */
  method SkipOccupied(occupied: array2<bool>, rowIdx: nat, col: nat, maxCols: nat, ghost blocks: seq<Block>)
    returns (c: nat)
    requires rowIdx < occupied.Length0 && maxCols == occupied.Length1
    requires forall j :: 0 <= j < maxCols ==> occupied[rowIdx, j] == Occupied(blocks, rowIdx, j)
    ensures c == NextFree(blocks, rowIdx, col, maxCols)
  {
    c := col;
    while c < maxCols && occupied[rowIdx, c]
      invariant col <= c
      invariant NextFree(blocks, rowIdx, c, maxCols) == NextFree(blocks, rowIdx, col, maxCols)
      decreases maxCols - c
    {
      c := c + 1;
    }
  }

  /**
   * `_process_table_row`: lays out one row's cells. Returns false where
   * `int()` raises on a span attribute (the grid is then abandoned).
   */
  method ProcessTableRow(row: Row, rowIdx: nat, grid: array2<string>, occupied: array2<bool>, maxCols: nat,
                         ghost blocks: seq<Block>)
    returns (ok: bool)
    requires Represents(grid, occupied, blocks)
    requires grid.Length1 == maxCols && rowIdx < grid.Length0
    modifies grid, occupied
    ensures var p := PlaceCells(blocks, row, rowIdx, 0, maxCols);
      ok == p.Some? && (ok ==> Represents(grid, occupied, p.value))
  {
    ghost var goal := PlaceCells(blocks, row, rowIdx, 0, maxCols);
    ghost var written := blocks;
    var colIdx: nat := 0;
    var k := 0;
    while k < |row|
      invariant 0 <= k <= |row|
      invariant Represents(grid, occupied, written)
      invariant PlaceCells(written, row[k..], rowIdx, colIdx, maxCols) == goal
    {
      ghost var colIdx0 := colIdx;
      colIdx := SkipOccupied(occupied, rowIdx, colIdx, maxCols, written);
      if colIdx >= maxCols {
        break;
      }
      var cell := row[k];
      var cellText := CellText(cell);
      var rowspan := SpanValue(cell.rowspan);
      var colspan := SpanValue(cell.colspan);
      if rowspan.None? || colspan.None? {
        return false;
      }
      PlaceCellsWrites(written, row[k..], rowIdx, colIdx0, maxCols, rowspan.value, colspan.value);
      FillCellInGrid(grid, occupied, rowIdx, colIdx, cellText, rowspan.value, colspan.value, written, cell);
      written := written + [Block(rowIdx, colIdx, rowspan.value, colspan.value, cell)];
      assert row[k..][1..] == row[k + 1..];
      colIdx := colIdx + colspan.value;
      k := k + 1;
    }
    return true;
  }

  /**
   * `build_grid`: the table's rows laid out on a `len(rows)` x max_cols grid;
   * [] for a table without rows and wherever `int()` raises on a span attribute.
   */
  method BuildGrid(rows: seq<Row>) returns (grid: Matrix<string>)
    ensures grid == GridOf(rows)
  {
    if |rows| == 0 {
      return [];
    }
    var maxCols := CalculateMaxColumns(rows);
    if maxCols.None? {
      return [];
    }
    var g, occupied := InitializeGrid(|rows|, maxCols.value);
    ghost var written: seq<Block> := [];
    var rowIdx := 0;
    while rowIdx < |rows|
      invariant rowIdx <= |rows|
      invariant Represents(g, occupied, written)
      invariant PlaceRows(written, rows, rowIdx, maxCols.value) == Layout(rows, maxCols.value)
    {
      var ok := ProcessTableRow(rows[rowIdx], rowIdx, g, occupied, maxCols.value, written);
      if !ok {
        return [];
      }
      written := PlaceCells(written, rows[rowIdx], rowIdx, 0, maxCols.value).value;
      rowIdx := rowIdx + 1;
    }
    MatrixExt(Contents(g), Render(written, |rows|, maxCols.value), |rows|, maxCols.value);
    return Contents(g);
  }

  // ---------------------------------------------------------------------
  // Properties of the layout

  /** A position nobody occupies still holds "". */
  lemma {:induction false} UnoccupiedIsEmpty(blocks: seq<Block>, i: int, j: int)
    requires !Occupied(blocks, i, j)
    ensures TextAt(blocks, i, j) == ""
    decreases |blocks|
  {
    if blocks != [] {
      UnoccupiedIsEmpty(blocks[..|blocks| - 1], i, j);
    }
  }

  /** Every position holds "" or the text of a block covering it. */
  lemma {:induction false} TextFromCoveringBlock(blocks: seq<Block>, i: int, j: int)
    ensures TextAt(blocks, i, j) == "" ||
      exists k :: 0 <= k < |blocks| && Covers(blocks[k], i, j) && TextAt(blocks, i, j) == CellText(blocks[k].source)
    decreases |blocks|
  {
    if blocks != [] && !Covers(blocks[|blocks| - 1], i, j) {
      var init := blocks[..|blocks| - 1];
      TextFromCoveringBlock(init, i, j);
      if TextAt(init, i, j) != "" {
        var k :| 0 <= k < |init| && Covers(init[k], i, j) && TextAt(init, i, j) == CellText(init[k].source);
        assert blocks[k] == init[k];
      }
    }
  }

  /** Blocks that start below row `i` change nothing in row `i`. */
  lemma {:induction false} BlocksBelowKeepRow(blocks: seq<Block>, more: seq<Block>, i: int, j: int)
    requires forall k :: 0 <= k < |more| ==> more[k].row > i
    ensures TextAt(blocks + more, i, j) == TextAt(blocks, i, j)
    ensures Occupied(blocks + more, i, j) == Occupied(blocks, i, j)
    decreases |more|
  {
    if more == [] {
      assert blocks + more == blocks;
    } else {
      var init := more[..|more| - 1];
      assert blocks + more == (blocks + init) + [more[|more| - 1]];
      assert !Covers(more[|more| - 1], i, j);
      Write(blocks + init, more[|more| - 1], i, j);
      BlocksBelowKeepRow(blocks, init, i, j);
    }
  }

  /**
   * Laying out the cells of row `rowIdx` only appends blocks, each at row
   * `rowIdx`, in a column left of `maxCols`, and coming from one of the cells.
   */
  lemma {:induction false} PlaceCellsAppends(blocks: seq<Block>, cells: seq<Cell>, rowIdx: nat, col: nat, maxCols: nat)
    requires PlaceCells(blocks, cells, rowIdx, col, maxCols).Some?
    ensures var r := PlaceCells(blocks, cells, rowIdx, col, maxCols).value;
      && |blocks| <= |r| && r[..|blocks|] == blocks
      && forall k :: |blocks| <= k < |r| ==> r[k].row == rowIdx && r[k].col < maxCols && r[k].source in cells
    decreases |cells|
  {
    if cells == [] || NextFree(blocks, rowIdx, col, maxCols) >= maxCols {
      assert PlaceCells(blocks, cells, rowIdx, col, maxCols) == Some(blocks);
    } else {
      var c := NextFree(blocks, rowIdx, col, maxCols);
      var rs := SpanValue(cells[0].rowspan).value;
      var cs := SpanValue(cells[0].colspan).value;
      PlaceCellsWrites(blocks, cells, rowIdx, col, maxCols, rs, cs);
      var next := blocks + [Block(rowIdx, c, rs, cs, cells[0])];
      PlaceCellsAppends(next, cells[1..], rowIdx, c + cs, maxCols);
      var r := PlaceCells(next, cells[1..], rowIdx, c + cs, maxCols).value;
      assert r[..|next|][..|blocks|] == r[..|blocks|];
      forall k | |blocks| <= k < |r|
        ensures r[k].row == rowIdx && r[k].col < maxCols && r[k].source in cells
      {
        if k == |blocks| {
          assert r[k] == r[..|next|][k] == next[k];
        } else {
          assert r[k].source in cells[1..];
        }
      }
    }
  }

  /** Laying out row `rowIdx` leaves every row above it exactly as it was. */
  lemma PlaceCellsKeepsRowsAbove(blocks: seq<Block>, cells: seq<Cell>, rowIdx: nat, col: nat, maxCols: nat, i: int, j: int)
    requires PlaceCells(blocks, cells, rowIdx, col, maxCols).Some? && i < rowIdx
    ensures var r := PlaceCells(blocks, cells, rowIdx, col, maxCols).value;
      TextAt(r, i, j) == TextAt(blocks, i, j) && Occupied(r, i, j) == Occupied(blocks, i, j)
  {
    PlaceCellsAppends(blocks, cells, rowIdx, col, maxCols);
    var r := PlaceCells(blocks, cells, rowIdx, col, maxCols).value;
    var more := r[|blocks|..];
    assert r == blocks + more;
    BlocksBelowKeepRow(blocks, more, i, j);
  }

  /**
   * Laying out rows `k..` only appends blocks, each placed at the row its
   * cell belongs to, left of `maxCols`.
   */
  lemma {:induction false} PlaceRowsAppends(blocks: seq<Block>, rows: seq<Row>, k: nat, maxCols: nat)
    requires k <= |rows| && PlaceRows(blocks, rows, k, maxCols).Some?
    ensures var r := PlaceRows(blocks, rows, k, maxCols).value;
      && |blocks| <= |r| && r[..|blocks|] == blocks
      && forall m :: |blocks| <= m < |r| ==>
           k <= r[m].row < |rows| && r[m].col < maxCols && r[m].source in rows[r[m].row]
    decreases |rows| - k
  {
    if k < |rows| {
      PlaceCellsAppends(blocks, rows[k], k, 0, maxCols);
      var next := PlaceCells(blocks, rows[k], k, 0, maxCols).value;
      PlaceRowsAppends(next, rows, k + 1, maxCols);
      var r := PlaceRows(next, rows, k + 1, maxCols).value;
      assert r[..|next|][..|blocks|] == r[..|blocks|];
      forall m | |blocks| <= m < |r|
        ensures k <= r[m].row < |rows| && r[m].col < maxCols && r[m].source in rows[r[m].row]
      {
        if m < |next| {
          assert r[m] == r[..|next|][m] == next[m];
        }
      }
    }
  }

  /**
   * The grid of a table: [] for no rows or a malformed colspan; otherwise
   * `len(rows)` rows of max_cols entries, each "" or the text of a cell
   * from the same row or a row above it (reaching down by its rowspan).
   */
  lemma GridShape(rows: seq<Row>)
    ensures var g := GridOf(rows);
      && (rows == [] || SomeColspanMalformed(rows) ==> g == [])
      && (g == [] || IsGrid(g, |rows|, MaxColumns(rows).value))
      && forall i, j :: 0 <= i < |g| && 0 <= j < |g[i]| ==>
           g[i][j] == "" || exists r, c :: 0 <= r <= i && 0 <= c < |rows[r]| && g[i][j] == CellText(rows[r][c])
  {
    var g := GridOf(rows);
    if rows != [] && MaxColumns(rows).Some? && Layout(rows, MaxColumns(rows).value).Some? {
      var maxCols := MaxColumns(rows).value;
      var blocks := Layout(rows, maxCols).value;
      PlaceRowsAppends([], rows, 0, maxCols);
      forall i, j | 0 <= i < |g| && 0 <= j < |g[i]| && g[i][j] != ""
        ensures exists r, c :: 0 <= r <= i && 0 <= c < |rows[r]| && g[i][j] == CellText(rows[r][c])
      {
        TextFromCoveringBlock(blocks, i, j);
        var k :| 0 <= k < |blocks| && Covers(blocks[k], i, j) && g[i][j] == CellText(blocks[k].source);
        var r := blocks[k].row;
        var c :| 0 <= c < |rows[r]| && rows[r][c] == blocks[k].source;
      }
    }
  }

  /** Every span attribute of every cell is absent or a number. */
  predicate SpansWellFormed(rows: seq<Row>) {
    forall i, j :: 0 <= i < |rows| && 0 <= j < |rows[i]| ==>
      !rows[i][j].rowspan.Malformed? && !rows[i][j].colspan.Malformed?
  }

  lemma {:induction false} PlaceCellsSucceeds(blocks: seq<Block>, cells: seq<Cell>, rowIdx: nat, col: nat, maxCols: nat)
    requires forall m :: 0 <= m < |cells| ==> !cells[m].rowspan.Malformed? && !cells[m].colspan.Malformed?
    ensures PlaceCells(blocks, cells, rowIdx, col, maxCols).Some?
    decreases |cells|
  {
    if cells != [] && NextFree(blocks, rowIdx, col, maxCols) < maxCols {
      var rs := SpanValue(cells[0].rowspan).value;
      var cs := SpanValue(cells[0].colspan).value;
      PlaceCellsWrites(blocks, cells, rowIdx, col, maxCols, rs, cs);
      PlaceCellsSucceeds(blocks + [Block(rowIdx, NextFree(blocks, rowIdx, col, maxCols), rs, cs, cells[0])],
                         cells[1..], rowIdx, NextFree(blocks, rowIdx, col, maxCols) + cs, maxCols);
    }
  }

  lemma {:induction false} PlaceRowsSucceeds(blocks: seq<Block>, rows: seq<Row>, k: nat, maxCols: nat)
    requires k <= |rows| && SpansWellFormed(rows)
    ensures PlaceRows(blocks, rows, k, maxCols).Some?
    decreases |rows| - k
  {
    if k < |rows| {
      PlaceCellsSucceeds(blocks, rows[k], k, 0, maxCols);
      PlaceRowsSucceeds(PlaceCells(blocks, rows[k], k, 0, maxCols).value, rows, k + 1, maxCols);
    }
  }

  /** A table whose span attributes all parse yields a full `len(rows)` x max_cols grid. */
  lemma WellFormedTableGrid(rows: seq<Row>)
    requires rows != [] && SpansWellFormed(rows)
    ensures MaxColumns(rows).Some?
    ensures IsGrid(GridOf(rows), |rows|, MaxColumns(rows).value)
  {
    var maxCols := MaxColumns(rows).value;
    PlaceRowsSucceeds([], rows, 0, maxCols);
  }

  // ---------------------------------------------------------------------
  // A table without span attributes

  /** No cell carries a `rowspan` or `colspan` attribute. */
  predicate PlainCells(cells: seq<Cell>) {
    forall m :: 0 <= m < |cells| ==> cells[m].rowspan.Missing? && cells[m].colspan.Missing?
  }

  predicate PlainTable(rows: seq<Row>) {
    forall i :: 0 <= i < |rows| ==> PlainCells(rows[i])
  }

  /** What a plain table puts at `(i, j)`: the text of cell `j` of row `i`, or "" past the row's end. */
  function PlainText(rows: seq<Row>, i: nat, j: int): string
    requires i < |rows|
  {
    if 0 <= j < |rows[i]| then CellText(rows[i][j]) else ""
  }

  /** Without colspans a row is as wide as its number of cells. */
  lemma {:induction false} PlainRowWidth(row: Row)
    requires PlainCells(row)
    ensures RowWidth(row) == Some(|row|)
  {
    if row != [] {
      assert PlainCells(row[1..]) by {
        forall m | 0 <= m < |row[1..]| ensures row[1..][m] == row[m + 1] { }
      }
      PlainRowWidth(row[1..]);
    }
  }

  /** The blocks a plain row writes: one 1x1 block per cell, left to right from column `col`. */
  function PlainBlocks(rowIdx: nat, col: nat, cells: seq<Cell>): seq<Block>
    decreases |cells|
  {
    if cells == [] then [] else [Block(rowIdx, col, 1, 1, cells[0])] + PlainBlocks(rowIdx, col + 1, cells[1..])
  }

  /** A plain row on a free stretch of its grid row writes its cells side by side. */
  lemma {:induction false} PlainPlaceCells(blocks: seq<Block>, cells: seq<Cell>, rowIdx: nat, col: nat, maxCols: nat)
    requires PlainCells(cells) && col + |cells| <= maxCols
    requires forall c :: col <= c ==> !Occupied(blocks, rowIdx, c)
    ensures PlaceCells(blocks, cells, rowIdx, col, maxCols) == Some(blocks + PlainBlocks(rowIdx, col, cells))
    decreases |cells|
  {
    if cells == [] {
      assert blocks + [] == blocks;
    } else {
      assert NextFree(blocks, rowIdx, col, maxCols) == col;
      PlaceCellsWrites(blocks, cells, rowIdx, col, maxCols, 1, 1);
      var b := Block(rowIdx, col, 1, 1, cells[0]);
      forall c | col + 1 <= c
        ensures !Occupied(blocks + [b], rowIdx, c)
      {
        Write(blocks, b, rowIdx, c);
      }
      assert PlainCells(cells[1..]) by {
        forall m | 0 <= m < |cells[1..]| ensures cells[1..][m] == cells[m + 1] { }
      }
      PlainPlaceCells(blocks + [b], cells[1..], rowIdx, col + 1, maxCols);
      assert blocks + [b] + PlainBlocks(rowIdx, col + 1, cells[1..]) == blocks + PlainBlocks(rowIdx, col, cells);
    }
  }

  /** After a plain row's blocks, its grid row shows the cells' texts from column `col` on. */
  lemma {:induction false} PlainBlocksText(blocks: seq<Block>, cells: seq<Cell>, rowIdx: nat, col: nat, i: int, j: int)
    ensures TextAt(blocks + PlainBlocks(rowIdx, col, cells), i, j) ==
      if i == rowIdx && col <= j < col + |cells| then CellText(cells[j - col]) else TextAt(blocks, i, j)
    decreases |cells|
  {
    if cells == [] {
      assert blocks + [] == blocks;
    } else {
      var b := Block(rowIdx, col, 1, 1, cells[0]);
      assert blocks + PlainBlocks(rowIdx, col, cells) == (blocks + [b]) + PlainBlocks(rowIdx, col + 1, cells[1..]);
      PlainBlocksText(blocks + [b], cells[1..], rowIdx, col + 1, i, j);
      Write(blocks, b, i, j);
      if i == rowIdx && col + 1 <= j < col + |cells| {
        assert cells[1..][j - (col + 1)] == cells[j - col];
      }
    }
  }

  lemma {:induction false} PlainBlocksRows(rowIdx: nat, col: nat, cells: seq<Cell>)
    ensures forall m :: 0 <= m < |PlainBlocks(rowIdx, col, cells)| ==>
      PlainBlocks(rowIdx, col, cells)[m].row == rowIdx && PlainBlocks(rowIdx, col, cells)[m].rowspan == 1
    decreases |cells|
  {
    if cells != [] {
      PlainBlocksRows(rowIdx, col + 1, cells[1..]);
    }
  }

  /** Blocks that all end above row `i` leave row `i` free. */
  lemma {:induction false} BlocksAboveLeaveRowFree(blocks: seq<Block>, i: int, j: int)
    requires forall m :: 0 <= m < |blocks| ==> blocks[m].row + blocks[m].rowspan <= i
    ensures !Occupied(blocks, i, j)
    decreases |blocks|
  {
    if blocks != [] {
      BlocksAboveLeaveRowFree(blocks[..|blocks| - 1], i, j);
    }
  }

  /** Rows `0..k` of a plain table are laid out: single-row blocks above `k`, each row showing its cells. */
  ghost predicate PlainPlaced(blocks: seq<Block>, rows: seq<Row>, k: nat)
    requires k <= |rows|
  {
    && (forall m :: 0 <= m < |blocks| ==> blocks[m].row < k && blocks[m].rowspan == 1)
    && (forall i, j :: 0 <= i < k ==> TextAt(blocks, i, j) == PlainText(rows, i, j))
  }

  lemma {:induction false} PlainPlaceRows(blocks: seq<Block>, rows: seq<Row>, k: nat, maxCols: nat)
    requires k <= |rows| && PlainTable(rows) && PlainPlaced(blocks, rows, k)
    requires forall i :: 0 <= i < |rows| ==> |rows[i]| <= maxCols
    ensures PlaceRows(blocks, rows, k, maxCols).Some?
    ensures PlainPlaced(PlaceRows(blocks, rows, k, maxCols).value, rows, |rows|)
    decreases |rows| - k
  {
    if k < |rows| {
      forall c | 0 <= c
        ensures !Occupied(blocks, k, c)
      {
        BlocksAboveLeaveRowFree(blocks, k, c);
      }
      PlainPlaceCells(blocks, rows[k], k, 0, maxCols);
      var more := PlainBlocks(k, 0, rows[k]);
      var next := blocks + more;
      PlainBlocksRows(k, 0, rows[k]);
      forall i, j | 0 <= i < k + 1
        ensures TextAt(next, i, j) == PlainText(rows, i, j)
      {
        PlainBlocksText(blocks, rows[k], k, 0, i, j);
        if i == k {
          BlocksAboveLeaveRowFree(blocks, k, j);
          UnoccupiedIsEmpty(blocks, k, j);
        }
      }
      assert PlainPlaced(next, rows, k + 1);
      PlainPlaceRows(next, rows, k + 1, maxCols);
    }
  }

  /**
   * A table without span attributes comes out as its own cells' texts:
   * `grid[i][j]` is the text of cell `j` of row `i`, and "" to the right of
   * a row shorter than the widest one.
   */
  lemma PlainTableGrid(rows: seq<Row>)
    requires rows != [] && PlainTable(rows)
    ensures var g := GridOf(rows);
      && MaxColumns(rows).Some? && IsGrid(g, |rows|, MaxColumns(rows).value)
      && forall i, j :: 0 <= i < |rows| && 0 <= j < |g[i]| ==> g[i][j] == PlainText(rows, i, j)
  {
    forall i | 0 <= i < |rows| ensures RowWidth(rows[i]) == Some(|rows[i]|) {
      PlainRowWidth(rows[i]);
    }
    var maxCols := MaxColumns(rows).value;
    PlainPlaceRows([], rows, 0, maxCols);
  }

  // ---------------------------------------------------------------------
  // Overlapping spans

  const exampleX := Cell("X", Missing, Missing)
  const exampleA := Cell("A", Num(2), Missing)
  const exampleC := Cell("C", Missing, Num(2))
  const exampleRows: seq<Row> := [[exampleX, exampleA], [exampleC]]
  const exampleBlocks: seq<Block> :=
    [Block(0, 0, 1, 1, exampleX), Block(0, 1, 2, 1, exampleA), Block(1, 0, 1, 2, exampleC)]

  lemma ExampleWidth()
    ensures MaxColumns(exampleRows) == Some(2)
  {
    var r0: Row, r1: Row := [exampleX, exampleA], [exampleC];
    var one: seq<Row> := [r0];
    assert RowWidth([exampleA]) == Some(1) by { assert [exampleA][1..] == []; }
    assert RowWidth(r0) == Some(2) by { assert r0[1..] == [exampleA]; }
    assert RowWidth(r1) == Some(2) by { assert r1[1..] == []; }
    assert exampleRows[..1] == one;
    assert MaxColumns(one) == Some(2) by { assert |one[..0]| == 0; }
  }

  lemma ExampleLayout()
    ensures Layout(exampleRows, 2) == Some(exampleBlocks)
  {
    var bx, ba, bc := exampleBlocks[0], exampleBlocks[1], exampleBlocks[2];
    var e: seq<Block> := [];
    assert NextFree(e, 0, 0, 2) == 0;
    assert NextFree(e + [bx], 0, 1, 2) == 1 by { Write(e, bx, 0, 1); }
    PlaceCellsWrites(e, [exampleX, exampleA], 0, 0, 2, 1, 1);
    assert [exampleX, exampleA][1..] == [exampleA];
    PlaceCellsWrites(e + [bx], [exampleA], 0, 1, 2, 2, 1);
    assert [exampleA][1..] == [];
    var row0 := e + [bx] + [ba];
    assert PlaceCells(e, exampleRows[0], 0, 0, 2) == Some(row0);
    assert !Occupied(row0, 1, 0) by { Write(e + [bx], ba, 1, 0); Write(e, bx, 1, 0); }
    assert NextFree(row0, 1, 0, 2) == 0;
    PlaceCellsWrites(row0, [exampleC], 1, 0, 2, 1, 2);
    assert [exampleC][1..] == [];
    assert PlaceCells(row0, exampleRows[1], 1, 0, 2) == Some(row0 + [bc]);
    assert PlaceRows(row0 + [bc], exampleRows, 2, 2) == Some(row0 + [bc]);
    assert PlaceRows(row0, exampleRows, 1, 2) == Some(row0 + [bc]);
    assert PlaceRows(e, exampleRows, 0, 2) == Some(row0 + [bc]);
    assert row0 + [bc] == exampleBlocks;
  }

  lemma ExampleTexts()
    ensures TextAt(exampleBlocks, 0, 0) == "X" && TextAt(exampleBlocks, 0, 1) == "A"
    ensures TextAt(exampleBlocks, 1, 0) == "C" && TextAt(exampleBlocks, 1, 1) == "C"
  {
    var bx, ba, bc := exampleBlocks[0], exampleBlocks[1], exampleBlocks[2];
    var e: seq<Block> := [];
    assert exampleBlocks == e + [bx] + [ba] + [bc];
    StripWithoutSpace("X");
    StripWithoutSpace("A");
    StripWithoutSpace("C");
    Write(e + [bx] + [ba], bc, 0, 0); Write(e + [bx], ba, 0, 0); Write(e, bx, 0, 0);
    Write(e + [bx] + [ba], bc, 0, 1); Write(e + [bx], ba, 0, 1);
    Write(e + [bx] + [ba], bc, 1, 0);
    Write(e + [bx] + [ba], bc, 1, 1);
  }

  /**
   * Cells are not kept from overlapping: a colspan reaching into a position
   * a rowspan from above already occupies writes over it. With row 0 =
   * [X, A (rowspan 2)] and row 1 = [C (colspan 2)], C is placed at column 0
   * and covers column 1 of row 1 as well, replacing A there.
   */
  lemma OverlapOverwrites()
    ensures GridOf(exampleRows) == [["X", "A"], ["C", "C"]]
  {
    ExampleWidth();
    ExampleLayout();
    ExampleTexts();
    MatrixExt(GridOf(exampleRows), [["X", "A"], ["C", "C"]], 2, 2);
  }
}
