/**
 * The detail-page scraper (src/infra/adapters/web/detail_scraper_impl.py and
 * its older twin src/infra/adapters/parsers/detail_parser.py, whose parsing
 * methods are the same line for line).
 *
 * The browser is abstracted away: a key-value table is a `Lookup` from a
 * label to the text of the cell next to it ("N/A" when there is none), each
 * table-finding strategy is the table it finds or None, and a detail page
 * is those inputs or a failed navigation.
 */
module DetailScraper {
  import opened Wrappers
  import opened Strings
  import opened TextParsers
  import opened GridBuilder
  import opened StockModels

  const NA: string := "N/A"

  // ---------------------------------------------------------------------
  // Locating the shareholder table

  /** A table-finding strategy's outcome: the rows of the table it found, or None. */
  type Found = Option<seq<Row>>

  /** `_find_shareholder_table`: the table of the first strategy that finds one, in list order. */
  function FindShareholderTable(strategies: seq<Found>): (r: Found)
    ensures r.None? <==> forall i :: 0 <= i < |strategies| ==> strategies[i].None?
    ensures r.Some? ==> exists i :: FirstFound(strategies, i) && strategies[i] == r
  {
    if strategies == [] then None
    else if strategies[0].Some? then
      assert FirstFound(strategies, 0);
      strategies[0]
    else
      var r := FindShareholderTable(strategies[1..]);
      assert forall i :: 1 <= i < |strategies| ==> strategies[i] == strategies[1..][i - 1];
      if r.Some? then
        var i :| FirstFound(strategies[1..], i) && strategies[1..][i] == r;
        assert FirstFound(strategies, i + 1);
        r
      else r
  }

  /** Strategy `i` finds a table and every strategy before it finds none. */
  predicate FirstFound(strategies: seq<Found>, i: int) {
    0 <= i < |strategies| && strategies[i].Some? && forall k :: 0 <= k < i ==> strategies[k].None?
  }

  // ---------------------------------------------------------------------
  // The header search

  /** A cell whose text mentions both "유통가능" and "물량". */
  predicate HasTradableLabel(text: string) {
    Contains(text, "유통가능") && Contains(text, "물량")
  }

  /** The header rows searched: the first five, or all if there are fewer. */
  function HeaderRows(grid: Matrix<string>): nat {
    if |grid| < 5 then |grid| else 5
  }

  /** The first column at or after `j` whose cell carries the label. */
  function FirstLabelIn(row: seq<string>, j: nat): (r: Option<nat>)
    ensures r.Some? ==>
      && j <= r.value < |row| && HasTradableLabel(row[r.value])
      && forall k :: j <= k < r.value ==> !HasTradableLabel(row[k])
    ensures r.None? ==> forall k :: j <= k < |row| ==> !HasTradableLabel(row[k])
    decreases |row| - j
  {
    if j >= |row| then None
    else if HasTradableLabel(row[j]) then Some(j)
    else FirstLabelIn(row, j + 1)
  }

  /**
   * The row-major scan of header rows `i..`: the position (row, column) of
   * the first labelled cell, or None.
   */
  function HeaderFrom(grid: Matrix<string>, i: nat): (r: Option<(nat, nat)>)
    ensures r.Some? ==>
      && i <= r.value.0 < HeaderRows(grid) && r.value.1 < |grid[r.value.0]|
      && HasTradableLabel(grid[r.value.0][r.value.1])
      && (forall k, j :: i <= k < r.value.0 && 0 <= j < |grid[k]| ==> !HasTradableLabel(grid[k][j]))
      && (forall j :: 0 <= j < r.value.1 ==> !HasTradableLabel(grid[r.value.0][j]))
    ensures r.None? ==>
      forall k, j :: i <= k < HeaderRows(grid) && 0 <= j < |grid[k]| ==> !HasTradableLabel(grid[k][j])
    decreases 5 - i
  {
    if i >= HeaderRows(grid) then None
    else match FirstLabelIn(grid[i], 0)
      case Some(c) => Some((i, c))
      case None => HeaderFrom(grid, i + 1)
  }

  /**
   * `_find_tradable_column_in_header`: the column of the first labelled cell
   * of the header rows, scanned row by row; None exactly when no header
   * cell carries the label.
   */
  function FindTradableColumnInHeader(grid: Matrix<string>): (r: Option<nat>)
    ensures r.None? <==>
      forall k, j :: 0 <= k < HeaderRows(grid) && 0 <= j < |grid[k]| ==> !HasTradableLabel(grid[k][j])
    ensures r.Some? ==> exists k :: 0 <= k < HeaderRows(grid) && r.value < |grid[k]| && HasTradableLabel(grid[k][r.value])
  {
    match HeaderFrom(grid, 0)
    case None => None
    case Some(p) => Some(p.1)
  }

  // ---------------------------------------------------------------------
  // The merged header run and its sub-columns

  /** The end of the run of cells equal to `v` that starts at `k`. */
  function RunEnd(row: seq<string>, v: string, k: nat): (e: nat)
    requires k < |row|
    ensures k <= e < |row|
    decreases |row| - k
  {
    if k < |row| - 1 && row[k + 1] == v then RunEnd(row, v, k + 1) else k
  }

  /**
   * `_calculate_colspan_range`: the last column of the run of cells equal to
   * `grid[row][col]` that starts at `col` (the extent of a merged header).
   */
  method CalculateColspanRange(grid: Matrix<string>, row: nat, col: nat) returns (colspanEnd: nat)
    requires row < |grid| && col < |grid[row]|
    ensures col <= colspanEnd < |grid[row]|
    ensures forall k :: col <= k <= colspanEnd ==> grid[row][k] == grid[row][col]
    ensures colspanEnd == |grid[row]| - 1 || grid[row][colspanEnd + 1] != grid[row][col]
    ensures colspanEnd == RunEnd(grid[row], grid[row][col], col)
  {
    colspanEnd := col;
    var cellValue := grid[row][col];
    while colspanEnd < |grid[row]| - 1 && grid[row][colspanEnd + 1] == cellValue
      invariant col <= colspanEnd < |grid[row]|
      invariant forall k :: col <= k <= colspanEnd ==> grid[row][k] == cellValue
      invariant RunEnd(grid[row], cellValue, colspanEnd) == RunEnd(grid[row], cellValue, col)
      decreases |grid[row]| - colspanEnd
    {
      colspanEnd := colspanEnd + 1;
    }
  }

  /** The run end is the one column where the run of equal cells stops. */
  lemma {:induction false} RunEndIsMaximal(row: seq<string>, k: nat)
    requires k < |row|
    ensures var e := RunEnd(row, row[k], k);
      && (forall m :: k <= m <= e ==> row[m] == row[k])
      && (e == |row| - 1 || row[e + 1] != row[k])
  {
    RunEndFrom(row, row[k], k);
  }

  lemma {:induction false} RunEndFrom(row: seq<string>, v: string, k: nat)
    requires k < |row|
    ensures var e := RunEnd(row, v, k);
      && (forall m :: k < m <= e ==> row[m] == v)
      && (e == |row| - 1 || row[e + 1] != v)
    decreases |row| - k
  {
    if k < |row| - 1 && row[k + 1] == v {
      RunEndFrom(row, v, k + 1);
    }
  }

  /**
   * A sub-header naming a share count or a percentage: its stripped text is
   * not a dash placeholder and mentions "주식수", "주식", "지분율" or "%".
   */
  predicate IsSubLabel(text: string) {
    SubLabelText(Strip(text))
  }

  predicate SubLabelText(sub: string) {
    && sub != "" && sub != "-" && sub != "\U{3000}"
    && (Contains(sub, "주식수") || Contains(sub, "주식") || Contains(sub, "지분율") || Contains(sub, "%"))
  }

  /** The columns `lo..hi-1` of `row` whose cells are sub-labels, in increasing order. */
  function SubLabelColumns(row: seq<string>, lo: nat, hi: nat): seq<nat>
    requires hi <= |row|
    decreases hi - lo
  {
    if lo >= hi then []
    else (if IsSubLabel(row[lo]) then [lo] else []) + SubLabelColumns(row, lo + 1, hi)
  }

  predicate StrictlyIncreasing(s: seq<nat>) {
    forall a, b :: 0 <= a < b < |s| ==> s[a] < s[b]
  }

  /** `SubLabelColumns` holds exactly the sub-label columns of the range, increasing. */
  lemma SubLabelColumnsExact(row: seq<string>, lo: nat, hi: nat)
    requires hi <= |row|
    ensures var s := SubLabelColumns(row, lo, hi);
      && StrictlyIncreasing(s)
      && forall k :: k in s <==> lo <= k < hi && IsSubLabel(row[k])
  {
    SubLabelColumnsMembers(row, lo, hi);
    SubLabelColumnsIncreasing(row, lo, hi);
  }

  lemma {:induction false} SubLabelColumnsMembers(row: seq<string>, lo: nat, hi: nat)
    requires hi <= |row|
    ensures forall k :: k in SubLabelColumns(row, lo, hi) <==> lo <= k < hi && IsSubLabel(row[k])
    decreases hi - lo
  {
    if lo < hi {
      SubLabelColumnsMembers(row, lo + 1, hi);
    }
  }

  lemma {:induction false} SubLabelColumnsIncreasing(row: seq<string>, lo: nat, hi: nat)
    requires hi <= |row|
    ensures StrictlyIncreasing(SubLabelColumns(row, lo, hi))
    decreases hi - lo
  {
    if lo < hi {
      SubLabelColumnsIncreasing(row, lo + 1, hi);
      SubLabelColumnsMembers(row, lo + 1, hi);
      var rest := SubLabelColumns(row, lo + 1, hi);
      var s := SubLabelColumns(row, lo, hi);
      if s != rest {
        assert s == [lo] + rest;
        forall a, b | 0 <= a < b < |s| ensures s[a] < s[b] {
          if a == 0 {
            assert s[b] == rest[b - 1] && s[b] in rest;
          } else {
            assert s[a] == rest[a - 1] && s[b] == rest[b - 1];
          }
        }
      }
    }
  }

  function Min(a: int, b: int): int {
    if a < b then a else b
  }

  /**
   * `_find_sub_columns` for a header at (`r`, `c`): the sub-label columns of
   * the next row under the header's run, or `[c, c + 1]` when there is no
   * next row or none of its cells qualifies.
   */
  function SubColumns(grid: Matrix<string>, r: nat, c: nat): seq<nat>
    requires r < |grid| && c < |grid[r]|
  {
    if r + 1 >= |grid| then [c, c + 1]
    else
      var next := grid[r + 1];
      var hi := Min(RunEnd(grid[r], grid[r][c], c) + 1, |next|);
      var s := if hi < 0 then [] else SubLabelColumns(next, c, hi);
      if s == [] then [c, c + 1] else s
  }

  /**
   * The sub-columns are never empty and increase; unless they are the
   * `[c, c + 1]` fallback, they are exactly the sub-label cells of the next
   * row lying under the header's merged run.
   */
  lemma SubColumnsProperties(grid: Matrix<string>, r: nat, c: nat)
    requires r < |grid| && c < |grid[r]|
    ensures var s := SubColumns(grid, r, c);
      && s != [] && StrictlyIncreasing(s)
      && (s == [c, c + 1] || (r + 1 < |grid| && forall k :: k in s <==>
            c <= k <= RunEnd(grid[r], grid[r][c], c) && k < |grid[r + 1]| && IsSubLabel(grid[r + 1][k])))
  {
    if r + 1 < |grid| {
      var hi := Min(RunEnd(grid[r], grid[r][c], c) + 1, |grid[r + 1]|);
      SubLabelColumnsExact(grid[r + 1], c, hi);
    }
  }

  /** The loop of `_find_sub_columns`, appending each qualifying column in turn. */
  method FindSubColumns(grid: Matrix<string>, headerRow: nat, headerCol: nat) returns (subCols: seq<nat>)
    requires headerRow < |grid| && headerCol < |grid[headerRow]|
    ensures subCols == SubColumns(grid, headerRow, headerCol)
  {
    if headerRow + 1 >= |grid| {
      return [headerCol, headerCol + 1];
    }
    var nextRow := grid[headerRow + 1];
    var colspanEnd := CalculateColspanRange(grid, headerRow, headerCol);
    var hi := Min(colspanEnd + 1, |nextRow|);
    subCols := [];
    if hi > headerCol {
      subCols := CollectSubLabels(nextRow, headerCol, hi);
    }
    if subCols == [] {
      subCols := [headerCol, headerCol + 1];
    }
  }

  /** The `for col in range(lo, hi)` loop of `_find_sub_columns`. */
  method CollectSubLabels(nextRow: seq<string>, lo: nat, hi: nat) returns (subCols: seq<nat>)
    requires lo <= hi <= |nextRow|
    ensures subCols == SubLabelColumns(nextRow, lo, hi)
  {
    subCols := [];
    for col := lo to hi
      invariant subCols + SubLabelColumns(nextRow, col, hi) == SubLabelColumns(nextRow, lo, hi)
    {
      ghost var before, rest := subCols, SubLabelColumns(nextRow, col + 1, hi);
      var subCell := Strip(nextRow[col]);
      if subCell != "" && subCell != "-" && subCell != "\U{3000}" {
        if Contains(subCell, "주식수") || Contains(subCell, "주식") {
          subCols := subCols + [col];
        } else if Contains(subCell, "지분율") || Contains(subCell, "%") {
          subCols := subCols + [col];
        }
      }
      ghost var piece: seq<nat> := if SubLabelText(subCell) then [col] else [];
      assert subCols == before + piece;
      assert before + (piece + rest) == subCols + rest;
    }
  }

  // ---------------------------------------------------------------------
  // _find_tradable_columns

  /**
   * The second scan of `_find_tradable_columns`, from header row `i` on:
   * the sub-columns under the first row whose cell in column `c` carries the
   * label, `[c, c + 1]` if none does, and None where a row shorter than
   * `c + 1` makes `grid[row][c]` raise.
   */
  function RescanColumn(grid: Matrix<string>, c: nat, i: nat): Option<seq<nat>>
    decreases 5 - i
  {
    if i >= HeaderRows(grid) then Some([c, c + 1])
    else if c >= |grid[i]| then None
    else if HasTradableLabel(grid[i][c]) then Some(SubColumns(grid, i, c))
    else RescanColumn(grid, c, i + 1)
  }

  /**
   * `_find_tradable_columns`: `[]` (inside Some) when no header carries the
   * label, the sub-columns of the header otherwise; None stands for the
   * `IndexError` of the second scan, which the caller turns into "N/A".
   */
  function TradableColumns(grid: Matrix<string>): Option<seq<nat>> {
    match FindTradableColumnInHeader(grid)
    case None => Some([])
    case Some(c) => RescanColumn(grid, c, 0)
  }

  method FindTradableColumns(grid: Matrix<string>) returns (cols: Option<seq<nat>>)
    ensures cols == TradableColumns(grid)
  {
    var headerCol := FindTradableColumnInHeader(grid);
    if headerCol.None? {
      return Some([]);
    }
    var c := headerCol.value;
    var rows := if |grid| < 5 then |grid| else 5;
    for rowIdx := 0 to rows
      invariant RescanColumn(grid, c, rowIdx) == TradableColumns(grid)
    {
      if c >= |grid[rowIdx]| {
        return None;
      }
      if HasTradableLabel(grid[rowIdx][c]) {
        var subCols := FindSubColumns(grid, rowIdx, c);
        return Some(subCols);
      }
    }
    return Some([c, c + 1]);
  }

  lemma {:induction false} RescanBeforeHeader(grid: Matrix<string>, r0: nat, c: nat, i: nat)
    requires i <= r0 < HeaderRows(grid) && c < |grid[r0]| && HasTradableLabel(grid[r0][c])
    requires forall k, j :: i <= k < r0 && 0 <= j < |grid[k]| ==> !HasTradableLabel(grid[k][j])
    ensures RescanColumn(grid, c, i) == if exists k :: i <= k < r0 && |grid[k]| <= c then None
                                       else Some(SubColumns(grid, r0, c))
    decreases r0 - i
  {
    if i < r0 && c < |grid[i]| {
      RescanBeforeHeader(grid, r0, c, i + 1);
      assert (exists k :: i <= k < r0 && |grid[k]| <= c) <==> (exists k :: i + 1 <= k < r0 && |grid[k]| <= c);
    }
  }

  /**
   * The columns come from the header's own row: the result is the header's
   * sub-columns, unless a row above the header is too short for the header's
   * column (the `IndexError` case). The `[c, c + 1]` fallback after the
   * second scan is never reached, and `[]` means exactly "no header".
   */
  lemma TradableColumnsOfHeader(grid: Matrix<string>)
    ensures TradableColumns(grid) == Some([]) <==> FindTradableColumnInHeader(grid).None?
    ensures HeaderFrom(grid, 0).Some? ==>
      var r0, c := HeaderFrom(grid, 0).value.0, HeaderFrom(grid, 0).value.1;
      && (TradableColumns(grid).None? <==> exists k :: 0 <= k < r0 && |grid[k]| <= c)
      && (TradableColumns(grid).Some? ==> TradableColumns(grid) == Some(SubColumns(grid, r0, c)))
  {
    if HeaderFrom(grid, 0).Some? {
      var r0, c := HeaderFrom(grid, 0).value.0, HeaderFrom(grid, 0).value.1;
      RescanBeforeHeader(grid, r0, c, 0);
      SubColumnsProperties(grid, r0, c);
    }
  }

  /** On a rectangular grid, such as the builder produces, the second scan never raises. */
  lemma RectangularNeverRaises(grid: Matrix<string>, numCols: nat)
    requires IsGrid(grid, |grid|, numCols)
    ensures TradableColumns(grid).Some?
  {
    TradableColumnsOfHeader(grid);
  }

  // ---------------------------------------------------------------------
  // Reading the values

  /** `x` is "N/A" or the stripped text of the last row at one of the first two columns. */
  predicate FromLastRow(x: string, lastRow: seq<string>, cols: seq<nat>) {
    x == NA || exists k :: 0 <= k < 2 && k < |cols| && cols[k] < |lastRow| && x == Strip(lastRow[cols[k]])
  }

  /** The stripped last-row cell at `cols[k]`, or "N/A" when there is no such index or cell. */
  function Slot(lastRow: seq<string>, cols: seq<nat>, k: nat): (r: string)
    ensures k < |cols| && cols[k] < |lastRow| ==> r == Strip(lastRow[cols[k]])
    ensures k >= |cols| || cols[k] >= |lastRow| ==> r == NA
  {
    if k < |cols| && cols[k] < |lastRow| then Strip(lastRow[cols[k]]) else NA
  }

  /**
   * `_extract_tradable_values`: the count and percent read from the last row
   * at the first two columns, through `clean_tradable_values`. Each value is
   * "N/A" or the stripped text of a last-row cell at one of those columns,
   * and a count ending in "%" comes with a percent ending in "%".
   */
  function ExtractTradableValues(grid: Matrix<string>, cols: seq<nat>): (r: (string, string))
    requires grid != []
    ensures FromLastRow(r.0, grid[|grid| - 1], cols) && FromLastRow(r.1, grid[|grid| - 1], cols)
    ensures var last := grid[|grid| - 1];
      (|cols| == 0 || cols[0] >= |last|) && (|cols| <= 1 || cols[1] >= |last|) ==> r == (NA, NA)
    ensures EndsWith(r.0, "%") ==> EndsWith(r.1, "%")
    ensures var last := grid[|grid| - 1];
      r == CleanTradableValues(Slot(last, cols, 0), Slot(last, cols, 1))
  {
    var lastRow := grid[|grid| - 1];
    CleanTradableValues(Slot(lastRow, cols, 0), Slot(lastRow, cols, 1))
  }

  /**
   * `_parse_shareholder_table` as a function of the strategies' outcomes:
   * ("N/A", "N/A") when no table is found, the grid is empty, no column is
   * found or the column search raises; otherwise the values read from the
   * built grid.
   */
  function ShareholderValues(strategies: seq<Found>): (r: (string, string))
    ensures FindShareholderTable(strategies).None? ==> r == (NA, NA)
    ensures EndsWith(r.0, "%") ==> EndsWith(r.1, "%")
  {
    match FindShareholderTable(strategies)
    case None => (NA, NA)
    case Some(table) =>
      var grid := GridOf(table);
      if grid == [] then (NA, NA)
      else match TradableColumns(grid)
        case None => (NA, NA)
        case Some(cols) => if cols == [] then (NA, NA) else ExtractTradableValues(grid, cols)
  }

  method ParseShareholderTable(strategies: seq<Found>) returns (values: (string, string))
    ensures values == ShareholderValues(strategies)
  {
    var table := FindShareholderTable(strategies);
    if table.None? {
      return (NA, NA);
    }
    var grid := BuildGrid(table.value);
    if grid == [] {
      return (NA, NA);
    }
    var tradableCols := FindTradableColumns(grid);
    if tradableCols.None? || tradableCols.value == [] {
      return (NA, NA);
    }
    return ExtractTradableValues(grid, tradableCols.value);
  }

  /**
   * When a table is found and its grid has a labelled header, the values
   * are read at that header's sub-columns: the builder's grid is
   * rectangular, so the exception path is never taken.
   */
  lemma ShareholderValuesOfHeader(strategies: seq<Found>)
    requires FindShareholderTable(strategies).Some?
    requires GridOf(FindShareholderTable(strategies).value) != []
    requires HeaderFrom(GridOf(FindShareholderTable(strategies).value), 0).Some?
    ensures var grid := GridOf(FindShareholderTable(strategies).value);
      var h := HeaderFrom(grid, 0).value;
      ShareholderValues(strategies) == ExtractTradableValues(grid, SubColumns(grid, h.0, h.1))
  {
    var table := FindShareholderTable(strategies).value;
    var grid := GridOf(table);
    GridShape(table);
    RectangularNeverRaises(grid, MaxColumns(table).value);
    TradableColumnsOfHeader(grid);
    var h := HeaderFrom(grid, 0).value;
    SubColumnsProperties(grid, h.0, h.1);
  }

  // ---------------------------------------------------------------------
  // The key-value tables and the record

  /** A key-value table: the text next to the cell containing a label, "N/A" when there is none. */
  type Lookup = string -> string

  datatype CompanyInfo = CompanyInfo(market: string, sector: string, revenue: string,
                                     profitPreTax: string, netProfit: string, capital: string)

  datatype OfferingInfo = OfferingInfo(totalShares: string, parValue: string, desiredPrice: string,
                                       confirmedPrice: string, offeringAmount: string, underwriter: string)

  datatype ScheduleInfo = ScheduleInfo(listingDate: string, competitionRate: string,
                                       empShares: string, instShares: string, retailShares: string)

  /** `_parse_company_info`: the company overview table read at its six labels. */
  function ParseCompanyInfo(table: Lookup): (r: CompanyInfo)
    ensures r.market == table("시장구분") && r.sector == table("업종")
    ensures r.revenue == table("매출액") && r.profitPreTax == table("법인세비용차감전")
    ensures r.netProfit == table("순이익") && r.capital == table("자본금")
  {
    CompanyInfo(table("시장구분"), table("업종"), table("매출액"),
                table("법인세비용차감전"), table("순이익"), table("자본금"))
  }

  /** `_parse_offering_info`: the offering table read at its six labels. */
  function ParseOfferingInfo(table: Lookup): (r: OfferingInfo)
    ensures r.totalShares == table("총공모주식수") && r.parValue == table("액면가")
    ensures r.desiredPrice == table("희망공모가액") && r.confirmedPrice == table("확정공모가")
    ensures r.offeringAmount == table("공모금액") && r.underwriter == table("주간사")
  {
    OfferingInfo(table("총공모주식수"), table("액면가"), table("희망공모가액"),
                 table("확정공모가"), table("공모금액"), table("주간사"))
  }

  /**
   * `_parse_schedule_info`: the listing date under "신규상장일", falling back
   * to "(상장일" only when that gives "N/A"; the institutional competition
   * rate normalised to "<n>:1" form (a fixed point of the normaliser); and
   * the three share allocations as bare share counts ("0" when empty).
   */
  function ParseScheduleInfo(table: Lookup): (r: ScheduleInfo)
    ensures table("신규상장일") != NA ==> r.listingDate == table("신규상장일")
    ensures table("신규상장일") == NA ==> r.listingDate == table("(상장일")
    ensures FormatCompetitionRate(r.competitionRate) == r.competitionRate
    ensures forall x :: x == r.empShares || x == r.instShares || x == r.retailShares ==>
      x == "0" || (x != "" && NoSpaceAtEnds(x) && ',' !in x && '주' !in x)
    ensures r.competitionRate == FormatCompetitionRate(table("기관경쟁률"))
    ensures r.empShares == ExtractShareCount(table("우리사주조합"), "0")
    ensures r.instShares == ExtractShareCount(table("기관투자자등"), "0")
    ensures r.retailShares == ExtractShareCount(table("일반청약자"), "0")
  {
    var listingDate := if table("신규상장일") == NA then table("(상장일") else table("신규상장일");
    var rate := table("기관경쟁률");
    FormatCompetitionRateIdempotent(rate);
    ScheduleInfo(listingDate, FormatCompetitionRate(rate),
                 ExtractShareCount(table("우리사주조합"), "0"),
                 ExtractShareCount(table("기관투자자등"), "0"),
                 ExtractShareCount(table("일반청약자"), "0"))
  }

  /** `_create_stock_info`: the record assembled from the parsed tables, numbers through `parse_to_int`. */
  function CreateStockInfo(name: string, href: string, company: CompanyInfo, offering: OfferingInfo,
                           schedule: ScheduleInfo, tradable: (string, string)): (r: StockInfo)
    // texts pass through unchanged
    ensures r.name == name && r.url == href
    ensures r.marketSegment == company.market && r.sector == company.sector
    ensures r.desiredPriceRange == offering.desiredPrice && r.underwriter == offering.underwriter
    ensures r.listingDate == schedule.listingDate && r.competitionRate == schedule.competitionRate
    ensures (r.tradableSharesCount, r.tradableSharesPercent) == tradable
    // amounts and counts are read as integers
    ensures r.revenue == ParseToInt(company.revenue) && r.profitPreTax == ParseToInt(company.profitPreTax)
    ensures r.netProfit == ParseToInt(company.netProfit) && r.capital == ParseToInt(company.capital)
    ensures r.totalShares == ParseToInt(offering.totalShares) && r.parValue == ParseToInt(offering.parValue)
    ensures r.confirmedPrice == ParseToInt(offering.confirmedPrice)
    ensures r.offeringAmount == ParseToInt(offering.offeringAmount)
    ensures r.empShares == ParseToInt(schedule.empShares) && r.instShares == ParseToInt(schedule.instShares)
    ensures r.retailShares == ParseToInt(schedule.retailShares)
  {
    StockInfo(
      name, href, company.market, company.sector,
      ParseToInt(company.revenue), ParseToInt(company.profitPreTax), ParseToInt(company.netProfit),
      ParseToInt(company.capital), ParseToInt(offering.totalShares), ParseToInt(offering.parValue),
      offering.desiredPrice, ParseToInt(offering.confirmedPrice), ParseToInt(offering.offeringAmount),
      offering.underwriter, schedule.listingDate, schedule.competitionRate,
      ParseToInt(schedule.empShares), ParseToInt(schedule.instShares), ParseToInt(schedule.retailShares),
      tradable.0, tradable.1)
  }

  /** A detail page: navigation failed, or its three key-value tables and the strategies' outcomes. */
  datatype DetailPage =
    | NavigationFailed
    | Loaded(company: Lookup, offering: Lookup, schedule: Lookup, strategies: seq<Found>)

  /** `_scrape_single` as a function of the page it reaches. */
  function SingleRecord(page: DetailPage, name: string, href: string): (r: Option<StockInfo>)
    ensures r.None? <==> page.NavigationFailed?
    ensures page.Loaded? ==> r.value == CreateStockInfo(name, href, ParseCompanyInfo(page.company),
      ParseOfferingInfo(page.offering), ParseScheduleInfo(page.schedule), ShareholderValues(page.strategies))
  {
    match page
    case NavigationFailed => None
    case Loaded(company, offering, schedule, strategies) =>
      Some(CreateStockInfo(name, href, ParseCompanyInfo(company), ParseOfferingInfo(offering),
                           ParseScheduleInfo(schedule), ShareholderValues(strategies)))
  }

  /**
   * What a scraped record holds: the stock's name and URL; the tradable pair
   * from the shareholder table; a normalised competition rate; and share
   * allocations that are 0 when their cell has no digits before "주".
   */
  lemma SingleRecordFields(page: DetailPage, name: string, href: string)
    ensures SingleRecord(page, name, href).None? <==> page.NavigationFailed?
    ensures page.Loaded? ==>
      var s := SingleRecord(page, name, href).value;
      && s.name == name && s.url == href
      && (s.tradableSharesCount, s.tradableSharesPercent) == ShareholderValues(page.strategies)
      && FormatCompetitionRate(s.competitionRate) == s.competitionRate
      && (page.schedule("신규상장일") != NA ==> s.listingDate == page.schedule("신규상장일"))
      && ((forall i :: 0 <= i < |page.schedule("우리사주조합")| ==>
             IsSpace(page.schedule("우리사주조합")[i]) || page.schedule("우리사주조합")[i] == ',')
          ==> s.empShares == Some(0))
  {
    if page.Loaded? && forall i :: 0 <= i < |page.schedule("우리사주조합")| ==>
         IsSpace(page.schedule("우리사주조합")[i]) || page.schedule("우리사주조합")[i] == ',' {
      EmptyShareCellIsZero(page.schedule("우리사주조합"));
    }
  }

  /** A share cell with nothing but blanks and commas before "주" is read as 0 shares. */
  lemma EmptyShareCellIsZero(raw: string)
    requires forall i :: 0 <= i < |raw| ==> IsSpace(raw[i]) || raw[i] == ','
    ensures ParseToInt(ExtractShareCount(raw, "0")) == Some(0)
  {
    assert IntToString(0) == "0";
    ParseToIntOfIntToString(0);
  }

  method ScrapeSingle(page: DetailPage, name: string, href: string) returns (stock: Option<StockInfo>)
    ensures stock == SingleRecord(page, name, href)
  {
    if page.NavigationFailed? {
      return None;
    }
    var company := ParseCompanyInfo(page.company);
    var offering := ParseOfferingInfo(page.offering);
    var schedule := ParseScheduleInfo(page.schedule);
    var tradable := ParseShareholderTable(page.strategies);
    return Some(CreateStockInfo(name, href, company, offering, schedule, tradable));
  }

  // ---------------------------------------------------------------------
  // scrape_details

  /** One stock's scrape, given which page each URL leads to. */
  function Scraper(visit: string -> DetailPage): Listing -> Option<StockInfo> {
    (stock: Listing) => SingleRecord(visit(stock.1), stock.0, stock.1)
  }

  /** The results of the scrapes that succeeded, in input order. */
  function Collect(stocks: seq<Listing>, scrape: Listing -> Option<StockInfo>): seq<StockInfo> {
    if stocks == [] then []
    else
      Collect(stocks[..|stocks| - 1], scrape) +
        match scrape(stocks[|stocks| - 1])
        case Some(s) => [s]
        case None => []
  }

  /** One more stock adds its record, if its scrape succeeds. */
  lemma CollectStep(stocks: seq<Listing>, k: nat, scrape: Listing -> Option<StockInfo>)
    requires k < |stocks|
    ensures scrape(stocks[k]).Some? ==>
      Collect(stocks[..k + 1], scrape) == Collect(stocks[..k], scrape) + [scrape(stocks[k]).value]
    ensures scrape(stocks[k]).None? ==> Collect(stocks[..k + 1], scrape) == Collect(stocks[..k], scrape)
  {
    assert stocks[..k + 1][..k] == stocks[..k];
  }

  /** Collecting over a list in two parts gives the two parts' results one after the other: order is kept. */
  lemma {:induction false} CollectAppend(a: seq<Listing>, b: seq<Listing>, scrape: Listing -> Option<StockInfo>)
    ensures Collect(a + b, scrape) == Collect(a, scrape) + Collect(b, scrape)
    decreases |b|
  {
    if b == [] {
      assert a + b == a;
    } else {
      var init := b[..|b| - 1];
      assert (a + b)[..|a + b| - 1] == a + init;
      CollectAppend(a, init, scrape);
    }
  }

  /**
   * At most one result per stock, each the successful scrape of some stock
   * of the list; nothing when every scrape fails.
   */
  lemma {:induction false} CollectFromStocks(stocks: seq<Listing>, scrape: Listing -> Option<StockInfo>)
    ensures |Collect(stocks, scrape)| <= |stocks|
    ensures forall s :: s in Collect(stocks, scrape) ==> exists i :: 0 <= i < |stocks| && scrape(stocks[i]) == Some(s)
    ensures (forall i :: 0 <= i < |stocks| ==> scrape(stocks[i]).None?) ==> Collect(stocks, scrape) == []
  {
    if stocks != [] {
      var init := stocks[..|stocks| - 1];
      CollectFromStocks(init, scrape);
      assert forall i :: 0 <= i < |init| ==> init[i] == stocks[i];
    }
  }

  /** Every record carries the name and URL of a stock in the list; failed pages give no record. */
  lemma RecordsFromStocks(stocks: seq<Listing>, visit: string -> DetailPage)
    ensures |Collect(stocks, Scraper(visit))| <= |stocks|
    ensures forall s :: s in Collect(stocks, Scraper(visit)) ==> (s.name, s.url) in stocks
    ensures (forall i :: 0 <= i < |stocks| ==> visit(stocks[i].1).NavigationFailed?) ==>
      Collect(stocks, Scraper(visit)) == []
  {
    var scrape := Scraper(visit);
    CollectFromStocks(stocks, scrape);
    forall s | s in Collect(stocks, scrape)
      ensures (s.name, s.url) in stocks
    {
      var i :| 0 <= i < |stocks| && scrape(stocks[i]) == Some(s);
      SingleRecordFields(visit(stocks[i].1), stocks[i].0, stocks[i].1);
    }
    if forall i :: 0 <= i < |stocks| ==> visit(stocks[i].1).NavigationFailed? {
      forall i | 0 <= i < |stocks| ensures scrape(stocks[i]).None? {
        SingleRecordFields(visit(stocks[i].1), stocks[i].0, stocks[i].1);
      }
    }
  }

  /** `DetailScraperImpl.scrape_details`: one scrape per stock, keeping the successful ones. */
  method ScrapeDetails(stocks: seq<Listing>, visit: string -> DetailPage) returns (results: seq<StockInfo>)
    ensures results == Collect(stocks, Scraper(visit))
  {
    results := [];
    for k := 0 to |stocks|
      invariant results == Collect(stocks[..k], Scraper(visit))
    {
      var name, href := stocks[k].0, stocks[k].1;
      var stock := ScrapeSingle(visit(href), name, href);
      assert Scraper(visit)(stocks[k]) == stock;
      CollectStep(stocks, k, Scraper(visit));
      if stock.Some? {
        results := results + [stock.value];
      }
    }
    assert stocks[..|stocks|] == stocks;
  }

  /**
   * `StockDetailParser.scrape_details`: nothing when the page is missing or
   * closed or there are no stocks, otherwise the same records in the same
   * order as the newer scraper.
   */
  method LegacyScrapeDetails(pageOpen: bool, stocks: seq<Listing>, visit: string -> DetailPage)
    returns (collected: seq<StockInfo>)
    ensures collected == if pageOpen then Collect(stocks, Scraper(visit)) else []
  {
    if !pageOpen {
      return [];
    }
    if stocks == [] {
      return [];
    }
    collected := [];
    for index := 0 to |stocks|
      invariant collected == Collect(stocks[..index], Scraper(visit))
    {
      var stockInfo := ScrapeSingle(visit(stocks[index].1), stocks[index].0, stocks[index].1);
      assert Scraper(visit)(stocks[index]) == stockInfo;
      CollectStep(stocks, index, Scraper(visit));
      if stockInfo.Some? {
        collected := collected + [stockInfo.value];
      }
    }
    assert stocks[..|stocks|] == stocks;
  }
}
