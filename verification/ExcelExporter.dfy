/**
 * `ExcelExporter` (src/infra/adapters/data/excel_exporter.py): one workbook
 * per export, named after the range of years it holds, with one sheet per
 * year and every column widened to fit its header and data.
 *
 * A frame reaches the exporter as its columns, each a header and the
 * column's values as `astype(str)` renders them. Writing the workbook file
 * is not modelled; the model yields what would be written: the file name,
 * and each sheet's name and column widths.
 */
module ExcelExporter {
  import opened Wrappers
  import opened Strings
  import opened TextParsers

  datatype Column = Column(header: string, values: seq<string>)

  /** The export input, `{year: DataFrame}` in insertion order. */
  type YearFrames = seq<(int, seq<Column>)>

  datatype SheetOut = SheetOut(name: string, columnWidths: map<string, int>)

  datatype Workbook = Workbook(fileName: string, sheets: seq<SheetOut>)

  // ---------------------------------------------------------------------
  // The file name

  function Years(data: YearFrames): (r: seq<int>)
    ensures |r| == |data| && forall i :: 0 <= i < |r| ==> r[i] == data[i].0
  {
    if data == [] then [] else [data[0].0] + Years(data[1..])
  }

  /** The first of the sorted years. */
  function MinYear(years: seq<int>): (r: int)
    requires years != []
    ensures r in years && forall y :: y in years ==> r <= y
  {
    if |years| == 1 then years[0]
    else
      var m := MinYear(years[1..]);
      assert years == [years[0]] + years[1..];
      if years[0] <= m then years[0] else m
  }

  /** The last of the sorted years. */
  function MaxYear(years: seq<int>): (r: int)
    requires years != []
    ensures r in years && forall y :: y in years ==> y <= r
  {
    if |years| == 1 then years[0]
    else
      var m := MaxYear(years[1..]);
      assert years == [years[0]] + years[1..];
      if years[0] >= m then years[0] else m
  }

  /** The years part of the file name: one year, or the first and the last joined by `_`. */
  function YearRange(minYear: int, maxYear: int): string {
    if minYear == maxYear then IntToString(minYear)
    else IntToString(minYear) + "_" + IntToString(maxYear)
  }

  function FileName(minYear: int, maxYear: int): (r: string)
    ensures "stock_data_" <= r && EndsWith(r, ".xlsx")
  {
    "stock_data_" + YearRange(minYear, maxYear) + ".xlsx"
  }

  /** The file name `export` writes to, or None when there is nothing to export. */
  function ExportFileName(years: seq<int>): (r: Option<string>)
    ensures r.None? <==> years == []
  {
    if years == [] then None
    else Some(FileName(MinYear(years), MaxYear(years)))
  }

  /** The position of the first `_`, if any. */
  function FirstUnderscore(s: string): (r: Option<nat>)
    ensures r.Some? ==> r.value < |s| && s[r.value] == '_'
  {
    if s == [] then None
    else if s[0] == '_' then Some(0)
    else match FirstUnderscore(s[1..])
      case None => None
      case Some(k) => Some(k + 1)
  }

  /** `str(n)` has no `_`, so the years part has one exactly after the first year when it holds two. */
  lemma {:induction false} UnderscoreOfNumber(t: string, rest: string)
    requires forall i :: 0 <= i < |t| ==> t[i] != '_'
    ensures FirstUnderscore(t + rest) == if FirstUnderscore(rest).None? then None else Some(|t| + FirstUnderscore(rest).value)
  {
    if t != [] {
      assert (t + rest)[1..] == t[1..] + rest;
      UnderscoreOfNumber(t[1..], rest);
    } else {
      assert t + rest == rest;
    }
  }

  lemma YearRangeUnderscore(a: int, b: int)
    ensures FirstUnderscore(YearRange(a, b)) == if a == b then None else Some(|IntToString(a)|)
  {
    UnderscoreOfNumber(IntToString(a), []);
    assert IntToString(a) + [] == IntToString(a);
    if a != b {
      UnderscoreOfNumber(IntToString(a), "_" + IntToString(b));
      assert IntToString(a) + "_" + IntToString(b) == IntToString(a) + ("_" + IntToString(b));
    }
  }

  lemma JoinedNumbersInjective(a: int, b: int, c: int, d: int)
    requires |IntToString(a)| == |IntToString(c)|
    requires IntToString(a) + "_" + IntToString(b) == IntToString(c) + "_" + IntToString(d)
    ensures a == c && b == d
  {
    var ta, tb, tc, td := IntToString(a), IntToString(b), IntToString(c), IntToString(d);
    assert ta + "_" + tb == ta + ("_" + tb) && tc + "_" + td == tc + ("_" + td);
    ConcatCancel(ta, "_" + tb, tc, "_" + td);
    ConcatCancel("_", tb, "_", td);
    IntToStringInjective(a, c);
    IntToStringInjective(b, d);
  }

  /** Different year ranges give different file names: the first and last year can be read back. */
  lemma YearRangeInjective(a: int, b: int, c: int, d: int)
    requires YearRange(a, b) == YearRange(c, d)
    ensures a == c && b == d
  {
    YearRangeUnderscore(a, b);
    YearRangeUnderscore(c, d);
    if a == b {
      assert c == d;
      IntToStringInjective(a, c);
    } else {
      assert c != d;
      JoinedNumbersInjective(a, b, c, d);
    }
  }

  /**
   * The file name is "stock_data_{first}.xlsx" for one year and
   * "stock_data_{first}_{last}.xlsx" otherwise, and it determines the first
   * and last year of the export.
   */
  lemma ExportFileNameDeterminesYears(years1: seq<int>, years2: seq<int>)
    requires years1 != [] && years2 != [] && ExportFileName(years1) == ExportFileName(years2)
    ensures MinYear(years1) == MinYear(years2) && MaxYear(years1) == MaxYear(years2)
  {
    var r1 := YearRange(MinYear(years1), MaxYear(years1));
    var r2 := YearRange(MinYear(years2), MaxYear(years2));
    var n := FileName(MinYear(years1), MaxYear(years1));
    assert r1 == n[11..|n| - 5];
    assert r2 == n[11..|n| - 5];
    YearRangeInjective(MinYear(years1), MaxYear(years1), MinYear(years2), MaxYear(years2));
  }

  /** A single-year export is named after that year alone, with no `_` in its years part. */
  lemma SingleYearFileName(years: seq<int>)
    requires years != [] && forall y :: y in years ==> y == years[0]
    ensures ExportFileName(years) == Some("stock_data_" + IntToString(years[0]) + ".xlsx")
  {
  }

  // ---------------------------------------------------------------------
  // Sheet names

  function SheetName(year: int): (r: string)
    ensures EndsWith(r, "년") && r[..|r| - 1] == IntToString(year)
  {
    IntToString(year) + "년"
  }

  /** Distinct years give distinct sheet names. */
  lemma SheetNameInjective(y1: int, y2: int)
    requires SheetName(y1) == SheetName(y2)
    ensures y1 == y2
  {
    var s := SheetName(y1);
    assert IntToString(y1) == s[..|s| - 1] == IntToString(y2);
    IntToStringInjective(y1, y2);
  }

  // ---------------------------------------------------------------------
  // Column widths

  /** The UTF-8 size of one character. */
  function Utf8Size(c: char): nat {
    if c as int < 0x80 then 1
    else if c as int < 0x800 then 2
    else if c as int < 0x10000 then 3
    else 4
  }

  /** `len(s.encode('utf-8'))`. */
  function Utf8Length(s: string): (n: nat)
    ensures |s| <= n <= 4 * |s|
  {
    if s == [] then 0 else Utf8Length(s[..|s| - 1]) + Utf8Size(s[|s| - 1])
  }

  /** At most the first 50 values are looked at. */
  function Sample(values: seq<string>): (r: seq<string>)
    ensures |r| <= 50 && r <= values
  {
    if |values| <= 50 then values else values[..50]
  }

  /** The largest UTF-8 size among the values. */
  function MaxUtf8(values: seq<string>): nat
    requires values != []
  {
    if |values| == 1 then Utf8Length(values[0])
    else
      var m := MaxUtf8(values[1..]);
      if Utf8Length(values[0]) >= m then Utf8Length(values[0]) else m
  }

  /** The largest size is at least every value's size, and it is the size of one of them. */
  lemma {:induction false} MaxUtf8IsMax(values: seq<string>)
    requires values != []
    ensures forall v :: v in values ==> Utf8Length(v) <= MaxUtf8(values)
    ensures exists v :: v in values && Utf8Length(v) == MaxUtf8(values)
  {
    if |values| == 1 {
      assert values[0] in values;
    } else {
      var rest := values[1..];
      MaxUtf8IsMax(rest);
      assert values == [values[0]] + rest;
      if Utf8Length(values[0]) >= MaxUtf8(rest) {
        assert values[0] in values;
      } else {
        var w :| w in rest && Utf8Length(w) == MaxUtf8(rest);
        assert w in values;
      }
    }
  }

  /** `int(n * 0.8)`: four fifths, truncated. */
  function Scaled(n: nat): nat {
    (4 * n) / 5
  }

  /** The width `_adjust_column_width` gives a column, before clamping: the header or the scaled widest sample. */
  function ContentLength(col: Column): nat {
    var sample := Sample(col.values);
    if sample == [] then |col.header|
    else if |col.header| >= Scaled(MaxUtf8(sample)) then |col.header| else Scaled(MaxUtf8(sample))
  }

  /**
   * The width of a column: between 10 and 50, and unless capped at 50 at
   * least two more than the header's length and than the scaled UTF-8 size
   * of every sampled value; it is the least such width.
   */
  function ColumnWidth(col: Column): (w: int)
    ensures 10 <= w <= 50
  {
    var n := ContentLength(col) + 2;
    if n < 10 then 10 else if n > 50 then 50 else n
  }

  /**
   * Unless capped at 50, a width is at least two more than the header's
   * length and than the scaled UTF-8 size of every sampled value, and it is
   * the least width of at least 10 that is.
   */
  lemma ColumnWidthFits(col: Column)
    ensures ColumnWidth(col) == 50 || ColumnWidth(col) >= |col.header| + 2
    ensures forall v :: v in Sample(col.values) ==> ColumnWidth(col) == 50 || ColumnWidth(col) >= Scaled(Utf8Length(v)) + 2
    ensures ColumnWidth(col) == 10 || ColumnWidth(col) == 50 || ColumnWidth(col) == |col.header| + 2 ||
      exists v :: v in Sample(col.values) && ColumnWidth(col) == Scaled(Utf8Length(v)) + 2
  {
    var sample := Sample(col.values);
    if sample != [] {
      MaxUtf8IsMax(sample);
      forall v | v in sample
        ensures Scaled(Utf8Length(v)) <= Scaled(MaxUtf8(sample))
      {
        ScaledMonotonic(Utf8Length(v), MaxUtf8(sample));
      }
    }
  }

  lemma ScaledMonotonic(m: nat, n: nat)
    requires m <= n
    ensures Scaled(m) <= Scaled(n)
  {
  }

  /** Values after the fiftieth never change a width. */
  lemma WidthIgnoresLaterValues(header: string, values: seq<string>, more: seq<string>)
    requires |values| >= 50
    ensures ColumnWidth(Column(header, values + more)) == ColumnWidth(Column(header, values))
  {
    assert (values + more)[..50] == values[..50];
    if |values| == 50 {
      assert values[..50] == values;
    }
    assert Sample(values + more) == Sample(values);
  }

  // ---------------------------------------------------------------------
  // Column letters

  /** The column key as `_adjust_column_width` writes it: the code point of `chr(65 + idx)`. */
  function ColumnKeyAsWritten(idx: nat): (r: int)
    ensures idx < 26 ==> 'A' as int <= r <= 'Z' as int && [r as char] == ColumnLetter(idx)
    ensures idx >= 26 ==> r > 'Z' as int
  {
    65 + idx
  }

  /** A spreadsheet column name: A..Z, then AA, AB, and so on. */
  function ColumnLetter(idx: nat): (r: string)
    ensures r != []
    decreases idx
  {
    if idx < 26 then [(65 + idx) as char]
    else ColumnLetter(idx / 26 - 1) + [(65 + idx % 26) as char]
  }

  /** A column name is made of the letters A to Z. */
  lemma {:induction false} ColumnLetterIsName(idx: nat)
    ensures forall i :: 0 <= i < |ColumnLetter(idx)| ==> 'A' <= ColumnLetter(idx)[i] <= 'Z'
    decreases idx
  {
    if idx >= 26 {
      ColumnLetterIsName(idx / 26 - 1);
    }
  }

  /** The position a column name stands for. */
  function ColumnIndex(name: string): int
    requires name != []
  {
    if |name| == 1 then name[0] as int - 65
    else (ColumnIndex(name[..|name| - 1]) + 1) * 26 + (name[|name| - 1] as int - 65)
  }

  /** The position can be read back from the column name. */
  lemma {:induction false} ColumnLetterRoundTrip(idx: nat)
    ensures ColumnIndex(ColumnLetter(idx)) == idx
    decreases idx
  {
    if idx >= 26 {
      var q := idx / 26 - 1;
      ColumnLetterRoundTrip(q);
      var r := ColumnLetter(idx);
      assert r[..|r| - 1] == ColumnLetter(q);
    }
  }

  /** Different positions have different column names. */
  lemma ColumnLetterInjective(i: nat, j: nat)
    requires i != j
    ensures ColumnLetter(i) != ColumnLetter(j)
  {
    ColumnLetterRoundTrip(i);
    ColumnLetterRoundTrip(j);
  }

  /** For the first 26 columns the two keys agree. */
  lemma ColumnLetterBelow26(idx: nat)
    requires idx < 26
    ensures ColumnLetter(idx) == [ColumnKeyAsWritten(idx) as char]
  {
  }

  /** The 27th column is keyed `[`, which names no column; its name is AA. */
  lemma ColumnKeyPastZ()
    ensures ColumnKeyAsWritten(26) == '[' as int
    ensures !('A' as int <= ColumnKeyAsWritten(26) <= 'Z' as int)
    ensures ColumnLetter(26) == "AA"
  {
  }

  // ---------------------------------------------------------------------
  // The worksheet

  /** The part of a worksheet the exporter changes: the widths of its columns, by column name. */
  class Worksheet {
    var columnWidths: map<string, int>

    constructor()
      ensures columnWidths == map[]
    {
      columnWidths := map[];
    }
  }

  /** The widths of the first `n` columns, by column name. */
  function Widths(columns: seq<Column>, n: nat): map<string, int>
    requires n <= |columns|
  {
    if n == 0 then map[] else Widths(columns, n - 1)[ColumnLetter(n - 1) := ColumnWidth(columns[n - 1])]
  }

  /** `key` is the name of one of the first `n` columns. */
  ghost predicate NamesColumnBelow(key: string, n: nat) {
    exists i :: 0 <= i < n && key == ColumnLetter(i)
  }

  /** The widths of the first `n` columns are set under the names of those columns and no others. */
  lemma {:induction false} WidthsKeys(columns: seq<Column>, n: nat)
    requires n <= |columns|
    ensures forall i :: 0 <= i < n ==> ColumnLetter(i) in Widths(columns, n)
    ensures forall key :: key in Widths(columns, n) ==> NamesColumnBelow(key, n)
  {
    if n > 0 {
      WidthsKeys(columns, n - 1);
      var prev := Widths(columns, n - 1);
      assert Widths(columns, n) == prev[ColumnLetter(n - 1) := ColumnWidth(columns[n - 1])];
      forall key | key in Widths(columns, n)
        ensures NamesColumnBelow(key, n)
      {
        if key == ColumnLetter(n - 1) {
          assert 0 <= n - 1 < n;
        } else {
          assert key in prev && NamesColumnBelow(key, n - 1);
          var i :| 0 <= i < n - 1 && key == ColumnLetter(i);
          assert 0 <= i < n;
        }
      }
      forall i | 0 <= i < n
        ensures ColumnLetter(i) in Widths(columns, n)
      {
        if i < n - 1 {
          assert ColumnLetter(i) in prev;
        }
      }
    }
  }

  /** Column `i` has its own width under its own name. */
  lemma {:induction false} WidthsAt(columns: seq<Column>, n: nat, i: nat)
    requires i < n <= |columns|
    ensures ColumnLetter(i) in Widths(columns, n)
    ensures Widths(columns, n)[ColumnLetter(i)] == ColumnWidth(columns[i])
  {
    if i < n - 1 {
      WidthsAt(columns, n - 1, i);
      ColumnLetterInjective(i, n - 1);
    }
  }

  /** Every width set is between 10 and 50. */
  lemma {:induction false} WidthsBounded(columns: seq<Column>, n: nat)
    requires n <= |columns|
    ensures forall key :: key in Widths(columns, n) ==> 10 <= Widths(columns, n)[key] <= 50
  {
    if n > 0 {
      WidthsBounded(columns, n - 1);
    }
  }

  lemma MapUnionUpdate<K, V>(m: map<K, V>, w: map<K, V>, k: K, v: V)
    ensures (m + w)[k := v] == m + w[k := v]
  {
  }

  /** The width `_adjust_column_width` computes for one column. */
  method MeasureColumn(col: Column) returns (width: int)
    ensures width == ColumnWidth(col)
  {
    var maxLen := |col.header|;
    var sampleValues := Sample(col.values);
    if sampleValues != [] {
      var maxDataLen := MaxUtf8(sampleValues);
      maxLen := if maxLen >= Scaled(maxDataLen) then maxLen else Scaled(maxDataLen);
    }
    width := maxLen + 2;
    width := if width < 10 then 10 else width;
    width := if width > 50 then 50 else width;
  }

  /** `_adjust_column_width`: set each column's width under its name. */
  method AdjustColumnWidth(ws: Worksheet, columns: seq<Column>)
    modifies ws
    ensures ws.columnWidths == old(ws.columnWidths) + Widths(columns, |columns|)
  {
    for idx := 0 to |columns|
      invariant ws.columnWidths == old(ws.columnWidths) + Widths(columns, idx)
    {
      var width := MeasureColumn(columns[idx]);
      MapUnionUpdate(old(ws.columnWidths), Widths(columns, idx), ColumnLetter(idx), width);
      ws.columnWidths := ws.columnWidths[ColumnLetter(idx) := width];
    }
  }

  // ---------------------------------------------------------------------
  // The export

  /** The sheets written, one per year in insertion order: the year's sheet name and its column widths. */
  function SheetsOf(data: YearFrames): (r: seq<SheetOut>)
    ensures |r| == |data|
  {
    if data == [] then []
    else
      var last := data[|data| - 1];
      SheetsOf(data[..|data| - 1]) + [SheetOut(SheetName(last.0), Widths(last.1, |last.1|))]
  }

  /** `export`: nothing for an empty input; otherwise the file name and the sheets. */
  function ExportWorkbook(data: YearFrames): (r: Option<Workbook>)
    ensures r.None? <==> data == []
  {
    if data == [] then None
    else Some(Workbook(ExportFileName(Years(data)).value, SheetsOf(data)))
  }

  /** One year's sheet: a fresh worksheet named after the year, its columns widened. */
  method WriteSheet(year: int, frame: seq<Column>) returns (sheet: SheetOut)
    ensures sheet == SheetOut(SheetName(year), Widths(frame, |frame|))
  {
    var ws := new Worksheet();
    AdjustColumnWidth(ws, frame);
    assert map[] + Widths(frame, |frame|) == Widths(frame, |frame|);
    sheet := SheetOut(IntToString(year) + "년", ws.columnWidths);
  }

  /** The file name for a non-empty export. */
  method NameFile(years: seq<int>) returns (fileName: string)
    requires years != []
    ensures Some(fileName) == ExportFileName(years)
  {
    var minYear, maxYear := MinYear(years), MaxYear(years);
    if minYear == maxYear {
      fileName := "stock_data_" + IntToString(minYear) + ".xlsx";
    } else {
      fileName := "stock_data_" + (IntToString(minYear) + "_" + IntToString(maxYear)) + ".xlsx";
    }
  }

  /** `export`: the workbook written for the frames, or nothing when there are none. */
  method Export(data: YearFrames) returns (book: Option<Workbook>)
    ensures book == ExportWorkbook(data)
  {
    if data == [] {
      return None;
    }
    var fileName := NameFile(Years(data));
    var sheets: seq<SheetOut> := [];
    for i := 0 to |data|
      invariant sheets == SheetsOf(data[..i])
    {
      assert data[..i + 1][..i] == data[..i];
      var sheet := WriteSheet(data[i].0, data[i].1);
      sheets := sheets + [sheet];
    }
    assert data[..|data|] == data;
    return Some(Workbook(fileName, sheets));
  }

  predicate DistinctYears(data: YearFrames) {
    forall i, j :: 0 <= i < j < |data| ==> data[i].0 != data[j].0
  }

  /** Sheet `i` is named after year `i`. */
  lemma {:induction false} SheetsOfNames(data: YearFrames, i: nat)
    requires i < |data|
    ensures SheetsOf(data)[i].name == SheetName(data[i].0)
  {
    if i < |data| - 1 {
      SheetsOfNames(data[..|data| - 1], i);
    }
  }

  /** The years of a dictionary are distinct, and so are the names of the sheets written for them. */
  lemma SheetNamesDistinct(data: YearFrames)
    requires DistinctYears(data)
    ensures forall i, j :: 0 <= i < j < |data| ==> SheetsOf(data)[i].name != SheetsOf(data)[j].name
  {
    forall i, j | 0 <= i < j < |data|
      ensures SheetsOf(data)[i].name != SheetsOf(data)[j].name
    {
      SheetsOfNames(data, i);
      SheetsOfNames(data, j);
      if SheetName(data[i].0) == SheetName(data[j].0) {
        SheetNameInjective(data[i].0, data[j].0);
      }
    }
  }
}
