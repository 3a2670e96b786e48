# new-stock-crawler: a verified model of the scraping and export core

This project models, in Dafny, the core of a crawler for Korean IPO
listings. The crawler reads the IPO calendar of 38.co.kr month by month and
keeps the listings that are not SPACs. It then visits each stock's detail
page and assembles a `StockInfo` record from the page's key-value tables and
its shareholder table. Finally it turns the records into data frames and
writes them to one Excel workbook, with one sheet per year.

The modules follow the repository's files:

| module | file | models |
|---|---|---|
| `Strings` | (Python built-ins) | `str.strip`, `split(sep)[0]`, `replace`, `in`, `endswith`, `str(int)` |
| `TextParsers` | src/infra/adapters/parsing/text/parsers.py | the text normalisers |
| `GridBuilder` | src/infra/adapters/parsing/html/table_grid_builder.py | the merged-cell table grid, imperative over `array2` |
| `StockModels` | src/domain/models.py | `StockInfo`, `ScrapeReport` |
| `DetailScraper` | src/infra/adapters/web/detail_scraper_impl.py, src/infra/adapters/parsers/detail_parser.py | the column resolver, the value extractor and record assembly |
| `Calendar` | src/infra/adapters/web/calendar_scraper_adapter.py, src/infra/adapters/parsers/calander_parser.py | link filtering and the month pass |
| `DataFrameMapper` | src/infra/adapters/data/dataframe_mapper.py | `to_dataframe` |
| `DataFrameAdapter` | src/infra/adapters/dataframe_adapter.py | `convert_to_dataframe` |
| `ExcelExporter` | src/infra/adapters/data/excel_exporter.py | the file name, sheet names and column widths |

The browser is replaced by values and by functions passed in as
parameters:

- A table cell is its text and its `rowspan`/`colspan` attributes.
- A key-value table is a lookup from label to text.
- A table-finding strategy is the table it finds, or nothing.
- Navigation is a function from URL to page. A page is either a failed
  navigation or the inputs read from it.

Most loops of the source are `method`s with loop invariants, each proved
equal to a specification function; the properties are then proved about
those functions. Three loops are modelled by recursive functions alone,
without a method: the strategy loop of `_find_shareholder_table`
(`DetailScraper.FindShareholderTable`), the nested header scan of
`_find_tradable_column_in_header` (`DetailScraper.HeaderFrom` and
`DetailScraper.FirstLabelIn`) and the separator loop of `parse_to_int`
(`TextParsers.KeepLeftOf`).

Where the code and the repository's own description of it disagree, the
model follows the code:

- **Competition rate rounding.** `format_competition_rate` uses Python's
  `round`, which rounds ties to the even integer. A rate of "1234.5:1"
  therefore becomes "1234:1", not "1235:1", while "1235.5:1" becomes
  "1236:1" (`TextParsers.FormatCompetitionRateOfTie`, and the tie conjunct
  of `TextParsers.FormatCompetitionRate`'s contract).
- **Merged cells can be overwritten.** Nothing stops a later cell's
  colspan from writing over a position that an earlier rowspan already
  fills (`GridBuilder.OverlapOverwrites`). The `occupied` matrix only moves
  the cursor.
- **Column count of the adapter.** The column list of
  `convert_to_dataframe` has 20 entries, not the 19 its comment announces.
- **Width of `int(n * 0.8)`.** This is computed exactly, as `(4 * n) / 5`.

## Model

| member | source | states |
|---|---|---|
| Strings.Strip | src/infra/adapters/parsing/text/parsers.py:11 | `strip()` never lengthens a text and leaves no whitespace at either end |
| Strings.StripIsSlice | src/infra/adapters/parsing/text/parsers.py:11 | `strip()` is a slice of its input; everything cut off before and after it is whitespace |
| Strings.StripWithoutSpace | src/infra/adapters/parsing/text/parsers.py:11 | a text without whitespace is its own `strip()` |
| Strings.StripOfStripped | src/infra/adapters/parsing/text/parsers.py:15 | `strip()` is idempotent on a stripped text |
| Strings.StripChars | src/infra/adapters/parsing/text/parsers.py:11 | `strip()` keeps only characters of its input |
| Strings.StripLeading | src/infra/adapters/parsing/text/parsers.py:11 | leading whitespace does not change `strip()` |
| Strings.StripTrailingBlanks | src/infra/adapters/parsing/text/parsers.py:11 | trailing whitespace does not change `strip()` |
| Strings.StripFramed | src/infra/adapters/parsing/text/parsers.py:11 | `strip()` removes exactly the whitespace around a stripped text |
| Strings.Before | src/infra/adapters/parsing/text/parsers.py:10 | `split(sep)[0]` is a prefix; the separator does not occur before its end, and it starts right after it unless the whole text was taken |
| Strings.BeforeAbsent | src/infra/adapters/parsing/text/parsers.py:10 | without the separator, `split(sep)[0]` is the whole text |
| Strings.BeforeCharExcludes | src/infra/adapters/parsing/text/parsers.py:41 | the part before a one-character separator does not contain it |
| Strings.BeforePrefix | src/infra/adapters/parsing/text/parsers.py:10 | a prefix without the separator stays in front of `split(sep)[0]` |
| Strings.ReplaceAll | src/infra/adapters/parsing/text/parsers.py:11 | replacing by "" never lengthens; a text without the pattern is unchanged |
| Strings.RemoveCharExact | src/infra/adapters/parsing/text/parsers.py:11 | removing a character deletes exactly that character and keeps every other one |
| Strings.RemoveCharAppend | src/infra/adapters/parsing/text/parsers.py:11 | removing a character distributes over concatenation |
| Strings.ReplaceAllSkip | src/infra/adapters/parsing/text/parsers.py:11 | `replace` keeps the text before the first match and replaces that match |
| Strings.ContainsIff | src/infra/adapters/parsing/text/parsers.py:29 | `needle in s` holds exactly when the needle occurs at some position |
| Strings.ContainsChar | src/infra/adapters/parsing/text/parsers.py:29 | a one-character needle is `in` a text exactly when that character occurs in it |
| Strings.NatToString | src/infra/adapters/data/excel_exporter.py:41 | `str(n)` for n ≥ 0 is digits without a leading zero, and it denotes n |
| Strings.IntToString | src/infra/adapters/data/excel_exporter.py:41 | `str(n)` is digits, with a leading `-` exactly for negative n |
| TextParsers.ParseDecimal | src/infra/adapters/parsing/text/parsers.py:17 | an accepted number is well formed, and it is negative exactly when the text starts with `-` |
| TextParsers.ParseDecimalPoint | src/infra/adapters/parsing/text/parsers.py:17 | `float()` accepts "d.f" and "-d.f" for digit strings d and f, not both empty |
| TextParsers.ParseDecimalDigits | src/infra/adapters/parsing/text/parsers.py:17 | `float()` accepts "d" and "-d" for a non-empty digit string d |
| TextParsers.Truncate | src/infra/adapters/parsing/text/parsers.py:17 | `int(float(x))` cuts the fraction off toward zero |
| TextParsers.RoundHalfEven | src/infra/adapters/parsing/text/parsers.py:35 | `round(float(x))` is within 0.5 of the value, and even when the value is halfway |
| TextParsers.RoundTieToEven | src/infra/adapters/parsing/text/parsers.py:35 | m.5 is rounded to m when m is even and to m + 1 otherwise |
| TextParsers.IntToStringParses | src/infra/adapters/parsing/text/parsers.py:17 | `float(str(n))` reads back the digits of n with no fraction |
| TextParsers.StripUnits | src/infra/adapters/parsing/text/parsers.py:10-11 | the cleaned text has no `(`, `,`, `주` or `원` and no whitespace at its ends |
| TextParsers.RemoveUnits | src/infra/adapters/parsing/text/parsers.py:11 | the three `replace` calls remove `,`, `주` and `원` and keep every other character present |
| TextParsers.RemoveUnitsAppend | src/infra/adapters/parsing/text/parsers.py:11 | removing the marks distributes over concatenation |
| TextParsers.StripUnitsCutAtParen | src/infra/adapters/parsing/text/parsers.py:10 | everything from the first `(` on is ignored |
| TextParsers.StripUnitsDropsMark | src/infra/adapters/parsing/text/parsers.py:11 | a `,`, `주` or `원` before the first `(` is ignored |
| TextParsers.StripUnitsOfBare | src/infra/adapters/parsing/text/parsers.py:10-11 | a text without `(` or marks is only stripped |
| TextParsers.StripUnitsAtSeparator | src/infra/adapters/parsing/text/parsers.py:10-11 | a `~` or `:` before the first `(` is kept between the two cleaned sides |
| TextParsers.KeepLeftOf | src/infra/adapters/parsing/text/parsers.py:13-15 | the part kept contains no separator, no outer whitespace, and only characters of its input |
| TextParsers.KeepLeftOfPresent | src/infra/adapters/parsing/text/parsers.py:14-15 | with the separator present, the part kept is the stripped text before it |
| TextParsers.KeepLeftOfJoined | src/infra/adapters/parsing/text/parsers.py:14-15 | text after the first separator is dropped |
| TextParsers.KeepLeftOfStripped | src/infra/adapters/parsing/text/parsers.py:14-15 | after cleaning, the part kept is the stripped text before the first separator |
| TextParsers.CleanNumber | src/infra/adapters/parsing/text/parsers.py:10-15 | the text handed to `float()` has no `(`, `,`, `주`, `원`, `~` or `:` and no outer whitespace |
| TextParsers.CleanNumberOfPlain | src/infra/adapters/parsing/text/parsers.py:10-15 | a plain number text is handed to `float()` unchanged |
| TextParsers.CleanNumberCutAtParen | src/infra/adapters/parsing/text/parsers.py:10-15 | everything from the first `(` on never reaches `float()` |
| TextParsers.CleanNumberDropsMark | src/infra/adapters/parsing/text/parsers.py:10-15 | a `,`, `주` or `원` before the first `(` never reaches `float()` |
| TextParsers.CleanNumberCutAtTilde | src/infra/adapters/parsing/text/parsers.py:10-15 | the upper end of a `~` range never reaches `float()` |
| TextParsers.CleanNumberCutAtColon | src/infra/adapters/parsing/text/parsers.py:13-15 | the right operand of a `:` ratio never reaches `float()` |
| TextParsers.CleanNumberOfRange | src/infra/adapters/parsing/text/parsers.py:10-15 | for "x,y~…" the text handed to `float()` is the stripped "xy" |
| TextParsers.ParseToInt | src/infra/adapters/parsing/text/parsers.py:4-20 | "", "N/A" and "-" give nothing; otherwise a result exactly when the cleaned text is a number, and that result is the number truncated toward zero |
| TextParsers.ParseToIntOfResidue | src/infra/adapters/parsing/text/parsers.py:17 | the result is the cleaned number truncated toward zero |
| TextParsers.ParseToIntOfDigits | src/infra/adapters/parsing/text/parsers.py:17 | cleaned digits give their value |
| TextParsers.ParseToIntOfPoint | src/infra/adapters/parsing/text/parsers.py:17 | "d.f" gives the value of d: the fraction is cut off |
| TextParsers.ParseToIntOfPointAt | src/infra/adapters/parsing/text/parsers.py:17 | the same, for a text given as its parts |
| TextParsers.ParseToIntExampleHalf | tests/unit/adapters/parsing/test_text_parsers.py:39 | `parse_to_int("100.5") == 100` |
| TextParsers.ParseToIntExampleNines | tests/unit/adapters/parsing/test_text_parsers.py:40 | `parse_to_int("99.9") == 99` |
| TextParsers.ParseToIntOfRatioAt | src/infra/adapters/parsing/text/parsers.py:10-17 | "d:…" with d a digit string gives the value of d |
| TextParsers.ParseToIntExampleRatio | tests/unit/adapters/parsing/test_text_parsers.py:38 | `parse_to_int("100:200") == 100` |
| TextParsers.ParseToIntOfRangeAt | src/infra/adapters/parsing/text/parsers.py:10-17 | "x,y~…" with "xy" a number followed by a blank gives that number |
| TextParsers.ParseToIntOfRange | tests/unit/adapters/parsing/test_text_parsers.py:37 | `parse_to_int("5,000 ~ 8,000원") == 5000` |
| TextParsers.ParseToIntOfIntToString | src/infra/adapters/parsing/text/parsers.py:4-20 | `parse_to_int(str(n)) == n` for every integer: the round trip |
| TextParsers.IntToStringInjective | src/infra/adapters/parsing/text/parsers.py:4-20 | distinct integers have distinct `str()` |
| TextParsers.FormerNameEnd | src/infra/adapters/parsing/text/parsers.py:24 | the lazy `.*?)` match ends at the first `)` with no newline before it, and fails exactly when there is none |
| TextParsers.FormerNameEndAt | src/infra/adapters/parsing/text/parsers.py:24 | the match of `.*?)` after "(구." ends at the first `)` |
| TextParsers.RemoveFormerNames | src/infra/adapters/parsing/text/parsers.py:24 | removing `(구. …)` annotations never lengthens a name, and a name without `(` is unchanged |
| TextParsers.RemoveFormerNamesStep | src/infra/adapters/parsing/text/parsers.py:24 | a character that does not start "(구" is kept |
| TextParsers.RemoveFormerNamesPrefix | src/infra/adapters/parsing/text/parsers.py:24 | a prefix without `(` is kept |
| TextParsers.RemoveFormerNamesDrops | src/infra/adapters/parsing/text/parsers.py:24 | an annotation "(구.b)" at the start is removed up to its first `)` |
| TextParsers.RemoveFormerNamesSkip | src/infra/adapters/parsing/text/parsers.py:24 | an annotation after a prefix without `(` is removed, and the prefix kept |
| TextParsers.RemoveFormerNamesOfListingMarker | src/infra/adapters/parsing/text/parsers.py:24 | "(상장)" is not a former-name annotation and is kept |
| TextParsers.CleanStockName | src/infra/adapters/parsing/text/parsers.py:22-25 | the cleaned name has no outer whitespace and is no longer than the raw name |
| TextParsers.CleanStockNameWithoutParens | src/infra/adapters/parsing/text/parsers.py:22-25 | a name without `(` is only stripped |
| TextParsers.FormerNameDropped | src/infra/adapters/parsing/text/parsers.py:22-25 | a "(구.…)" annotation makes no difference to the cleaned name |
| TextParsers.ListingMarkerKept | src/infra/adapters/parsing/text/parsers.py:24 | after the first substitution and strip, "(상장)" is still there |
| TextParsers.ListingMarkerDropped | src/infra/adapters/parsing/text/parsers.py:22-25 | for parts without `(`, "(상장)" is removed and the parts around it joined and stripped; a bare "(상장)" gives "" |
| TextParsers.ListingMarkerDroppedJoined | src/infra/adapters/parsing/text/parsers.py:22-25 | two stripped parts around "(상장)" are joined as they are |
| TextParsers.CleanStockNameOfBlankMarker | src/infra/adapters/parsing/text/parsers.py:22-25 | "a (상장)" is cleaned to "a": the blank before the marker is stripped |
| TextParsers.CleanStockNameOfAnnotated | src/infra/adapters/parsing/text/parsers.py:22-25 | "a(구.b)c" is cleaned to "ac" |
| TextParsers.CleanStockNameOfAnnotatedListed | src/infra/adapters/parsing/text/parsers.py:22-25 | "a(구.b)(상장)" is cleaned to "a" |
| TextParsers.CleanStockNameExampleInside | tests/unit/adapters/parsing/test_text_parsers.py:78 | `clean_stock_name("회사(구.ABC)명") == "회사명"` |
| TextParsers.CleanStockNameExampleMarker | tests/unit/adapters/parsing/test_text_parsers.py:79 | `clean_stock_name("테스트(구.옛이름)(상장)") == "테스트"` |
| TextParsers.CleanStockNameExampleBlank | tests/unit/adapters/parsing/test_text_parsers.py:76 | `clean_stock_name("샘플 (상장)") == "샘플"` |
| TextParsers.IsSpacStock | src/infra/adapters/parsing/text/parsers.py:27-29 | a name is a SPAC exactly when "스팩" occurs in it |
| TextParsers.FormatCompetitionRate | src/infra/adapters/parsing/text/parsers.py:31-37 | an unparsable left operand gives the input back; otherwise "n:1" with n within 0.5 of the operand, and n even when the operand lies halfway between two integers |
| TextParsers.RatePartOfIntRate | src/infra/adapters/parsing/text/parsers.py:34 | the left operand of "n:1" is `str(n)` |
| TextParsers.RatePartOfPlain | src/infra/adapters/parsing/text/parsers.py:34 | the left operand of "t:1" is t, for a t without `:`, `,` or blanks |
| TextParsers.FormatCompetitionRateFixedPoint | src/infra/adapters/parsing/text/parsers.py:31-37 | "n:1" is left as it is |
| TextParsers.FormatCompetitionRateIdempotent | src/infra/adapters/parsing/text/parsers.py:31-37 | formatting a formatted rate changes nothing |
| TextParsers.FormatCompetitionRateOfParsed | src/infra/adapters/parsing/text/parsers.py:34-35 | a parsed left operand gives "n:1" with n its round-half-to-even |
| TextParsers.FormatCompetitionRateOfTie | src/infra/adapters/parsing/text/parsers.py:31-37 | "m.5:1" becomes "m:1" for even m and "(m+1):1" for odd m |
| TextParsers.ExtractShareCount | src/infra/adapters/parsing/text/parsers.py:39-42 | the result is the default or a non-empty, stripped text without `,` or `주`; a text of only blanks and commas gives the default |
| TextParsers.ShareCountAtUnit | src/infra/adapters/parsing/text/parsers.py:41 | everything from the first `주` on is ignored |
| TextParsers.ShareCountCommaIgnored | src/infra/adapters/parsing/text/parsers.py:41 | a `,` before the first `주` is ignored |
| TextParsers.ShareCountWithoutMarks | src/infra/adapters/parsing/text/parsers.py:41-42 | a text without `주` or `,` that is not blank gives its stripped self |
| TextParsers.ShareCountOfNat | src/infra/adapters/parsing/text/parsers.py:39-42 | `extract_share_count(str(n) + "주" + …) == str(n)`: the count round-trips |
| TextParsers.ShareCountOfGroupedAt | src/infra/adapters/parsing/text/parsers.py:39-42 | "x,y주…" with "xy" digits, possibly followed by a blank, gives those digits |
| TextParsers.ShareCountExampleUnit | tests/unit/adapters/parsing/test_text_parsers.py:144 | `extract_share_count("10,000주") == "10000"` |
| TextParsers.ShareCountExampleBlank | tests/unit/adapters/parsing/test_text_parsers.py:145 | `extract_share_count("5,000 주") == "5000"` |
| TextParsers.ShareCountExampleNoDigits | tests/unit/adapters/parsing/test_text_parsers.py:149 | `extract_share_count("주") == "0"`: the default |
| TextParsers.CleanTradableValues | src/infra/adapters/parsing/text/parsers.py:44-56 | the sentinel-mapped pair, swapped exactly when only the count ends in `%`; afterwards a count ending in `%` comes with a percent ending in `%` |
| GridBuilder.RowWidth | src/infra/adapters/parsing/html/table_grid_builder.py:31-32 | a row's width fails exactly when one of its colspans does not parse |
| GridBuilder.MaxColumns | src/infra/adapters/parsing/html/table_grid_builder.py:27-34 | fails exactly on a malformed colspan; otherwise at least every row's width and equal to one of them, or 0 |
| GridBuilder.CalculateMaxColumns | src/infra/adapters/parsing/html/table_grid_builder.py:27-34 | the running-maximum loop computes `MaxColumns` |
| GridBuilder.MaxColumnsNoneExtends | src/infra/adapters/parsing/html/table_grid_builder.py:27-34 | a malformed colspan in some rows makes the whole computation fail |
| GridBuilder.CellText | src/infra/adapters/parsing/html/table_grid_builder.py:81 | a cell's text has no whitespace at either end |
| GridBuilder.CellTextWithoutNbsp | src/infra/adapters/parsing/html/table_grid_builder.py:81 | without a no-break space the text is only stripped |
| GridBuilder.Write | src/infra/adapters/parsing/html/table_grid_builder.py:53-60 | writing a block marks exactly the covered positions occupied and gives them its text; nothing else changes |
| GridBuilder.NextFree | src/infra/adapters/parsing/html/table_grid_builder.py:75-76 | the cursor never moves back and stops on a free column or at the grid edge |
| GridBuilder.NextFreeSkipsOccupied | src/infra/adapters/parsing/html/table_grid_builder.py:75-76 | every column the cursor passes over is occupied |
| GridBuilder.PlaceCellsWrites | src/infra/adapters/parsing/html/table_grid_builder.py:74-86 | a cell is written at the first free column, and the cursor then moves on by its colspan |
| GridBuilder.PlaceCells | src/infra/adapters/parsing/html/table_grid_builder.py:74-86 | laying out a row keeps the blocks already placed; a row without cells adds none |
| GridBuilder.PlaceRows | src/infra/adapters/parsing/html/table_grid_builder.py:19-20 | laying out rows keeps the blocks already placed |
| GridBuilder.GridOf | src/infra/adapters/parsing/html/table_grid_builder.py:9-25 | a grid is produced exactly for a non-empty table whose spans parse and lay out, and it is then `len(rows)` × max_cols |
| GridBuilder.Render | src/infra/adapters/parsing/html/table_grid_builder.py:38 | the grid has the given shape and shows the text of the last block covering each position |
| GridBuilder.Contents | src/infra/adapters/parsing/html/table_grid_builder.py:22 | the array read back as a list of lists |
| GridBuilder.MatrixExt | src/infra/adapters/parsing/html/table_grid_builder.py:22 | two grids of one shape that agree everywhere are equal |
| GridBuilder.InitializeGrid | src/infra/adapters/parsing/html/table_grid_builder.py:36-40 | fresh arrays of the given shape, all "" and nothing occupied |
| GridBuilder.FillCellInGrid | src/infra/adapters/parsing/html/table_grid_builder.py:42-60 | the arrays afterwards show one more block: the clipped rowspan × colspan area at the position |
| GridBuilder.SkipOccupied | src/infra/adapters/parsing/html/table_grid_builder.py:75-76 | the loop stops at `NextFree` |
| GridBuilder.ProcessTableRow | src/infra/adapters/parsing/html/table_grid_builder.py:62-86 | succeeds exactly when the row's spans parse, and the arrays then show the row's cells laid out |
| GridBuilder.BuildGrid | src/infra/adapters/parsing/html/table_grid_builder.py:9-25 | the grid built is `GridOf(rows)`: [] for no rows or an exception, otherwise the layout of every row |
| GridBuilder.UnoccupiedIsEmpty | src/infra/adapters/parsing/html/table_grid_builder.py:38 | a position no cell reaches keeps "" |
| GridBuilder.TextFromCoveringBlock | src/infra/adapters/parsing/html/table_grid_builder.py:59 | every position holds "" or the text of a cell whose block covers it |
| GridBuilder.BlocksBelowKeepRow | src/infra/adapters/parsing/html/table_grid_builder.py:53-60 | cells placed in later rows change nothing in an earlier row |
| GridBuilder.PlaceCellsAppends | src/infra/adapters/parsing/html/table_grid_builder.py:62-86 | a row only adds blocks, each in that row, left of the edge, from one of its cells |
| GridBuilder.PlaceCellsKeepsRowsAbove | src/infra/adapters/parsing/html/table_grid_builder.py:62-86 | laying out a row leaves every row above it as it was |
| GridBuilder.PlaceRowsAppends | src/infra/adapters/parsing/html/table_grid_builder.py:19-20 | the row loop only adds blocks, each placed at its own cell's row |
| GridBuilder.GridShape | src/infra/adapters/parsing/html/table_grid_builder.py:9-25 | [] for no rows or a malformed colspan; otherwise `len(rows)` × max_cols, each entry "" or the text of a cell of the same row or a row above it |
| GridBuilder.PlaceCellsSucceeds | src/infra/adapters/parsing/html/table_grid_builder.py:82-83 | a row whose spans all parse is laid out without an exception |
| GridBuilder.PlaceRowsSucceeds | src/infra/adapters/parsing/html/table_grid_builder.py:19-20 | a table whose spans all parse is laid out without an exception |
| GridBuilder.WellFormedTableGrid | src/infra/adapters/parsing/html/table_grid_builder.py:9-25 | such a table gives a full `len(rows)` × max_cols grid |
| GridBuilder.PlainRowWidth | src/infra/adapters/parsing/html/table_grid_builder.py:32 | without colspans a row is as wide as its number of cells |
| GridBuilder.PlainPlaceCells | src/infra/adapters/parsing/html/table_grid_builder.py:74-86 | cells without spans on a free row are written side by side |
| GridBuilder.PlainBlocksText | src/infra/adapters/parsing/html/table_grid_builder.py:59 | after them, the row shows the cells' texts in order |
| GridBuilder.PlainBlocksRows | src/infra/adapters/parsing/html/table_grid_builder.py:53-55 | such cells stay in their own row |
| GridBuilder.BlocksAboveLeaveRowFree | src/infra/adapters/parsing/html/table_grid_builder.py:75 | rows above that do not reach down leave the row free |
| GridBuilder.PlainPlaceRows | src/infra/adapters/parsing/html/table_grid_builder.py:19-20 | a span-free table is laid out row by row, each row showing its own cells |
| GridBuilder.PlainTableGrid | src/infra/adapters/parsing/html/table_grid_builder.py:9-25 | a span-free table comes out as its own cell texts, padded with "" on the right |
| GridBuilder.ExampleWidth | src/infra/adapters/parsing/html/table_grid_builder.py:27-34 | the overlap example table is 2 columns wide |
| GridBuilder.ExampleLayout | src/infra/adapters/parsing/html/table_grid_builder.py:62-86 | the blocks written for the overlap example |
| GridBuilder.ExampleTexts | src/infra/adapters/parsing/html/table_grid_builder.py:59 | the texts of the overlap example |
| GridBuilder.OverlapOverwrites | src/infra/adapters/parsing/html/table_grid_builder.py:56-60 | a colspan writes over a position an earlier rowspan fills: the example gives [["X","A"],["C","C"]] |
| DetailScraper.FindShareholderTable | src/infra/adapters/web/detail_scraper_impl.py:192-197 | the table of the first strategy that finds one; nothing exactly when none does |
| DetailScraper.FirstLabelIn | src/infra/adapters/web/detail_scraper_impl.py:215-217 | the first cell of the row, from a column on, that mentions "유통가능" and "물량" |
| DetailScraper.HeaderFrom | src/infra/adapters/web/detail_scraper_impl.py:212-218 | the first labelled cell of the first five rows, row-major; nothing exactly when none is labelled |
| DetailScraper.FindTradableColumnInHeader | src/infra/adapters/web/detail_scraper_impl.py:212-218 | nothing exactly when no header cell is labelled; otherwise a labelled cell's column |
| DetailScraper.RunEnd | src/infra/adapters/web/detail_scraper_impl.py:225-226 | the end of a run stays inside the row |
| DetailScraper.CalculateColspanRange | src/infra/adapters/web/detail_scraper_impl.py:220-227 | the last column of the run of cells equal to the start cell; the next cell differs or the row ends |
| DetailScraper.RunEndIsMaximal | src/infra/adapters/web/detail_scraper_impl.py:225-226 | the run is all equal and cannot be extended |
| DetailScraper.RunEndFrom | src/infra/adapters/web/detail_scraper_impl.py:225-226 | the same, for a run of a given value |
| DetailScraper.SubLabelColumnsExact | src/infra/adapters/web/detail_scraper_impl.py:240-246 | the collected columns are exactly the sub-label cells of the range, increasing |
| DetailScraper.SubLabelColumnsMembers | src/infra/adapters/web/detail_scraper_impl.py:240-246 | a column is collected exactly when it lies in the range and its cell is a sub-label |
| DetailScraper.SubLabelColumnsIncreasing | src/infra/adapters/web/detail_scraper_impl.py:240-246 | the collected columns increase |
| DetailScraper.SubColumnsProperties | src/infra/adapters/web/detail_scraper_impl.py:229-248 | never empty, increasing; `[c, c+1]` or exactly the sub-labels of the next row under the header's merged run |
| DetailScraper.FindSubColumns | src/infra/adapters/web/detail_scraper_impl.py:229-248 | the method computes `SubColumns` |
| DetailScraper.CollectSubLabels | src/infra/adapters/web/detail_scraper_impl.py:239-246 | the loop collects `SubLabelColumns` |
| DetailScraper.FindTradableColumns | src/infra/adapters/web/detail_scraper_impl.py:199-210 | the method computes `TradableColumns`, with the IndexError as nothing |
| DetailScraper.RescanBeforeHeader | src/infra/adapters/web/detail_scraper_impl.py:206-208 | the second scan raises exactly on a short row above the header, and otherwise stops at the header's row |
| DetailScraper.TradableColumnsOfHeader | src/infra/adapters/web/detail_scraper_impl.py:199-210 | [] exactly when no header is labelled; otherwise the header's sub-columns or the IndexError; line 210 is never reached |
| DetailScraper.RectangularNeverRaises | src/infra/adapters/web/detail_scraper_impl.py:206-208 | on a rectangular grid the second scan never raises |
| DetailScraper.Slot | src/infra/adapters/web/detail_scraper_impl.py:256-266 | the stripped last-row cell at the k-th column, or "N/A" when that column or cell is missing |
| DetailScraper.ExtractTradableValues | src/infra/adapters/web/detail_scraper_impl.py:250-268 | each value is "N/A" or a stripped last-row cell at one of the first two columns; "N/A" twice when neither column exists; a count ending in `%` comes with a percent ending in `%`; the pair is `clean_tradable_values` of the two slots |
| DetailScraper.ParseShareholderTable | src/infra/adapters/web/detail_scraper_impl.py:173-190 | the method computes `ShareholderValues` |
| DetailScraper.ShareholderValues | src/infra/adapters/web/detail_scraper_impl.py:173-190 | ("N/A", "N/A") when no strategy finds a table; a count ending in `%` comes with a percent ending in `%` |
| DetailScraper.ShareholderValuesOfHeader | src/infra/adapters/web/detail_scraper_impl.py:173-190 | with a found table and a labelled header, the values are read at that header's sub-columns |
| DetailScraper.ParseCompanyInfo | src/infra/adapters/web/detail_scraper_impl.py:96-106 | each company field is the cell of its own label |
| DetailScraper.ParseOfferingInfo | src/infra/adapters/web/detail_scraper_impl.py:108-118 | each offering field is the cell of its own label |
| DetailScraper.ParseScheduleInfo | src/infra/adapters/web/detail_scraper_impl.py:120-142 | listing date from "신규상장일", else from "(상장일"; the rate is `format_competition_rate` of the "기관경쟁률" cell, which formatting again leaves unchanged; each share count is `extract_share_count(…, "0")` of its cell, so "0" or a bare count |
| DetailScraper.CreateStockInfo | src/infra/adapters/web/detail_scraper_impl.py:144-171 | texts pass through unchanged, and every amount and count is `parse_to_int` of its text |
| DetailScraper.SingleRecord | src/infra/adapters/web/detail_scraper_impl.py:55-73 | no record exactly when navigation fails; otherwise the record assembled from the page's three tables and its shareholder values |
| DetailScraper.SingleRecordFields | src/infra/adapters/web/detail_scraper_impl.py:55-73 | no record exactly when navigation fails; otherwise the stock's own name and URL, the shareholder pair, a normalised rate, and 0 for a blank share cell |
| DetailScraper.EmptyShareCellIsZero | src/infra/adapters/web/detail_scraper_impl.py:133-135 | a share cell of only blanks and commas is read as 0 shares |
| DetailScraper.ScrapeSingle | src/infra/adapters/web/detail_scraper_impl.py:55-73 | the method computes `SingleRecord` |
| DetailScraper.CollectAppend | src/infra/adapters/web/detail_scraper_impl.py:48-50 | collecting over two parts gives both parts' results in order |
| DetailScraper.CollectStep | src/infra/adapters/web/detail_scraper_impl.py:48-50 | one more stock adds its record when it has one, and nothing otherwise |
| DetailScraper.CollectFromStocks | src/infra/adapters/web/detail_scraper_impl.py:40-53 | at most one result per stock, each a successful scrape of a listed stock; nothing when all fail |
| DetailScraper.RecordsFromStocks | src/infra/adapters/web/detail_scraper_impl.py:40-53 | every record carries the name and URL of a listed stock; failed pages give no record |
| DetailScraper.ScrapeDetails | src/infra/adapters/web/detail_scraper_impl.py:40-53 | the loop keeps the successful scrapes in input order |
| DetailScraper.LegacyScrapeDetails | src/infra/adapters/parsers/detail_parser.py:33-57 | nothing without an open page; otherwise the same records as the newer scraper |
| Calendar.Pad2 | src/infra/adapters/web/calendar_scraper_adapter.py:55 | `{:02d}` of a month 0..99 is two digits denoting it |
| Calendar.Pad2Injective | src/infra/adapters/web/calendar_scraper_adapter.py:55 | distinct months give distinct padded texts |
| Calendar.MonthUrl | src/infra/adapters/web/calendar_scraper_adapter.py:56 | a month's URL extends the schedule URL and ends with "&year=" and the year |
| Calendar.MonthUrlShape | src/infra/adapters/web/calendar_scraper_adapter.py:56 | the same, for the padded month and year texts |
| Calendar.MonthUrlInjective | src/infra/adapters/web/calendar_scraper_adapter.py:53-58 | distinct (year, month) pairs give distinct page URLs |
| Calendar.ExtractLinks | src/infra/adapters/web/calendar_scraper_adapter.py:113-137 | the loop counts the SPAC listings and keeps the other listings with an href |
| Calendar.LinksAppend | src/infra/adapters/web/calendar_scraper_adapter.py:120-135 | counting and keeping run over the links in order |
| Calendar.LinksAccounted | src/infra/adapters/web/calendar_scraper_adapter.py:120-135 | SPACs and kept entries together are at most the links; each entry is a kept link's, under the base URL |
| Calendar.ParseCell | src/infra/adapters/web/calendar_scraper_adapter.py:82-96 | nothing for no day, a skipped day or a raising link read; otherwise the links counted and kept |
| Calendar.TodayAndLaterSkipped | src/infra/adapters/web/calendar_scraper_adapter.py:109-111 | in the current month, a day from today on contributes nothing |
| Calendar.ShouldSkip | src/infra/adapters/web/calendar_scraper_adapter.py:109-111 | a day is never skipped outside the current month or before today |
| Calendar.ParseTable | src/infra/adapters/web/calendar_scraper_adapter.py:60-80 | the method computes `PageOutcome` |
| Calendar.ParseCellImpl | src/infra/adapters/web/calendar_scraper_adapter.py:82-96 | the method computes `ParseCell` |
| Calendar.SumStep | src/infra/adapters/web/calendar_scraper_adapter.py:44-45 | one more month adds its count and appends its listings |
| Calendar.SumFailsFrom | src/infra/adapters/web/calendar_scraper_adapter.py:40 | a month whose navigation fails makes the pass fail |
| Calendar.SumOfTotal | src/infra/adapters/web/calendar_scraper_adapter.py:36-45 | without failures, the pass is the plain total |
| Calendar.MonthOutcome | src/infra/adapters/web/calendar_scraper_adapter.py:36-45 | a month fails exactly when its page cannot be reached |
| Calendar.Report | src/infra/adapters/web/calendar_scraper_adapter.py:47-51 | the stock count is the number of listings, and the SPAC count is the total |
| Calendar.VisitMonth | src/infra/adapters/web/calendar_scraper_adapter.py:37-43 | the loop body computes `MonthOutcome` |
| Calendar.ScrapeCalendar | src/infra/adapters/web/calendar_scraper_adapter.py:24-51 | fails exactly when some month's navigation fails; otherwise the report of the months' outcomes in order |
| Calendar.LegacyMonthOutcome | src/infra/adapters/parsers/calander_parser.py:45-68 | a missing page or failed navigation skips the month: it contributes no SPACs and no listings |
| Calendar.VisitLegacyMonth | src/infra/adapters/parsers/calander_parser.py:26-35 | the loop body computes `LegacyMonthOutcome` |
| Calendar.GetIpos | src/infra/adapters/parsers/calander_parser.py:17-43 | the report of the months `start`..`end` in order, each failed or unreachable month contributing nothing; the stock count is the number of listings |
| Calendar.PassesAgree | src/infra/adapters/parsers/calander_parser.py:17-43 | when every navigation succeeds the two passes give the same report |
| Calendar.FailureDiverges | src/infra/adapters/parsers/calander_parser.py:58-60 | a failed month makes `scrape_calendar` fail but is skipped by `get_ipos` |
| DataFrameMapper.Values | src/infra/adapters/data/dataframe_mapper.py:47 | a record's values of the given fields, in order |
| DataFrameMapper.ColumnNames | src/infra/adapters/data/dataframe_mapper.py:53 | each field renamed by the mapping, in order |
| DataFrameMapper.IndexOf | src/infra/adapters/data/dataframe_mapper.py:60 | the first position of a name; nothing exactly when it is absent |
| DataFrameMapper.PresentColumns | src/infra/adapters/data/dataframe_mapper.py:59 | only present columns are kept |
| DataFrameMapper.SelectRow | src/infra/adapters/data/dataframe_mapper.py:60 | one value per selected column |
| DataFrameMapper.SelectRows | src/infra/adapters/data/dataframe_mapper.py:60 | one row per record |
| DataFrameMapper.MappingOrder | src/infra/adapters/data/dataframe_mapper.py:17-39 | the mapping has 21 entries, in the record's field order |
| DataFrameMapper.MappingCoversFields | src/infra/adapters/data/dataframe_mapper.py:17-39 | every field is mapped exactly once |
| DataFrameMapper.Position | src/infra/adapters/data/dataframe_mapper.py:17-39 | the position of each field in the field order |
| DataFrameMapper.SignatureOfColumnName | src/infra/adapters/data/dataframe_mapper.py:17-39 | two characters that tell the column names apart |
| DataFrameMapper.ColumnNameInjective | src/infra/adapters/data/dataframe_mapper.py:17-39 | no two fields share a column name |
| DataFrameMapper.ColumnNamesDistinct | src/infra/adapters/data/dataframe_mapper.py:53 | renaming keeps distinct fields distinct |
| DataFrameMapper.AllPresent | src/infra/adapters/data/dataframe_mapper.py:58-60 | when all mapped columns are present, all are kept |
| DataFrameMapper.IndexOfDistinct | src/infra/adapters/data/dataframe_mapper.py:60 | under distinct names each name is found at its own position |
| DataFrameMapper.SelectOwnColumns | src/infra/adapters/data/dataframe_mapper.py:60 | selecting a row's own columns gives the row back |
| DataFrameMapper.SelectRowsAt | src/infra/adapters/data/dataframe_mapper.py:60 | row i of the selection is record i's selection |
| DataFrameMapper.ToDataFrameContents | src/infra/adapters/data/dataframe_mapper.py:41-62 | the 21 mapped columns in mapping order, with or without records, and one row per record holding its values unchanged |
| DataFrameMapper.ToDataFrameCell | src/infra/adapters/data/dataframe_mapper.py:41-62 | a record's field value is found in its row under that field's column |
| DataFrameMapper.ToDataFrame | src/infra/adapters/data/dataframe_mapper.py:41-62 | one row per record; without records, the mapped column names |
| DataFrameAdapter.AdapterColumnCount | src/infra/adapters/dataframe_adapter.py:12-17 | there are 20 display columns and 20 attributes read |
| DataFrameAdapter.AdapterPosition | src/infra/adapters/dataframe_adapter.py:25-46 | the display column of every attribute other than the URL |
| DataFrameAdapter.UrlNotShown | src/infra/adapters/dataframe_adapter.py:25-46 | the URL is never shown |
| DataFrameAdapter.OtherFieldsShownOnce | src/infra/adapters/dataframe_adapter.py:25-46 | every other attribute is shown in exactly one column |
| DataFrameAdapter.ConvertToDataFrame | src/infra/adapters/dataframe_adapter.py:5-52 | the display columns, and one row per record in record order holding its attributes in column order |
| DataFrameAdapter.AdapterAgreesWithMapper | src/infra/adapters/dataframe_adapter.py:24-47 | each display cell holds what the mapper's frame holds under the same attribute |
| ExcelExporter.Years | src/infra/adapters/data/excel_exporter.py:37 | the years of the input, in insertion order |
| ExcelExporter.MinYear | src/infra/adapters/data/excel_exporter.py:37-38 | the first sorted year: a year of the input no greater than any other |
| ExcelExporter.MaxYear | src/infra/adapters/data/excel_exporter.py:37-38 | the last sorted year: a year of the input no smaller than any other |
| ExcelExporter.ExportFileName | src/infra/adapters/data/excel_exporter.py:33-43 | no file exactly when there are no years |
| ExcelExporter.FileName | src/infra/adapters/data/excel_exporter.py:41-43 | the name starts with "stock_data_" and ends with ".xlsx" |
| ExcelExporter.FirstUnderscore | src/infra/adapters/data/excel_exporter.py:43 | a position found holds `_` |
| ExcelExporter.UnderscoreOfNumber | src/infra/adapters/data/excel_exporter.py:43 | `str(n)` holds no `_`, so the first `_` follows it |
| ExcelExporter.YearRangeUnderscore | src/infra/adapters/data/excel_exporter.py:40-43 | the years part has a `_` exactly when the years differ, right after the first year |
| ExcelExporter.JoinedNumbersInjective | src/infra/adapters/data/excel_exporter.py:43 | "a_b" determines a and b |
| ExcelExporter.YearRangeInjective | src/infra/adapters/data/excel_exporter.py:40-43 | the years part determines the first and last year |
| ExcelExporter.ExportFileNameDeterminesYears | src/infra/adapters/data/excel_exporter.py:37-43 | equal file names mean equal first and last years |
| ExcelExporter.SingleYearFileName | src/infra/adapters/data/excel_exporter.py:40-41 | a single year gives "stock_data_{year}.xlsx" |
| ExcelExporter.SheetName | src/infra/adapters/data/excel_exporter.py:50 | the sheet name is `str(year)` followed by "년" |
| ExcelExporter.SheetNameInjective | src/infra/adapters/data/excel_exporter.py:50 | distinct years give distinct sheet names |
| ExcelExporter.Utf8Length | src/infra/adapters/data/excel_exporter.py:68 | the UTF-8 size lies between the length and four times it |
| ExcelExporter.Sample | src/infra/adapters/data/excel_exporter.py:66 | at most 50 values, a prefix of the column |
| ExcelExporter.MaxUtf8IsMax | src/infra/adapters/data/excel_exporter.py:68 | the largest size bounds every sample's size and is one of them |
| ExcelExporter.ColumnWidth | src/infra/adapters/data/excel_exporter.py:73 | a width is between 10 and 50 |
| ExcelExporter.ColumnWidthFits | src/infra/adapters/data/excel_exporter.py:63-73 | unless capped at 50, the width exceeds the header and every sampled value's scaled size by at least 2, and it is 10, 50 or one of those plus 2 |
| ExcelExporter.WidthIgnoresLaterValues | src/infra/adapters/data/excel_exporter.py:66 | values after the 50th never change a width |
| ExcelExporter.ColumnLetter | src/infra/adapters/data/excel_exporter.py:74 | a column name is never empty |
| ExcelExporter.ColumnLetterIsName | src/infra/adapters/data/excel_exporter.py:74 | a column name is made of A to Z |
| ExcelExporter.ColumnLetterRoundTrip | src/infra/adapters/data/excel_exporter.py:74 | the position can be read back from the column name |
| ExcelExporter.ColumnLetterInjective | src/infra/adapters/data/excel_exporter.py:74 | distinct positions get distinct names |
| ExcelExporter.ColumnLetterBelow26 | src/infra/adapters/data/excel_exporter.py:74 | for the first 26 columns the name is `chr(65 + idx)` |
| ExcelExporter.ColumnKeyAsWritten | src/infra/adapters/data/excel_exporter.py:74 | `chr(65 + idx)` is the column's letter for the first 26 columns and past `Z` from then on |
| ExcelExporter.ColumnKeyPastZ | src/infra/adapters/data/excel_exporter.py:74 | the 27th column is keyed `[`, not a column name; its name is AA |
| ExcelExporter.WidthsKeys | src/infra/adapters/data/excel_exporter.py:61-74 | widths are set under the names of the columns and no others |
| ExcelExporter.WidthsAt | src/infra/adapters/data/excel_exporter.py:61-74 | each column's own width is found under its name |
| ExcelExporter.WidthsBounded | src/infra/adapters/data/excel_exporter.py:73 | every width set is between 10 and 50 |
| ExcelExporter.MeasureColumn | src/infra/adapters/data/excel_exporter.py:63-73 | the width computed is `ColumnWidth` |
| ExcelExporter.Worksheet.constructor | src/infra/adapters/data/excel_exporter.py:51 | a new sheet has no widths set |
| ExcelExporter.AdjustColumnWidth | src/infra/adapters/data/excel_exporter.py:58-74 | the sheet's widths become the old ones updated with every column's width under its name |
| ExcelExporter.SheetsOf | src/infra/adapters/data/excel_exporter.py:49-54 | one sheet per year |
| ExcelExporter.ExportWorkbook | src/infra/adapters/data/excel_exporter.py:26-54 | nothing is written exactly when the input is empty |
| ExcelExporter.WriteSheet | src/infra/adapters/data/excel_exporter.py:50-54 | a year's sheet is named after the year and holds its columns' widths |
| ExcelExporter.NameFile | src/infra/adapters/data/excel_exporter.py:37-43 | the file name computed is `ExportFileName` |
| ExcelExporter.Export | src/infra/adapters/data/excel_exporter.py:26-54 | the method writes `ExportWorkbook` |
| ExcelExporter.SheetsOfNames | src/infra/adapters/data/excel_exporter.py:49-50 | sheet i is named after year i |
| ExcelExporter.SheetNamesDistinct | src/infra/adapters/data/excel_exporter.py:49-50 | distinct years give sheets with distinct names |

## Left out

- Browser automation (Playwright locators, `goto`, `wait_for_load_state`, visibility checks with timeouts) is not modelled. Pages, cells, links and key-value tables are values, and navigation is a function parameter.
- `time.sleep`, `print`, `traceback.print_exc` and every log line are left out; they do not affect any result.
- `_get_value` / `_get_detail_value` (the XPath lookup of the cell next to a label) is a `Lookup` parameter. The model does not capture how the label is matched.
- The four table-finding strategies (strategies.py) are not part of this model. Their outcomes are inputs, in list order.
- `_extract_day` (`int()` of the day text) is an input `Option<int>`.
- A link read that raises is a cell whose links are absent.
- Writing the workbook (`pd.ExcelWriter`, `to_excel`), the output directory and `os.path.join` are left out. The model yields the file name and each sheet's name and column widths.
- `_ensure_output_dir` calls `os.makedirs`, but excel_exporter.py never imports `os`. Constructing the exporter would raise `NameError`. The model starts at `export`.
- `TextParsers.ParseDecimal`: Python's `float()` also accepts exponents, `inf`, `nan`, underscores between digits and non-ASCII digits. The model treats these as non-numbers.
- `TextParsers.Truncate`: values are exact decimals rather than binary doubles, so very long digit strings that a double would round are not modelled.
- `GridBuilder`: span attributes are absent, a non-negative integer, or malformed. Negative spans, which Python would accept and then treat as indices from the end, are not modelled.
- `ExcelExporter.Utf8Length`: a column's values are given already stringified. pandas' `astype(str)` rendering (NaN, floats) is not modelled.
- `ExcelExporter.ColumnWidth`: `int(n * 0.8)` is computed exactly as `(4 * n) / 5`. Binary floating point gives the same value for every size a cell can have.
- `ExcelExporter.MinYear`, `ExcelExporter.MaxYear`: the years are not sorted. The model takes the least and greatest, which are the first and last of the sorted list.
- `DataFrameMapper.ToDataFrame`: pandas' own column inference is left out. A frame is its column names and rows of values.
- `CalendarParser.test_navigation` only prints and sleeps, and is left out.
- parsers.py:44 annotates `clean_tradable_values` with `Tuple[str, str]`, but line 2 imports only `Optional` from `typing`. The annotation is evaluated when the function is defined, so importing parsers.py raises `NameError`. The model describes the functions as they would run once the import is added.
- detail_scraper_impl.py reaches the normalisers through `infra.adapters.parsers.utils` (line 11, used at lines 132-168). That module is not part of this model; the model assumes it behaves as parsers.py, whose functions `TextParsers` models.
- `DetailScraper.FindShareholderTable`, `DetailScraper.HeaderFrom`, `DetailScraper.FirstLabelIn`, `TextParsers.KeepLeftOf`: these loops are modelled as recursive functions, not as methods, so the model does not show their step-by-step updates.
- ExcelExporter.AdjustColumnWidth: the widths are stored under the spreadsheet column names (`ColumnLetter`), the corrected behaviour of the finding below, not under the `chr(65 + idx)` keys the source writes; `ExcelExporter.ColumnKeyAsWritten` models those.
- `DetailScraper.ScrapeSingle`: an exception raised while reading a loaded page (outside the caught shareholder parsing) is not modelled. Only a failed navigation gives no record.

## Findings

| source | as written | input that shows it | evidently intended | confidence | as-written member | corrected member |
|---|---|---|---|---|---|---|
| src/infra/adapters/data/excel_exporter.py:74 | the width of column `idx` is set under the key `chr(65 + idx)` | a frame with 27 or more columns: column 27 is keyed `[`, which names no spreadsheet column | the spreadsheet column name: A..Z, then AA, AB, … | high (not executed) | ExcelExporter.ColumnKeyPastZ | ExcelExporter.ColumnLetterRoundTrip |
