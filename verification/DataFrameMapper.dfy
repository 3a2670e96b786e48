/**
 * `DataFrameMapper` (src/infra/adapters/data/dataframe_mapper.py): stock
 * records to a table whose columns carry the Korean display names.
 *
 * A frame is its column names and its rows, each row one value per column.
 * A record's `__dict__` is keyed by the fields of `StockInfo`, which are
 * the constructors of `Field`; `COLUMN_MAPPING` is the total function
 * `ColumnName` together with the order `MAPPING_ORDER` its entries are
 * declared in.
 */
module DataFrameMapper {
  import opened Wrappers
  import opened StockModels

  /** A cell: a text field, or a numeric field that may be absent. */
  datatype Value = Text(text: string) | Count(count: Option<int>)

  datatype Frame = Frame(columns: seq<string>, rows: seq<seq<Value>>)

  datatype Field =
    | Name | Url | MarketSegment | Sector | Revenue | ProfitPreTax | NetProfit | Capital
    | TotalShares | ParValue | DesiredPriceRange | ConfirmedPrice | OfferingAmount | Underwriter
    | ListingDate | CompetitionRate | EmpShares | InstShares | RetailShares
    | TradableSharesCount | TradableSharesPercent

  /** The fields in declaration order, which is the order of `__dict__`. */
  const STOCK_FIELDS: seq<Field> := [
    Name, Url, MarketSegment, Sector, Revenue, ProfitPreTax, NetProfit, Capital,
    TotalShares, ParValue, DesiredPriceRange, ConfirmedPrice, OfferingAmount, Underwriter,
    ListingDate, CompetitionRate, EmpShares, InstShares, RetailShares,
    TradableSharesCount, TradableSharesPercent]

  /** The keys of `COLUMN_MAPPING` in the order they are declared. */
  const MAPPING_ORDER: seq<Field> := [
    Name, Url, MarketSegment, Sector, Revenue, ProfitPreTax, NetProfit, Capital,
    TotalShares, ParValue, DesiredPriceRange, ConfirmedPrice, OfferingAmount, Underwriter,
    ListingDate, CompetitionRate, EmpShares, InstShares, RetailShares,
    TradableSharesCount, TradableSharesPercent]

  /** `COLUMN_MAPPING[field]`. */
  function ColumnName(f: Field): string {
    match f
    case Name => "종목명"
    case Url => "URL"
    case MarketSegment => "시장구분"
    case Sector => "업종"
    case Revenue => "매출액(백만원)"
    case ProfitPreTax => "법인세비용차감전(백만원)"
    case NetProfit => "순이익(백만원)"
    case Capital => "자본금(백만원)"
    case TotalShares => "총공모주식수"
    case ParValue => "액면가"
    case DesiredPriceRange => "희망공모가액"
    case ConfirmedPrice => "확정공모가"
    case OfferingAmount => "공모금액(백만원)"
    case Underwriter => "주간사"
    case ListingDate => "상장일"
    case CompetitionRate => "기관경쟁률"
    case EmpShares => "우리사주조합"
    case InstShares => "기관투자자"
    case RetailShares => "일반청약자"
    case TradableSharesCount => "유통가능물량(주)"
    case TradableSharesPercent => "유통가능물량(%)"
  }

  /** `stock.__dict__[field]`. */
  function FieldValue(s: StockInfo, f: Field): Value {
    match f
    case Name => Text(s.name)
    case Url => Text(s.url)
    case MarketSegment => Text(s.marketSegment)
    case Sector => Text(s.sector)
    case Revenue => Count(s.revenue)
    case ProfitPreTax => Count(s.profitPreTax)
    case NetProfit => Count(s.netProfit)
    case Capital => Count(s.capital)
    case TotalShares => Count(s.totalShares)
    case ParValue => Count(s.parValue)
    case DesiredPriceRange => Text(s.desiredPriceRange)
    case ConfirmedPrice => Count(s.confirmedPrice)
    case OfferingAmount => Count(s.offeringAmount)
    case Underwriter => Text(s.underwriter)
    case ListingDate => Text(s.listingDate)
    case CompetitionRate => Text(s.competitionRate)
    case EmpShares => Count(s.empShares)
    case InstShares => Count(s.instShares)
    case RetailShares => Count(s.retailShares)
    case TradableSharesCount => Text(s.tradableSharesCount)
    case TradableSharesPercent => Text(s.tradableSharesPercent)
  }

  /** The values of the given fields of a record, in the given order. */
  function Values(s: StockInfo, fields: seq<Field>): (r: seq<Value>)
    ensures |r| == |fields| && forall i :: 0 <= i < |r| ==> r[i] == FieldValue(s, fields[i])
  {
    if fields == [] then [] else [FieldValue(s, fields[0])] + Values(s, fields[1..])
  }

  /** `DataFrame.rename(columns=COLUMN_MAPPING)`: each field's column name, in order. */
  function ColumnNames(fields: seq<Field>): (r: seq<string>)
    ensures |r| == |fields| && forall i :: 0 <= i < |r| ==> r[i] == ColumnName(fields[i])
  {
    if fields == [] then [] else [ColumnName(fields[0])] + ColumnNames(fields[1..])
  }

  predicate Distinct<T(==)>(xs: seq<T>) {
    forall i, j :: 0 <= i < j < |xs| ==> xs[i] != xs[j]
  }

  /** The position of `x` in `names`, if any: the first one. */
  function IndexOf(names: seq<string>, x: string): (r: Option<nat>)
    ensures r.None? <==> x !in names
    ensures r.Some? ==> r.value < |names| && names[r.value] == x && x !in names[..r.value]
  {
    if names == [] then None
    else if names[0] == x then Some(0)
    else match IndexOf(names[1..], x)
      case None => None
      case Some(k) =>
        assert names[..k + 1] == [names[0]] + names[1..][..k];
        Some(k + 1)
  }

  /** `[col for col in wanted if col in present]`. */
  function PresentColumns(wanted: seq<string>, present: seq<string>): (r: seq<string>)
    ensures forall c :: c in r ==> c in present
  {
    if wanted == [] then []
    else (if wanted[0] in present then [wanted[0]] else []) + PresentColumns(wanted[1..], present)
  }

  /** `df[columns]` on one row: for each selected column, the value under that name. */
  function SelectRow(columns: seq<string>, names: seq<string>, values: seq<Value>): (r: seq<Value>)
    requires |values| == |names| && forall c :: c in columns ==> c in names
    ensures |r| == |columns|
  {
    if columns == [] then []
    else [values[IndexOf(names, columns[0]).value]] + SelectRow(columns[1..], names, values)
  }

  /** One selected row per record, in record order. */
  function SelectRows(columns: seq<string>, names: seq<string>, stocks: seq<StockInfo>): (r: seq<seq<Value>>)
    requires |names| == |STOCK_FIELDS| && forall c :: c in columns ==> c in names
    ensures |r| == |stocks|
  {
    if stocks == [] then []
    else SelectRows(columns, names, stocks[..|stocks| - 1]) + [SelectRow(columns, names, Values(stocks[|stocks| - 1], STOCK_FIELDS))]
  }

  /**
   * `to_dataframe`: no rows and every mapped column for no records;
   * otherwise one row per record from its `__dict__`, renamed, then
   * restricted to the mapped columns that are present, in mapping order.
   */
  function ToDataFrame(stocks: seq<StockInfo>): (r: Frame)
    ensures |r.rows| == |stocks|
    ensures stocks == [] ==> r.columns == ColumnNames(MAPPING_ORDER)
  {
    if stocks == [] then Frame(ColumnNames(MAPPING_ORDER), [])
    else
      var names := ColumnNames(STOCK_FIELDS);
      var columns := PresentColumns(ColumnNames(MAPPING_ORDER), names);
      Frame(columns, SelectRows(columns, names, stocks))
  }

  // ---------------------------------------------------------------------
  // Properties

  /** The mapping has 21 entries, declared in the fields' own order. */
  lemma MappingOrder()
    ensures |MAPPING_ORDER| == 21 && MAPPING_ORDER == STOCK_FIELDS
  {
  }

  /** Every field has an entry in the mapping, and only one. */
  lemma MappingCoversFields()
    ensures Distinct(MAPPING_ORDER)
    ensures forall f: Field :: f in MAPPING_ORDER
  {
    MappingOrder();
    forall i, j | 0 <= i < j < |STOCK_FIELDS|
      ensures STOCK_FIELDS[i] != STOCK_FIELDS[j]
    {
      assert Position(STOCK_FIELDS[i]) == i && Position(STOCK_FIELDS[j]) == j;
    }
    forall f: Field
      ensures f in MAPPING_ORDER
    {
      assert MAPPING_ORDER[Position(f)] == f;
    }
  }

  /** The position of a field in declaration order. */
  function Position(f: Field): (r: nat)
    ensures r < |STOCK_FIELDS| && STOCK_FIELDS[r] == f
  {
    match f
    case Name => 0
    case Url => 1
    case MarketSegment => 2
    case Sector => 3
    case Revenue => 4
    case ProfitPreTax => 5
    case NetProfit => 6
    case Capital => 7
    case TotalShares => 8
    case ParValue => 9
    case DesiredPriceRange => 10
    case ConfirmedPrice => 11
    case OfferingAmount => 12
    case Underwriter => 13
    case ListingDate => 14
    case CompetitionRate => 15
    case EmpShares => 16
    case InstShares => 17
    case RetailShares => 18
    case TradableSharesCount => 19
    case TradableSharesPercent => 20
  }

  /** Two characters that tell the column names apart: the first and the last but one. */
  function Signature(name: string): (char, char)
    requires |name| >= 2
  {
    (name[0], name[|name| - 2])
  }

  lemma SignatureOfColumnName(f: Field)
    ensures |ColumnName(f)| >= 2
    ensures Signature(ColumnName(f)) == match f
      case Name => ('종', '목')
      case Url => ('U', 'R')
      case MarketSegment => ('시', '구')
      case Sector => ('업', '업')
      case Revenue => ('매', '원')
      case ProfitPreTax => ('법', '원')
      case NetProfit => ('순', '원')
      case Capital => ('자', '원')
      case TotalShares => ('총', '식')
      case ParValue => ('액', '면')
      case DesiredPriceRange => ('희', '가')
      case ConfirmedPrice => ('확', '모')
      case OfferingAmount => ('공', '원')
      case Underwriter => ('주', '간')
      case ListingDate => ('상', '장')
      case CompetitionRate => ('기', '쟁')
      case EmpShares => ('우', '조')
      case InstShares => ('기', '자')
      case RetailShares => ('일', '약')
      case TradableSharesCount => ('유', '주')
      case TradableSharesPercent => ('유', '%')
  {
    match f
    case Name => {}
    case Url => {}
    case MarketSegment => {}
    case Sector => {}
    case Revenue => {}
    case ProfitPreTax => {}
    case NetProfit => {}
    case Capital => {}
    case TotalShares => {}
    case ParValue => {}
    case DesiredPriceRange => {}
    case ConfirmedPrice => {}
    case OfferingAmount => {}
    case Underwriter => {}
    case ListingDate => {}
    case CompetitionRate => {}
    case EmpShares => {}
    case InstShares => {}
    case RetailShares => {}
    case TradableSharesCount => {}
    case TradableSharesPercent => {}
  }

  /** No two fields are shown under the same column name. */
  lemma ColumnNameInjective(f: Field, g: Field)
    requires ColumnName(f) == ColumnName(g)
    ensures f == g
  {
    SignatureOfColumnName(f);
    SignatureOfColumnName(g);
  }

  /** Distinct fields get distinct column names. */
  lemma ColumnNamesDistinct(fields: seq<Field>)
    requires Distinct(fields)
    ensures Distinct(ColumnNames(fields))
  {
    var names := ColumnNames(fields);
    forall i, j | 0 <= i < j < |names|
      ensures names[i] != names[j]
    {
      if names[i] == names[j] {
        ColumnNameInjective(fields[i], fields[j]);
      }
    }
  }

  /** Keeping the wanted columns that are present keeps all of them when all are present. */
  lemma {:induction false} AllPresent(wanted: seq<string>, present: seq<string>)
    requires forall c :: c in wanted ==> c in present
    ensures PresentColumns(wanted, present) == wanted
  {
    if wanted != [] {
      AllPresent(wanted[1..], present);
      assert wanted == [wanted[0]] + wanted[1..];
    }
  }

  /** Under distinct names, each name is found at its own position. */
  lemma IndexOfDistinct(names: seq<string>, k: nat)
    requires Distinct(names) && k < |names|
    ensures IndexOf(names, names[k]) == Some(k)
  {
  }

  /** Selecting a row's own distinct names, from position `k` on, gives its values from `k` on. */
  lemma {:induction false} SelectOwnColumns(names: seq<string>, values: seq<Value>, k: nat)
    requires Distinct(names) && |values| == |names| && k <= |names|
    ensures SelectRow(names[k..], names, values) == values[k..]
    decreases |names| - k
  {
    if k < |names| {
      IndexOfDistinct(names, k);
      assert names[k..][1..] == names[k + 1..];
      SelectOwnColumns(names, values, k + 1);
      assert values[k..] == [values[k]] + values[k + 1..];
    }
  }

  /** Row `i` of the selection is the selection of record `i`. */
  lemma {:induction false} SelectRowsAt(columns: seq<string>, names: seq<string>, stocks: seq<StockInfo>, i: nat)
    requires |names| == |STOCK_FIELDS| && forall c :: c in columns ==> c in names
    requires i < |stocks|
    ensures SelectRows(columns, names, stocks)[i] == SelectRow(columns, names, Values(stocks[i], STOCK_FIELDS))
  {
    if i < |stocks| - 1 {
      SelectRowsAt(columns, names, stocks[..|stocks| - 1], i);
    }
  }

  /**
   * `to_dataframe` yields the 21 mapped column names in mapping order, with
   * or without records, and one row per record in record order holding the
   * record's values in field order, which is the mapping order
   * (`MappingOrder`): under the column of a field, that field's value,
   * unchanged.
   */
  lemma ToDataFrameContents(stocks: seq<StockInfo>)
    ensures ToDataFrame(stocks).columns == ColumnNames(MAPPING_ORDER)
    ensures |ToDataFrame(stocks).columns| == 21
    ensures |ToDataFrame(stocks).rows| == |stocks|
    ensures forall i :: 0 <= i < |stocks| ==> ToDataFrame(stocks).rows[i] == Values(stocks[i], STOCK_FIELDS)
  {
    MappingOrder();
    MappingCoversFields();
    var names := ColumnNames(STOCK_FIELDS);
    ColumnNamesDistinct(STOCK_FIELDS);
    if stocks != [] {
      AllPresent(names, names);
      forall i | 0 <= i < |stocks|
        ensures ToDataFrame(stocks).rows[i] == Values(stocks[i], STOCK_FIELDS)
      {
        SelectRowsAt(names, names, stocks, i);
        SelectOwnColumns(names, Values(stocks[i], STOCK_FIELDS), 0);
        assert names[0..] == names;
      }
    }
  }

  /** A record's value of a field is found in its row under that field's position. */
  lemma ToDataFrameCell(stocks: seq<StockInfo>, i: nat, f: Field)
    requires i < |stocks|
    ensures |ToDataFrame(stocks).rows[i]| == 21
    ensures ToDataFrame(stocks).rows[i][Position(f)] == FieldValue(stocks[i], f)
  {
    ToDataFrameContents(stocks);
  }
}
