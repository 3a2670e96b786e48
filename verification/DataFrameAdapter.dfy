/**
 * `convert_to_dataframe` (src/infra/adapters/dataframe_adapter.py): stock
 * records to a table with a fixed list of 20 display columns, built row by
 * row.
 */
module DataFrameAdapter {
  import opened StockModels
  import opened DataFrameMapper

  /** The display columns, in order. */
  const ADAPTER_COLUMNS: seq<string> := [
    "종목명", "구분", "업종", "매출액", "법인세비용차감전순이익", "순이익",
    "자본금", "총공모주식수", "액면가", "희망공모가", "확정공모가", "공모금액",
    "주간사", "기관투자자", "일반투자자", "우리사주조합", "기관경쟁률", "상장일",
    "유통가능물량(주식수)", "유통가능물량(지분율)"]

  /** The record attribute each display column is filled from, in column order. */
  const ADAPTER_FIELDS: seq<Field> := [
    Name, MarketSegment, Sector, Revenue, ProfitPreTax, NetProfit,
    Capital, TotalShares, ParValue, DesiredPriceRange, ConfirmedPrice, OfferingAmount,
    Underwriter, InstShares, RetailShares, EmpShares, CompetitionRate, ListingDate,
    TradableSharesCount, TradableSharesPercent]

  /** The row the adapter appends for one record: its attributes in column order. */
  function AdapterRow(s: StockInfo): seq<Value> {
    Values(s, ADAPTER_FIELDS)
  }

  /** There are 20 display columns, one per attribute read. */
  lemma AdapterColumnCount()
    ensures |ADAPTER_COLUMNS| == 20 && |ADAPTER_FIELDS| == 20
  {
  }

  /** The display column of each field other than the URL. */
  function AdapterPosition(f: Field): (r: nat)
    requires f != Url
    ensures r < |ADAPTER_FIELDS| && ADAPTER_FIELDS[r] == f
  {
    match f
    case Name => 0
    case MarketSegment => 1
    case Sector => 2
    case Revenue => 3
    case ProfitPreTax => 4
    case NetProfit => 5
    case Capital => 6
    case TotalShares => 7
    case ParValue => 8
    case DesiredPriceRange => 9
    case ConfirmedPrice => 10
    case OfferingAmount => 11
    case Underwriter => 12
    case InstShares => 13
    case RetailShares => 14
    case EmpShares => 15
    case CompetitionRate => 16
    case ListingDate => 17
    case TradableSharesCount => 18
    case TradableSharesPercent => 19
  }

  /** The URL is the one attribute not shown. */
  lemma UrlNotShown()
    ensures Url !in ADAPTER_FIELDS
  {
  }

  /** Every other attribute is shown, in exactly one column. */
  lemma OtherFieldsShownOnce()
    ensures Distinct(ADAPTER_FIELDS)
    ensures forall f: Field :: f != Url ==> f in ADAPTER_FIELDS
  {
    UrlNotShown();
    forall i, j | 0 <= i < j < |ADAPTER_FIELDS|
      ensures ADAPTER_FIELDS[i] != ADAPTER_FIELDS[j]
    {
      assert AdapterPosition(ADAPTER_FIELDS[i]) == i && AdapterPosition(ADAPTER_FIELDS[j]) == j;
    }
    forall f: Field | f != Url
      ensures f in ADAPTER_FIELDS
    {
      assert ADAPTER_FIELDS[AdapterPosition(f)] == f;
    }
  }

  /** `convert_to_dataframe`: the display columns, and one row per record in record order. */
  method ConvertToDataFrame(stocks: seq<StockInfo>) returns (frame: Frame)
    ensures frame.columns == ADAPTER_COLUMNS
    ensures |frame.rows| == |stocks|
    ensures forall i :: 0 <= i < |stocks| ==> frame.rows[i] == AdapterRow(stocks[i])
  {
    var columns := ADAPTER_COLUMNS;
    if stocks == [] {
      return Frame(columns, []);
    }
    var data: seq<seq<Value>> := [];
    for i := 0 to |stocks|
      invariant |data| == i
      invariant forall k :: 0 <= k < i ==> data[k] == AdapterRow(stocks[k])
    {
      data := data + [Values(stocks[i], ADAPTER_FIELDS)];
    }
    return Frame(columns, data);
  }

  /**
   * The adapter and the mapper show the same values: in each display
   * column, the adapter's row of a record holds what the mapper's row of it
   * holds under the column of the same attribute.
   */
  lemma AdapterAgreesWithMapper(stocks: seq<StockInfo>, i: nat, k: nat)
    requires i < |stocks| && k < |ADAPTER_FIELDS|
    ensures ADAPTER_FIELDS[k] != Url
    ensures Position(ADAPTER_FIELDS[k]) < |ToDataFrame(stocks).rows[i]|
    ensures AdapterRow(stocks[i])[k] == ToDataFrame(stocks).rows[i][Position(ADAPTER_FIELDS[k])]
  {
    UrlNotShown();
    ToDataFrameCell(stocks, i, ADAPTER_FIELDS[k]);
  }
}
