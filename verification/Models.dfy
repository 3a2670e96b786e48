/**
 * The record shapes the scrapers produce (src/domain/models.py): one
 * `StockInfo` per listed stock, and the `ScrapeReport` of a calendar pass.
 */
module StockModels {
  import opened Wrappers

  /**
   * The detail record of one stock. Numeric fields are the result of
   * `parse_to_int`, so each may be absent; the others are text as scraped.
   */
  datatype StockInfo = StockInfo(
    name: string,
    url: string,
    marketSegment: string,
    sector: string,
    revenue: Option<int>,
    profitPreTax: Option<int>,
    netProfit: Option<int>,
    capital: Option<int>,
    totalShares: Option<int>,
    parValue: Option<int>,
    desiredPriceRange: string,
    confirmedPrice: Option<int>,
    offeringAmount: Option<int>,
    underwriter: string,
    listingDate: string,
    competitionRate: string,
    empShares: Option<int>,
    instShares: Option<int>,
    retailShares: Option<int>,
    tradableSharesCount: string,
    tradableSharesPercent: string)

  /** A stock found on the calendar: its cleaned name and the absolute URL of its detail page. */
  type Listing = (string, string)

  /** The summary of a calendar pass. */
  datatype ScrapeReport = ScrapeReport(finalStockCount: nat, spackFilteredCount: nat, results: seq<Listing>)
}
