/**
 * The IPO calendar scraper (src/infra/adapters/web/calendar_scraper_adapter.py
 * and its older twin src/infra/adapters/parsers/calander_parser.py).
 *
 * A month's page is reached by URL; the browser is abstracted as a function
 * from that URL to what navigation yields: a failure, a page without a
 * visible calendar table, or the table's day cells. A day cell carries the
 * day number it shows (None when absent or not an integer) and its links
 * (None when reading them raises); a link is its inner text and its `href`
 * attribute.
 */
module Calendar {
  import opened Wrappers
  import opened Strings
  import opened TextParsers
  import opened StockModels

  const BASE_URL: string := "https://www.38.co.kr"
  const SCHEDULE_URL: string := BASE_URL + "/html/ipo/ipo_schedule.php"

  datatype Link = Link(text: string, href: Option<string>)

  datatype DayCell = DayCell(day: Option<int>, links: Option<seq<Link>>)

  datatype MonthPage = TableHidden | CalendarTable(cells: seq<DayCell>)

  datatype Navigation = NavigationFailed | Reached(page: MonthPage)

  /** What a cell, a table or a whole pass yields: the number of SPACs filtered out and the listings kept. */
  type Outcome = (nat, seq<Listing>)

  // ---------------------------------------------------------------------
  // The month URL

  /** `f"{month:02d}"`: at least two characters, a zero in front of a single digit. */
  function Pad2(n: int): (r: string)
    ensures 0 <= n < 100 ==> |r| == 2 && AllDigits(r) && DigitsValue(r) == n
  {
    if 0 <= n < 10 then
      var r := "0" + IntToString(n);
      assert r[..1] == "0" && DigitsValue(r[..1]) == 0;
      r
    else if 10 <= n < 100 then
      assert IntToString(n) == NatToString(n / 10) + [DigitChar(n % 10)];
      IntToString(n)
    else
      IntToString(n)
  }

  /** `_goto_month` / `_visit_single_month_page`: the schedule page of a month. */
  function MonthUrl(scheduleUrl: string, year: int, month: int): (r: string)
    ensures scheduleUrl <= r && EndsWith(r, "&year=" + IntToString(year))
  {
    MonthUrlShape(scheduleUrl, Pad2(month), IntToString(year));
    scheduleUrl + "?mode=goMonth&o=s&month=" + Pad2(month) + "&year=" + IntToString(year)
  }

  /** The month URL starts with the schedule URL and ends with the year parameter. */
  lemma MonthUrlShape(scheduleUrl: string, mm: string, yyyy: string)
    ensures var r := scheduleUrl + "?mode=goMonth&o=s&month=" + mm + "&year=" + yyyy;
      scheduleUrl <= r && EndsWith(r, "&year=" + yyyy)
  {
    var query := scheduleUrl + "?mode=goMonth&o=s&month=";
    var head := query + mm;
    var tail := "&year=" + yyyy;
    assert scheduleUrl <= head + tail by {
      ConcatEnds(scheduleUrl, "?mode=goMonth&o=s&month=");
      ConcatEnds(query, mm);
      ConcatEnds(head, tail);
    }
    ConcatEnds(head, tail);
    assert head + tail == head + "&year=" + yyyy;
  }

  lemma Pad2Injective(m1: int, m2: int)
    requires 0 <= m1 < 100 && 0 <= m2 < 100 && Pad2(m1) == Pad2(m2)
    ensures m1 == m2
  {
  }

  /** Different months of 0..99, or different years, give different URLs: the month and year can be read back. */
  lemma MonthUrlInjective(scheduleUrl: string, y1: int, m1: int, y2: int, m2: int)
    requires 0 <= m1 < 100 && 0 <= m2 < 100
    requires MonthUrl(scheduleUrl, y1, m1) == MonthUrl(scheduleUrl, y2, m2)
    ensures y1 == y2 && m1 == m2
  {
    var q := scheduleUrl + "?mode=goMonth&o=s&month=";
    var w1, w2 := q + Pad2(m1), q + Pad2(m2);
    ConcatCancel(w1 + "&year=", IntToString(y1), w2 + "&year=", IntToString(y2));
    IntToStringInjective(y1, y2);
    ConcatCancel(w1, "&year=", w2, "&year=");
    assert q + Pad2(m1) == q + Pad2(m2);
    ConcatCancel(q, Pad2(m1), q, Pad2(m2));
    Pad2Injective(m1, m2);
  }

  // ---------------------------------------------------------------------
  // One day cell

  /** `_should_skip` / `_should_skip_cell`: in the current month, today and later days are not listed yet. */
  predicate ShouldSkip(day: int, todayDay: int, isCurrentMonth: bool)
    ensures !isCurrentMonth ==> !ShouldSkip(day, todayDay, isCurrentMonth)
    ensures day < todayDay ==> !ShouldSkip(day, todayDay, isCurrentMonth)
  {
    isCurrentMonth && day >= todayDay
  }

  /** The link's name as read: its text trimmed, newlines turned into spaces. */
  function NameRaw(link: Link): string {
    ReplaceAll(Strip(link.text), "\n", " ")
  }

  /** The link names a listing ("(상장)"). */
  predicate IsListing(link: Link) {
    Contains(NameRaw(link), "(상장)")
  }

  /** A listing of a SPAC: counted, not kept. */
  predicate IsFilteredSpac(link: Link) {
    IsListing(link) && IsSpacStock(NameRaw(link))
  }

  /** A listing that is not a SPAC and has a non-empty `href`: kept. */
  predicate IsKept(link: Link) {
    IsListing(link) && !IsSpacStock(NameRaw(link)) && link.href.Some? && link.href.value != ""
  }

  /** The kept entry: the cleaned name and the absolute URL. */
  function Entry(baseUrl: string, link: Link): Listing
    requires link.href.Some?
  {
    (CleanStockName(NameRaw(link)), baseUrl + link.href.value)
  }

  /** The number of SPAC listings among the links. */
  function SpacCount(links: seq<Link>): nat {
    if links == [] then 0
    else SpacCount(links[..|links| - 1]) + if IsFilteredSpac(links[|links| - 1]) then 1 else 0
  }

  /** The entries of the kept links, in link order. */
  function KeptEntries(baseUrl: string, links: seq<Link>): seq<Listing> {
    if links == [] then []
    else
      var last := links[|links| - 1];
      KeptEntries(baseUrl, links[..|links| - 1]) + if IsKept(last) then [Entry(baseUrl, last)] else []
  }

  /**
   * `_extract_links` / `_extract_links_from_cell`: one pass over the links,
   * counting SPAC listings and keeping the other listings that have an href.
   */
  method ExtractLinks(baseUrl: string, links: seq<Link>) returns (spacksFiltered: nat, results: seq<Listing>)
    ensures spacksFiltered == SpacCount(links) && results == KeptEntries(baseUrl, links)
  {
    spacksFiltered := 0;
    results := [];
    for i := 0 to |links|
      invariant spacksFiltered == SpacCount(links[..i]) && results == KeptEntries(baseUrl, links[..i])
    {
      assert links[..i + 1][..i] == links[..i];
      var link := links[i];
      var nameRaw := ReplaceAll(Strip(link.text), "\n", " ");
      if !Contains(nameRaw, "(상장)") {
        continue;
      }
      if IsSpacStock(nameRaw) {
        spacksFiltered := spacksFiltered + 1;
        continue;
      }
      var nameCleaned := CleanStockName(nameRaw);
      if link.href.Some? && link.href.value != "" {
        var hrefFull := baseUrl + link.href.value;
        results := results + [(nameCleaned, hrefFull)];
      }
    }
    assert links[..|links|] == links;
  }

  /** Counting and keeping distribute over consecutive runs of links: link order is kept. */
  lemma {:induction false} LinksAppend(baseUrl: string, a: seq<Link>, b: seq<Link>)
    ensures SpacCount(a + b) == SpacCount(a) + SpacCount(b)
    ensures KeptEntries(baseUrl, a + b) == KeptEntries(baseUrl, a) + KeptEntries(baseUrl, b)
    decreases |b|
  {
    if b == [] {
      assert a + b == a;
    } else {
      assert (a + b)[..|a + b| - 1] == a + b[..|b| - 1];
      LinksAppend(baseUrl, a, b[..|b| - 1]);
    }
  }

  /**
   * Each link is counted, kept or dropped, never two of these: the counted
   * SPACs and the kept entries together number at most the links; every
   * kept entry is the entry of a kept link and points under `baseUrl`.
   */
  lemma {:induction false} LinksAccounted(baseUrl: string, links: seq<Link>)
    ensures SpacCount(links) + |KeptEntries(baseUrl, links)| <= |links|
    ensures forall e :: e in KeptEntries(baseUrl, links) ==>
      exists i :: 0 <= i < |links| && IsKept(links[i]) && e == Entry(baseUrl, links[i])
    ensures forall e :: e in KeptEntries(baseUrl, links) ==> baseUrl <= e.1
  {
    if links != [] {
      var init := links[..|links| - 1];
      LinksAccounted(baseUrl, init);
      forall e | e in KeptEntries(baseUrl, links)
        ensures exists i :: 0 <= i < |links| && IsKept(links[i]) && e == Entry(baseUrl, links[i])
      {
        if e in KeptEntries(baseUrl, init) {
          var i :| 0 <= i < |init| && IsKept(init[i]) && e == Entry(baseUrl, init[i]);
          assert links[i] == init[i];
        } else {
          assert IsKept(links[|links| - 1]) && e == Entry(baseUrl, links[|links| - 1]);
        }
      }
    }
  }

  /**
   * `_parse_cell` / `_parse_calendar_cell`: nothing for a cell without a day,
   * for a skipped day, or when reading the links raises; otherwise the
   * cell's links counted and kept.
   */
  function ParseCell(baseUrl: string, cell: DayCell, todayDay: int, isCurrentMonth: bool): (r: Outcome)
    ensures cell.day.None? || ShouldSkip(cell.day.value, todayDay, isCurrentMonth) || cell.links.None? ==> r == (0, [])
    ensures cell.day.Some? && !ShouldSkip(cell.day.value, todayDay, isCurrentMonth) && cell.links.Some? ==>
      r == (SpacCount(cell.links.value), KeptEntries(baseUrl, cell.links.value))
  {
    if cell.day.None? then (0, [])
    else if ShouldSkip(cell.day.value, todayDay, isCurrentMonth) then (0, [])
    else match cell.links
      case None => (0, [])
      case Some(links) => (SpacCount(links), KeptEntries(baseUrl, links))
  }

  /** In the current month, a cell dated today or later contributes nothing, whatever its links. */
  lemma TodayAndLaterSkipped(baseUrl: string, cell: DayCell, todayDay: int)
    requires cell.day.Some? && cell.day.value >= todayDay
    ensures ParseCell(baseUrl, cell, todayDay, true) == (0, [])
  {
  }

  // ---------------------------------------------------------------------
  // One month's table

  /** The cells' outcomes added up and concatenated, in cell order. */
  function TableOutcome(baseUrl: string, cells: seq<DayCell>, todayDay: int, isCurrentMonth: bool): Outcome {
    if cells == [] then (0, [])
    else
      var acc := TableOutcome(baseUrl, cells[..|cells| - 1], todayDay, isCurrentMonth);
      var c := ParseCell(baseUrl, cells[|cells| - 1], todayDay, isCurrentMonth);
      (acc.0 + c.0, acc.1 + c.1)
  }

  /** `_parse_table` / `_parse_calendar_table` as a function of the page: nothing when the table is hidden. */
  function PageOutcome(baseUrl: string, page: MonthPage, todayDay: int, isCurrentMonth: bool): Outcome {
    match page
    case TableHidden => (0, [])
    case CalendarTable(cells) => TableOutcome(baseUrl, cells, todayDay, isCurrentMonth)
  }

  method ParseTable(baseUrl: string, page: MonthPage, todayDay: int, isCurrentMonth: bool)
    returns (spacksTotal: nat, resultsTotal: seq<Listing>)
    ensures (spacksTotal, resultsTotal) == PageOutcome(baseUrl, page, todayDay, isCurrentMonth)
  {
    if page.TableHidden? {
      return 0, [];
    }
    var cells := page.cells;
    spacksTotal := 0;
    resultsTotal := [];
    for i := 0 to |cells|
      invariant (spacksTotal, resultsTotal) == TableOutcome(baseUrl, cells[..i], todayDay, isCurrentMonth)
    {
      assert cells[..i + 1][..i] == cells[..i];
      var spackCount, cellResults := ParseCellImpl(baseUrl, cells[i], todayDay, isCurrentMonth);
      spacksTotal := spacksTotal + spackCount;
      resultsTotal := resultsTotal + cellResults;
    }
    assert cells[..|cells|] == cells;
  }

  /** `_parse_cell` as the source runs it, through the link loop. */
  method ParseCellImpl(baseUrl: string, cell: DayCell, todayDay: int, isCurrentMonth: bool)
    returns (spackCount: nat, cellResults: seq<Listing>)
    ensures (spackCount, cellResults) == ParseCell(baseUrl, cell, todayDay, isCurrentMonth)
  {
    if cell.day.None? {
      return 0, [];
    }
    if ShouldSkip(cell.day.value, todayDay, isCurrentMonth) {
      return 0, [];
    }
    if cell.links.None? {
      return 0, [];
    }
    spackCount, cellResults := ExtractLinks(baseUrl, cell.links.value);
  }

  // ---------------------------------------------------------------------
  // The whole pass

  /** Month outcomes `f(start)..f(m-1)` added up in month order; None from the first month that is None on. */
  function SumOutcomes(f: int -> Option<Outcome>, start: int, m: int): Option<Outcome>
    decreases m - start
  {
    if m <= start then Some((0, []))
    else match SumOutcomes(f, start, m - 1)
      case None => None
      case Some(acc) =>
        match f(m - 1)
        case None => None
        case Some(o) => Some((acc.0 + o.0, acc.1 + o.1))
  }

  /** Month outcomes `g(start)..g(m-1)` added up in month order. */
  function TotalOutcome(g: int -> Outcome, start: int, m: int): Outcome
    decreases m - start
  {
    if m <= start then (0, [])
    else
      var acc := TotalOutcome(g, start, m - 1);
      (acc.0 + g(m - 1).0, acc.1 + g(m - 1).1)
  }

  lemma SumStep(f: int -> Option<Outcome>, start: int, m: int, spacs: nat, results: seq<Listing>, o: Outcome)
    requires start <= m && f(m) == Some(o)
    requires SumOutcomes(f, start, m).Some?
    requires SumOutcomes(f, start, m).value.0 == spacs && SumOutcomes(f, start, m).value.1 == results
    ensures SumOutcomes(f, start, m + 1).Some?
    ensures SumOutcomes(f, start, m + 1).value.0 == spacs + o.0
    ensures SumOutcomes(f, start, m + 1).value.1 == results + o.1
  {
  }

  /** A month that fails makes every pass that includes it fail. */
  lemma {:induction false} SumFailsFrom(f: int -> Option<Outcome>, start: int, m: int, n: int)
    requires start <= m < n && f(m).None?
    ensures SumOutcomes(f, start, n).None?
    decreases n - m
  {
    if n > m + 1 {
      SumFailsFrom(f, start, m, n - 1);
    }
  }

  /** Where no month fails, the failing sum is the plain total of the same outcomes. */
  lemma {:induction false} SumOfTotal(f: int -> Option<Outcome>, g: int -> Outcome, start: int, m: int)
    requires forall k :: start <= k < m ==> f(k) == Some(g(k))
    ensures SumOutcomes(f, start, m) == Some(TotalOutcome(g, start, m))
    decreases m - start
  {
    if m > start {
      SumOfTotal(f, g, start, m - 1);
    }
  }

  /**
   * One month of `scrape_calendar`: its page's outcome, the month `end`
   * being the current one; None when the navigation fails, which raises out
   * of the whole pass.
   */
  function MonthOutcome(visit: string -> Navigation, year: int, month: int, end: int, todayDay: int): (r: Option<Outcome>)
    ensures r.None? <==> visit(MonthUrl(SCHEDULE_URL, year, month)).NavigationFailed?
  {
    match visit(MonthUrl(SCHEDULE_URL, year, month))
    case NavigationFailed => None
    case Reached(page) => Some(PageOutcome(BASE_URL, page, todayDay, month == end))
  }

  function Months(visit: string -> Navigation, year: int, end: int, todayDay: int): int -> Option<Outcome> {
    (month: int) => MonthOutcome(visit, year, month, end, todayDay)
  }

  /** The report of a pass: the listing count is the number of listings. */
  function Report(o: Outcome): (r: ScrapeReport)
    ensures r.finalStockCount == |r.results| && r.spackFilteredCount == o.0 && r.results == o.1
  {
    ScrapeReport(|o.1|, o.0, o.1)
  }

  /** The body of the `scrape_calendar` month loop. */
  method VisitMonth(visit: string -> Navigation, year: int, month: int, endMonth: int, todayDay: int)
    returns (outcome: Option<Outcome>)
    ensures outcome == MonthOutcome(visit, year, month, endMonth, todayDay)
  {
    var isCurrent := month == endMonth;
    var navigation := visit(MonthUrl(SCHEDULE_URL, year, month));
    if navigation.NavigationFailed? {
      return None;
    }
    var spacs, results := ParseTable(BASE_URL, navigation.page, todayDay, isCurrent);
    return Some((spacs, results));
  }

  /**
   * `CalendarScraperAdapter.scrape_calendar`: visit months `start..end` in
   * order, summing SPAC counts and concatenating listings; None when a
   * navigation fails.
   */
  method ScrapeCalendar(visit: string -> Navigation, year: int, startMonth: int, endMonth: int, todayDay: int)
    returns (report: Option<ScrapeReport>)
    ensures report.Some? ==> report.value.finalStockCount == |report.value.results|
    ensures report.None? <==> SumOutcomes(Months(visit, year, endMonth, todayDay), startMonth, endMonth + 1).None?
    ensures report.Some? ==> report.value == Report(SumOutcomes(Months(visit, year, endMonth, todayDay), startMonth, endMonth + 1).value)
  {
    ghost var f := Months(visit, year, endMonth, todayDay);
    var totalSpacs: nat := 0;
    var totalResults: seq<Listing> := [];
    // range(start_month, end_month + 1) is empty when the end precedes the start
    var stop := if endMonth + 1 < startMonth then startMonth else endMonth + 1;
    var month := startMonth;
    while month < stop
      invariant startMonth <= month <= stop
      invariant SumOutcomes(f, startMonth, month).Some?
      invariant SumOutcomes(f, startMonth, month).value.0 == totalSpacs
      invariant SumOutcomes(f, startMonth, month).value.1 == totalResults
      decreases stop - month
    {
      var outcome := VisitMonth(visit, year, month, endMonth, todayDay);
      assert f(month) == outcome;
      if outcome.None? {
        assert stop == endMonth + 1;
        SumFailsFrom(f, startMonth, month, endMonth + 1);
        return None;
      }
      SumStep(f, startMonth, month, totalSpacs, totalResults, outcome.value);
      totalSpacs := totalSpacs + outcome.value.0;
      totalResults := totalResults + outcome.value.1;
      month := month + 1;
    }
    assert SumOutcomes(f, startMonth, endMonth + 1) == SumOutcomes(f, startMonth, stop) by {
      if endMonth + 1 < startMonth {
        assert SumOutcomes(f, startMonth, endMonth + 1) == Some((0, []));
      }
    }
    return Some(Report((totalSpacs, totalResults)));
  }

  /**
   * One month of the older `get_ipos`: nothing when there is no page at all
   * or when the navigation fails, which is reported and skipped.
   */
  function LegacyMonthOutcome(pageAvailable: bool, baseUrl: string, scheduleUrl: string, visit: string -> Navigation,
                              year: int, month: int, end: int, todayDay: int): (r: Outcome)
    ensures !pageAvailable || visit(MonthUrl(scheduleUrl, year, month)).NavigationFailed? ==> r == (0, [])
  {
    if !pageAvailable then (0, [])
    else match visit(MonthUrl(scheduleUrl, year, month))
      case NavigationFailed => (0, [])
      case Reached(page) => PageOutcome(baseUrl, page, todayDay, month == end)
  }

  function LegacyMonths(pageAvailable: bool, baseUrl: string, scheduleUrl: string, visit: string -> Navigation,
                        year: int, end: int, todayDay: int): int -> Outcome {
    (month: int) => LegacyMonthOutcome(pageAvailable, baseUrl, scheduleUrl, visit, year, month, end, todayDay)
  }

  /** The body of the `get_ipos` month loop. */
  method VisitLegacyMonth(pageAvailable: bool, baseUrl: string, scheduleUrl: string, visit: string -> Navigation,
                          year: int, month: int, endMonth: int, todayDay: int)
    returns (spackCount: nat, results: seq<Listing>)
    ensures (spackCount, results) == LegacyMonthOutcome(pageAvailable, baseUrl, scheduleUrl, visit, year, month, endMonth, todayDay)
  {
    if !pageAvailable {
      return 0, [];
    }
    var navigation := visit(MonthUrl(scheduleUrl, year, month));
    if navigation.NavigationFailed? {
      return 0, [];
    }
    var isCurrentMonth := month == endMonth;
    spackCount, results := ParseTable(baseUrl, navigation.page, todayDay, isCurrentMonth);
  }

  /** `CalendarParser.get_ipos`: the skipping variant of the pass. */
  method GetIpos(pageAvailable: bool, baseUrl: string, scheduleUrl: string, visit: string -> Navigation,
                 year: int, startMonth: int, endMonth: int, todayDay: int)
    returns (report: ScrapeReport)
    ensures report.finalStockCount == |report.results|
    ensures report == Report(TotalOutcome(LegacyMonths(pageAvailable, baseUrl, scheduleUrl, visit, year, endMonth, todayDay),
                                          startMonth, endMonth + 1))
  {
    ghost var g := LegacyMonths(pageAvailable, baseUrl, scheduleUrl, visit, year, endMonth, todayDay);
    var totalSpacksFiltered: nat := 0;
    var totalResults: seq<Listing> := [];
    if startMonth <= endMonth + 1 {
      for month := startMonth to endMonth + 1
        invariant TotalOutcome(g, startMonth, month).0 == totalSpacksFiltered
        invariant TotalOutcome(g, startMonth, month).1 == totalResults
      {
        var spackCount, results := VisitLegacyMonth(pageAvailable, baseUrl, scheduleUrl, visit, year, month, endMonth, todayDay);
        assert g(month) == (spackCount, results);
        totalSpacksFiltered := totalSpacksFiltered + spackCount;
        totalResults := totalResults + results;
      }
    }
    return Report((totalSpacksFiltered, totalResults));
  }

  /**
   * The two passes agree whenever every navigation succeeds: the older one
   * differs only in skipping the months the newer one fails on.
   */
  lemma PassesAgree(visit: string -> Navigation, year: int, start: int, end: int, todayDay: int)
    requires forall k :: start <= k <= end ==> visit(MonthUrl(SCHEDULE_URL, year, k)).Reached?
    ensures SumOutcomes(Months(visit, year, end, todayDay), start, end + 1) ==
      Some(TotalOutcome(LegacyMonths(true, BASE_URL, SCHEDULE_URL, visit, year, end, todayDay), start, end + 1))
  {
    var f := Months(visit, year, end, todayDay);
    var g := LegacyMonths(true, BASE_URL, SCHEDULE_URL, visit, year, end, todayDay);
    forall k | start <= k < end + 1
      ensures f(k) == Some(g(k))
    {
      assert visit(MonthUrl(SCHEDULE_URL, year, k)).Reached?;
    }
    SumOfTotal(f, g, start, end + 1);
  }

  /** A failed navigation makes `scrape_calendar` fail, while `get_ipos` only leaves that month out. */
  lemma FailureDiverges(visit: string -> Navigation, year: int, start: int, month: int, end: int, todayDay: int)
    requires start <= month <= end && visit(MonthUrl(SCHEDULE_URL, year, month)).NavigationFailed?
    ensures SumOutcomes(Months(visit, year, end, todayDay), start, end + 1).None?
    ensures LegacyMonths(true, BASE_URL, SCHEDULE_URL, visit, year, end, todayDay)(month) == (0, [])
  {
    SumFailsFrom(Months(visit, year, end, todayDay), start, month, end + 1);
  }
}
