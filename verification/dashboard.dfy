/** The request guard and statement-kind mapping of `sf_fundamentals`: what the
    page does once the user ticks "Get fundamental data" or "Get price ratio
    data", given the selected tickers, years and statement kind. */
module Dashboard {
  import opened Wrappers
  import opened Text
  import opened Fetch
  import opened Tables
  import opened Projection

  /** Largest ticker selection the page will fetch for. */
  const MaxTickers: nat := 10

  const TooManyTickersWarning := "To preserve bandwidth, you can only select up to 10 tickers"
  const EndBeforeStartWarning := "Error: End date must be larger than start date"

  /** Which branch of the guard is taken. */
  datatype Guard = TooManyTickers | EndBeforeStart | Proceed

  /** The `if/elif/else` in front of both fetches; the ticker limit is checked first. */
  function CheckRequest(tickerCount: nat, startYear: int, endYear: int): (g: Guard)
    ensures g.Proceed? <==> tickerCount <= MaxTickers && startYear <= endYear
    ensures g.TooManyTickers? <==> tickerCount > MaxTickers
    ensures g.EndBeforeStart? <==> tickerCount <= MaxTickers && endYear < startYear
  {
    if tickerCount > MaxTickers then TooManyTickers
    else if endYear < startYear then EndBeforeStart
    else Proceed
  }

  /** The statement kinds offered in the selector, in display order. */
  const StatementChoices: seq<string> := ["Profit Loss", "Balance Sheet", "Cash Flow", "Derived Ratios", "All"]

  /** The API's statement codes. */
  const StatementCodes: seq<string> := ["pl", "bs", "cf", "derived", "all"]

  /** Maps the selector's label to the API code; anything unrecognised asks for all statements. */
  function StatementCode(choice: string): (code: string)
    ensures code in StatementCodes
    ensures code == "all" <==>
              choice != "Profit Loss" && choice != "Balance Sheet" &&
              choice != "Cash Flow" && choice != "Derived Ratios"
  {
    if choice == "Profit Loss" then "pl"
    else if choice == "Balance Sheet" then "bs"
    else if choice == "Cash Flow" then "cf"
    else if choice == "Derived Ratios" then "derived"
    else "all"
  }

  /** The selector label a specific statement code came from. */
  function StatementChoice(code: string): Option<string> {
    if code == "pl" then Some("Profit Loss")
    else if code == "bs" then Some("Balance Sheet")
    else if code == "cf" then Some("Cash Flow")
    else if code == "derived" then Some("Derived Ratios")
    else None
  }

  /** Each specific label maps to a code that leads back to it, so no two labels share a code. */
  lemma StatementCodeRoundTrip(choice: string)
    ensures StatementCode(choice) != "all" ==> StatementChoice(StatementCode(choice)) == Some(choice)
    ensures StatementCode(choice) == "all" ==> StatementChoice(StatementCode(choice)) == None
  {
  }

  /** The five selector labels map to the five codes, position by position. */
  lemma StatementChoicesMapToCodes()
    ensures forall i :: 0 <= i < |StatementChoices| ==> StatementCode(StatementChoices[i]) == StatementCodes[i]
  {
  }

  /** What a tick of one of the two checkboxes leads to. */
  datatype Outcome =
    | Warning(message: string)
    | FetchStatements(statementQuery: StatementQuery)
    | FetchPrices(priceQuery: PriceQuery)

  function GuardWarning(g: Guard): string
    requires !g.Proceed?
  {
    if g.TooManyTickers? then TooManyTickersWarning else EndBeforeStartWarning
  }

  /** The fundamental-data branch: a statements request for the chosen kind and
      years, or exactly one of the two warnings. */
  function FundamentalsStep(tickers: seq<string>, startYear: int, endYear: int,
                            choice: string, currentYear: int): (o: Outcome)
    ensures o.FetchStatements? || o.Warning?
    ensures o.FetchStatements? <==> |tickers| <= MaxTickers && startYear <= endYear
    ensures o.Warning? ==>
              o.message == if |tickers| > MaxTickers then TooManyTickersWarning else EndBeforeStartWarning
    ensures o.FetchStatements? ==>
              o.statementQuery.statement == StatementCode(choice) &&
              o.statementQuery.fyear == FYearParam(startYear, endYear) &&
              o.statementQuery.ticker == Join(tickers, ',')
  {
    var g := CheckRequest(|tickers|, startYear, endYear);
    if g.Proceed? then
      FetchStatements(StatementRequest(tickers, StatementCode(choice), currentYear, Some(startYear), Some(endYear)))
    else Warning(GuardWarning(g))
  }

  /** The price-data branch: a prices request for the chosen years, or exactly one
      of the two warnings. */
  function PricesStep(tickers: seq<string>, startYear: int, endYear: int, currentYear: int): (o: Outcome)
    ensures o.FetchPrices? || o.Warning?
    ensures o.FetchPrices? <==> |tickers| <= MaxTickers && startYear <= endYear
    ensures o.Warning? ==>
              o.message == if |tickers| > MaxTickers then TooManyTickersWarning else EndBeforeStartWarning
    ensures o.FetchPrices? ==>
              o.priceQuery.start == IntText(startYear) + "-01-01" &&
              o.priceQuery.end == IntText(endYear) + "-12-31" &&
              o.priceQuery.ticker == Join(tickers, ',')
  {
    var g := CheckRequest(|tickers|, startYear, endYear);
    if g.Proceed? then FetchPrices(PriceRequest(tickers, currentYear, Some(startYear), Some(endYear)))
    else Warning(GuardWarning(g))
  }

  /** `[*range(current_year, 2000, -1)]`: the year selector's options, newest first. */
  function YearChoices(currentYear: int): (ys: seq<int>)
    ensures |ys| == if currentYear > 2000 then currentYear - 2000 else 0
    ensures forall i :: 0 <= i < |ys| ==> ys[i] == currentYear - i
    decreases currentYear - 2000
  {
    if currentYear <= 2000 then [] else [currentYear] + YearChoices(currentYear - 1)
  }

  /** The selector offers exactly the years from 2001 to the current year. */
  lemma YearChoicesRange(currentYear: int, y: int)
    ensures y in YearChoices(currentYear) <==> 2001 <= y <= currentYear
  {
    var ys := YearChoices(currentYear);
    if 2001 <= y <= currentYear {
      assert ys[currentYear - y] == y;
    }
  }

  /** Asking for AAPL's derived ratios from 2019 to 2020 sends one statements query
      for both fiscal years. */
  lemma DerivedRatiosScenario(currentYear: int)
    ensures var o := FundamentalsStep(["AAPL"], 2019, 2020, "Derived Ratios", currentYear);
            && o.FetchStatements?
            && o.statementQuery == StatementQuery("derived", "AAPL", "quarters", "2019,2020")
  {
    assert FiscalYears(2019, 2020) == [2019, 2020];
    assert NatText(2019) == "2019";
    assert NatText(2020) == "2020";
    assert FYearParam(2019, 2020) == "2019,2020";
    assert StatementCode("Derived Ratios") == "derived";
    assert Join(["AAPL"], ',') == "AAPL";
    assert CheckRequest(1, 2019, 2020).Proceed?;
  }

  /** When the provider finds nothing, the fundamental table has no columns and its
      projection fails on the "Publish Date" lookup. */
  lemma EmptyFetchFundamentalProjection(pages: seq<Page>)
    requires forall i :: 0 <= i < |pages| ==> !Kept(pages[i])
    ensures MergedFrame(pages).Success?
    ensures ProjectFundamental(MergedFrame(pages).value) == Failure(KeyError("Publish Date"))
  {
    NothingKeptEmptyFrame(pages);
  }

  /** When the provider finds nothing, the price projection still yields every
      allow-listed column, with no rows. */
  lemma EmptyFetchPriceProjection(pages: seq<Page>)
    requires forall i :: 0 <= i < |pages| ==> !Kept(pages[i])
    ensures MergedFrame(pages).Success?
    ensures var r := ProjectPrices(MergedFrame(pages).value);
            r.Success? && r.value.frame == Frame(PriceColumns, [])
  {
    NothingKeptEmptyFrame(pages);
    PriceColumnsDistinct();
    var r := ReindexAndIndex(Frame([], []), PriceColumns, "Date");
    assert PriceColumns[0] == "Date";
    assert r.Success?;
    assert r.value.frame.rows == [];
  }
}
