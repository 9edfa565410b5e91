/** The data-shaping half of the two SimFin fetchers (`get_simfin_fundamental`,
    `get_simfin_prices`): defaulting the year range, building the request
    parameters, and merging the already-decoded response pages into one table.
    The HTTP call itself is the parameter `respond`. */
module Fetch {
  import opened Wrappers
  import opened Text
  import opened Tables

  /** One decoded response object: whether the provider found the ticker, the
      column labels it reports and its rows. */
  datatype Page = Page(found: bool, columns: seq<string>, data: seq<Row>)

  /** A page the merge loop takes rows from. */
  predicate Kept(p: Page) {
    p.found && |p.data| > 0
  }

  /** The kept pages, in response order. */
  function KeptPages(pages: seq<Page>): (r: seq<Page>)
    ensures forall p :: p in r <==> p in pages && Kept(p)
    decreases |pages|
  {
    if |pages| == 0 then []
    else (if Kept(pages[0]) then [pages[0]] else []) + KeptPages(pages[1..])
  }

  /** The schema the loop settles on: `columns` of the first kept page whose
      column list is non-empty; empty when there is none. */
  function Schema(pages: seq<Page>): seq<string>
    decreases |pages|
  {
    if |pages| == 0 then []
    else if Kept(pages[0]) && |pages[0].columns| > 0 then pages[0].columns
    else Schema(pages[1..])
  }

  /** All rows of the kept pages, in response order. */
  function Rows(pages: seq<Page>): seq<Row>
    decreases |pages|
  {
    if |pages| == 0 then []
    else (if Kept(pages[0]) then pages[0].data else []) + Rows(pages[1..])
  }

  lemma {:induction false} SchemaAppend(a: seq<Page>, b: seq<Page>)
    ensures Schema(a + b) == if |Schema(a)| > 0 then Schema(a) else Schema(b)
    decreases |a|
  {
    if |a| == 0 {
      assert a + b == b;
    } else {
      assert (a + b)[1..] == a[1..] + b;
      SchemaAppend(a[1..], b);
    }
  }

  /** Rows of a concatenated response are the rows of each part, in order. */
  lemma {:induction false} RowsAppend(a: seq<Page>, b: seq<Page>)
    ensures Rows(a + b) == Rows(a) + Rows(b)
    decreases |a|
  {
    if |a| == 0 {
      assert a + b == b;
    } else {
      assert (a + b)[1..] == a[1..] + b;
      RowsAppend(a[1..], b);
    }
  }

  /** The merge loop as written: one pass over the pages, taking the schema when
      none is set yet and appending the rows of every kept page. */
  method MergePages(pages: seq<Page>) returns (columns: seq<string>, output: seq<Row>)
    ensures columns == Schema(pages)
    ensures output == Rows(pages)
  {
    columns := [];
    output := [];
    var i := 0;
    while i < |pages|
      invariant 0 <= i <= |pages|
      invariant columns == Schema(pages[..i])
      invariant output == Rows(pages[..i])
    {
      var data := pages[i];
      SchemaAppend(pages[..i], [data]);
      RowsAppend(pages[..i], [data]);
      assert pages[..i + 1] == pages[..i] + [data];
      if data.found && |data.data| > 0 {
        if |columns| == 0 {
          columns := data.columns;
        }
        output := output + data.data;
      }
      i := i + 1;
    }
    assert pages[..i] == pages;
  }

  /** Pages that are not kept contribute neither rows nor schema. */
  lemma {:induction false} SkippedPagesContributeNothing(pages: seq<Page>)
    ensures Rows(pages) == Rows(KeptPages(pages))
    ensures Schema(pages) == Schema(KeptPages(pages))
    decreases |pages|
  {
    if |pages| > 0 {
      SkippedPagesContributeNothing(pages[1..]);
      var head := if Kept(pages[0]) then [pages[0]] else [];
      RowsAppend(head, KeptPages(pages[1..]));
      SchemaAppend(head, KeptPages(pages[1..]));
    }
  }

  /** A row is in the merged output exactly when some kept page carries it. */
  lemma {:induction false} RowsMembership(pages: seq<Page>, row: Row)
    ensures row in Rows(pages) <==> exists p :: p in pages && Kept(p) && row in p.data
    decreases |pages|
  {
    if |pages| > 0 {
      RowsMembership(pages[1..], row);
      assert forall p :: p in pages <==> p == pages[0] || p in pages[1..];
    }
  }

  /** The schema comes from the first kept page, and later pages never replace it. */
  lemma {:induction false} SchemaFromFirstKeptPage(skipped: seq<Page>, first: Page, rest: seq<Page>)
    requires forall i :: 0 <= i < |skipped| ==> !Kept(skipped[i])
    requires Kept(first) && |first.columns| > 0
    ensures Schema(skipped + [first] + rest) == first.columns
    decreases |skipped|
  {
    if |skipped| == 0 {
      assert skipped + [first] + rest == [first] + rest;
    } else {
      assert (skipped + [first] + rest)[1..] == skipped[1..] + [first] + rest;
      SchemaFromFirstKeptPage(skipped[1..], first, rest);
    }
  }

  /** With no kept page the merge yields neither columns nor rows. */
  lemma {:induction false} NothingKept(pages: seq<Page>)
    requires forall i :: 0 <= i < |pages| ==> !Kept(pages[i])
    ensures Schema(pages) == [] && Rows(pages) == []
    decreases |pages|
  {
    if |pages| > 0 {
      NothingKept(pages[1..]);
    }
  }

  /** `pd.DataFrame(output, columns=columns)` on the merged pages: the table has the
      schema as labels and one row per merged row, short rows padded with missing
      values; it fails when a row is wider than the schema, or when rows exist and
      none is as wide as the schema. */
  function MergedFrame(pages: seq<Page>): (r: Result<Frame, TableError>)
    ensures var schema, rows := Schema(pages), Rows(pages);
            r.Success? <==>
              (forall i :: 0 <= i < |rows| ==> |rows[i]| <= |schema|) &&
              (|rows| == 0 || exists i :: 0 <= i < |rows| && |rows[i]| == |schema|)
    ensures var schema, rows := Schema(pages), Rows(pages);
            r.Success? ==>
              && r.value.columns == schema
              && Rectangular(r.value)
              && |r.value.rows| == |rows|
              && forall i, j :: 0 <= i < |rows| && 0 <= j < |schema| ==>
                   r.value.rows[i][j] == if j < |rows[i]| then rows[i][j] else Missing
  {
    BuildFrame(Schema(pages), Rows(pages))
  }

  /** With no kept page the fetch returns an empty table with no columns, not an error. */
  lemma NothingKeptEmptyFrame(pages: seq<Page>)
    requires forall i :: 0 <= i < |pages| ==> !Kept(pages[i])
    ensures MergedFrame(pages) == Success(Frame([], []))
  {
    NothingKept(pages);
  }

  /** When every kept row has exactly one value per schema label, the table holds
      the merged rows unchanged. */
  lemma UniformPagesFrame(pages: seq<Page>)
    requires forall r :: r in Rows(pages) ==> |r| == |Schema(pages)|
    ensures MergedFrame(pages).Success?
    ensures MergedFrame(pages).value == Frame(Schema(pages), Rows(pages))
  {
    var rows := Rows(pages);
    var f := MergedFrame(pages).value;
    assert forall i :: 0 <= i < |rows| ==> rows[i] in rows;
    assert forall i :: 0 <= i < |rows| ==> f.rows[i] == rows[i];
  }

  /** A kept row wider than the first page's schema makes the table constructor fail. */
  lemma WiderRowFails(pages: seq<Page>, r: Row)
    requires r in Rows(pages) && |r| > |Schema(pages)|
    ensures MergedFrame(pages).Failure?
  {
  }

  // ---- Year range and request parameters ----

  /** The defaulting at the top of both fetchers: a missing end year is the current
      year, a missing start year is the year before the end year. */
  function ResolveYears(currentYear: int, yearStart: Option<int>, yearEnd: Option<int>): (r: (int, int))
    ensures yearEnd.Some? ==> r.1 == yearEnd.value
    ensures yearEnd.None? ==> r.1 == currentYear
    ensures yearStart.Some? ==> r.0 == yearStart.value
    ensures yearStart.None? ==> r.0 == r.1 - 1
  {
    var yearEnd' := yearEnd.GetOr(currentYear);
    (yearStart.GetOr(yearEnd' - 1), yearEnd')
  }

  /** `list(range(start, end + 1))`. */
  function FiscalYears(start: int, end: int): (ys: seq<int>)
    ensures |ys| == if start <= end then end - start + 1 else 0
    ensures forall i :: 0 <= i < |ys| ==> ys[i] == start + i
    decreases end - start
  {
    if start > end then [] else [start] + FiscalYears(start + 1, end)
  }

  /** The `fyear` parameter: the fiscal years as decimal text, joined with commas. */
  function FYearParam(start: int, end: int): string {
    var ys := FiscalYears(start, end);
    Join(seq(|ys|, i requires 0 <= i < |ys| => IntText(ys[i])), ',')
  }

  /** The `fyear` parameter reads back as every year from start to end, ascending;
      it is empty when the range is empty. */
  lemma FYearParamReadsBack(start: int, end: int)
    ensures start > end ==> FYearParam(start, end) == ""
    ensures start <= end ==>
              var parts := Split(FYearParam(start, end), ',');
              && |parts| == end - start + 1
              && forall i :: 0 <= i < |parts| ==> ReadInt(parts[i]) == Some(start + i)
  {
    if start <= end {
      var ys := FiscalYears(start, end);
      var texts := seq(|ys|, i requires 0 <= i < |ys| => IntText(ys[i]));
      SplitJoin(texts, ',');
      forall i | 0 <= i < |texts|
        ensures ReadInt(texts[i]) == Some(start + i)
      {
        ReadIntText(ys[i]);
      }
    }
  }

  /** Query parameters of the statements endpoint (the API key is left out). */
  datatype StatementQuery = StatementQuery(statement: string, ticker: string, period: string, fyear: string)

  /** Query parameters of the prices endpoint (the API key is left out). */
  datatype PriceQuery = PriceQuery(ticker: string, ratios: string, start: string, end: string)

  /** The `ticker` parameter: the tickers joined with commas. An empty selection
      gives an empty text; comma-free tickers split back out of it. */
  lemma TickerParamReadsBack(tickers: seq<string>)
    ensures |tickers| == 0 ==> Join(tickers, ',') == ""
    ensures |tickers| >= 1 && (forall i :: 0 <= i < |tickers| ==> ',' !in tickers[i]) ==>
              Split(Join(tickers, ','), ',') == tickers
  {
    if |tickers| >= 1 && forall i :: 0 <= i < |tickers| ==> ',' !in tickers[i] {
      SplitJoin(tickers, ',');
    }
  }

  /** The `parameters` of `get_simfin_fundamental`: the statement code, every ticker
      once and in order (an empty selection sends an empty ticker text), quarterly
      data, and exactly the resolved fiscal years. */
  function StatementRequest(tickers: seq<string>, statement: string, currentYear: int,
                            yearStart: Option<int>, yearEnd: Option<int>): (q: StatementQuery)
    ensures var (ys, ye) := ResolveYears(currentYear, yearStart, yearEnd);
            && q.statement == statement
            && q.period == "quarters"
            && (|tickers| == 0 ==> q.ticker == "")
            && (|tickers| >= 1 && (forall i :: 0 <= i < |tickers| ==> ',' !in tickers[i]) ==>
                  Split(q.ticker, ',') == tickers)
            && (ys > ye ==> q.fyear == "")
            && (ys <= ye ==>
                  var parts := Split(q.fyear, ',');
                  |parts| == ye - ys + 1 &&
                  forall i :: 0 <= i < |parts| ==> ReadInt(parts[i]) == Some(ys + i))
  {
    var (ys, ye) := ResolveYears(currentYear, yearStart, yearEnd);
    TickerParamReadsBack(tickers);
    FYearParamReadsBack(ys, ye);
    StatementQuery(statement, Join(tickers, ','), "quarters", FYearParam(ys, ye))
  }

  /** The `parameters` of `get_simfin_prices`: every ticker once and in order, the
      ratios flag, and the span from the first day of the start year to the last
      day of the end year. */
  function PriceRequest(tickers: seq<string>, currentYear: int,
                        yearStart: Option<int>, yearEnd: Option<int>): (q: PriceQuery)
    ensures var (ys, ye) := ResolveYears(currentYear, yearStart, yearEnd);
            && (|tickers| == 0 ==> q.ticker == "")
            && (|tickers| >= 1 && (forall i :: 0 <= i < |tickers| ==> ',' !in tickers[i]) ==>
                  Split(q.ticker, ',') == tickers)
            && q.ratios == "&ratios"
            && |q.start| > 6 && q.start[|q.start| - 6..] == "-01-01"
            && ReadInt(q.start[..|q.start| - 6]) == Some(ys)
            && |q.end| > 6 && q.end[|q.end| - 6..] == "-12-31"
            && ReadInt(q.end[..|q.end| - 6]) == Some(ye)
  {
    var (ys, ye) := ResolveYears(currentYear, yearStart, yearEnd);
    TickerParamReadsBack(tickers);
    ReadIntText(ys);
    ReadIntText(ye);
    var start, end := IntText(ys) + "-01-01", IntText(ye) + "-12-31";
    assert start[..|start| - 6] == IntText(ys);
    assert end[..|end| - 6] == IntText(ye);
    PriceQuery(Join(tickers, ','), "&ratios", start, end)
  }

  /** With only the end year given, two fiscal years are requested: the one before and that one. */
  lemma DefaultStartSpansTwoYears(currentYear: int, yearEnd: Option<int>)
    ensures var (ys, ye) := ResolveYears(currentYear, None, yearEnd);
            FiscalYears(ys, ye) == [ye - 1, ye]
  {
  }

  /** `get_simfin_fundamental`: the request it sends, and the table built from the
      pages the provider answers it with. */
  function GetSimfinFundamental(tickers: seq<string>, statement: string, currentYear: int,
                                yearStart: Option<int>, yearEnd: Option<int>,
                                respond: StatementQuery -> seq<Page>): (r: (StatementQuery, Result<Frame, TableError>))
    ensures r.0 == StatementRequest(tickers, statement, currentYear, yearStart, yearEnd)
    ensures r.1.Success? ==> r.1.value.columns == Schema(respond(r.0)) &&
                             |r.1.value.rows| == |Rows(respond(r.0))|
  {
    var q := StatementRequest(tickers, statement, currentYear, yearStart, yearEnd);
    (q, MergedFrame(respond(q)))
  }

  /** `get_simfin_prices`, in the same shape. */
  function GetSimfinPrices(tickers: seq<string>, currentYear: int,
                           yearStart: Option<int>, yearEnd: Option<int>,
                           respond: PriceQuery -> seq<Page>): (r: (PriceQuery, Result<Frame, TableError>))
    ensures r.0 == PriceRequest(tickers, currentYear, yearStart, yearEnd)
    ensures r.1.Success? ==> r.1.value.columns == Schema(respond(r.0)) &&
                             |r.1.value.rows| == |Rows(respond(r.0))|
  {
    var q := PriceRequest(tickers, currentYear, yearStart, yearEnd);
    (q, MergedFrame(respond(q)))
  }
}
