/** The two column projectors of `pages/sf.py`: `subset_fundamental` keeps the
    allow-listed columns in the table's own order and indexes by "Publish Date";
    `subset_prices` reindexes to exactly its allow-list and indexes by "Date".
    Also the indicator choices offered after each projection. */
module Projection {
  import opened Wrappers
  import opened Seqs
  import opened Tables

  /** The allow-list of `subset_fundamental`. */
  const FundamentalColumns: seq<string> := [
    "Ticker", "Fiscal Year", "Fiscal Period", "Publish Date", "Report Date",
    "Revenue", "Cost of Revenue", "Operating Expense", "Selling & Marketing",
    "General & Administrative", "Research & Development", "Operating Income (Loss)",
    "Non-Operating Income (Loss)", "Gross Profit", "Net Income",
    "Cash & Cash Equivalents", "Short Term Investments", "Accounts & Notes Receivable", "Inventories",
    "Total Current Assets", "Total Noncurrent Assets", "Total Assets",
    "Accounts Payable", "Total Current Liabilities", "Total Noncurrent Liabilities", "Total Liabilities",
    "Retained Earnings", "Total Equity",
    "Stock-Based Compensation", "EBITDA", "Total Debt", "Free Cash Flow",
    "Gross Profit Margin", "Operating Margin", "Net Profit Margin",
    "Return on Equity", "Return on Assets", "Free Cash Flow to Net Income",
    "Current Ratio", "Liabilities to Equity Ratio", "Debt Ratio",
    "Piotroski F-Score", "Return On Invested Capital", "Net Debt / EBITDA", "Net Debt / EBIT"
  ]

  /** The allow-list of `subset_prices`, in the order the result takes. */
  const PriceColumns: seq<string> := [
    "Date", "Ticker", "High", "Low", "Adj. Close", "Volume", "Market-Cap", "Enterprise Value (ttm)",
    "Price to Earnings Ratio (quarterly)", "Price to Earnings Ratio (ttm)",
    "Price to Sales Ratio (quarterly)", "Price to Sales Ratio (ttm)",
    "Price to Free Cash Flow (quarterly)", "Price to Free Cash Flow (ttm)",
    "EV/EBITDA (ttm)", "EV/Sales (ttm)", "EV/FCF (ttm)", "Altman Z Score (ttm)"
  ]

  /** Columns `sf_fundamentals` drops from the fundamental indicator choices. */
  const BaseFundamentalColumns: seq<string> := ["Ticker", "Fiscal Year", "Fiscal Period", "Publish Date", "Report Date"]

  /** Columns `sf_fundamentals` drops from the price indicator choices. */
  const BasePriceColumns: seq<string> := ["Ticker", "Date", "High", "Low", "Adj. Close", "Volume"]

  /** Positions of the columns whose label is allowed, in increasing order. */
  function KeptPositions(columns: seq<string>, allow: seq<string>): (ps: seq<nat>)
    ensures forall k :: 0 <= k < |ps| ==> ps[k] < |columns| && columns[ps[k]] in allow
    ensures forall k, l :: 0 <= k < l < |ps| ==> ps[k] < ps[l]
    ensures forall j :: 0 <= j < |columns| && columns[j] in allow ==> j in ps
    decreases |columns|
  {
    if |columns| == 0 then []
    else
      var ps := KeptPositions(columns[..|columns| - 1], allow);
      if columns[|columns| - 1] in allow then ps + [|columns| - 1] else ps
  }

  /** The `subset` list the loop builds: allowed labels only, read off `columns` in
      their order at exactly the positions that carry an allowed label, so each
      allowed label appears once per occurrence in the table. */
  function Subset(columns: seq<string>, allow: seq<string>): (r: seq<string>)
    ensures forall k :: 0 <= k < |r| ==> r[k] in allow
    ensures EmbedsAt(KeptPositions(columns, allow), r, columns)
  {
    var ps := KeptPositions(columns, allow);
    var r := seq(|ps|, k requires 0 <= k < |ps| => columns[ps[k]]);
    assert EmbedsAt(ps, r, columns);
    r
  }

  /** A label survives the filter exactly when it is in the table and allowed. */
  lemma SubsetMembership(columns: seq<string>, allow: seq<string>, c: string)
    ensures c in Subset(columns, allow) <==> c in columns && c in allow
  {
    var ps := KeptPositions(columns, allow);
    if c in columns && c in allow {
      var j :| 0 <= j < |columns| && columns[j] == c;
      var k :| 0 <= k < |ps| && ps[k] == j;
      assert Subset(columns, allow)[k] == c;
    }
  }

  /** `df[subset]`: the columns at the kept positions, with their cells. */
  function SelectAllowed(f: Frame, allow: seq<string>): (g: Frame)
    requires Rectangular(f)
    ensures Rectangular(g)
    ensures var ps := KeptPositions(f.columns, allow);
            && |g.columns| == |ps|
            && (forall k :: 0 <= k < |ps| ==> g.columns[k] == f.columns[ps[k]])
            && |g.rows| == |f.rows|
            && (forall i, k :: 0 <= i < |f.rows| && 0 <= k < |ps| ==> g.rows[i][k] == f.rows[i][ps[k]])
  {
    var ps := KeptPositions(f.columns, allow);
    Frame(Subset(f.columns, allow),
          seq(|f.rows|, i requires 0 <= i < |f.rows| =>
            seq(|ps|, k requires 0 <= k < |ps| => f.rows[i][ps[k]])))
  }

  /** Keeps the allowed columns in the table's own order, every row kept, and
      indexes by `key`; without `key` in the table the lookup fails, and `key`
      on several columns is treated as a failure of the index assignment. */
  function FilterAndIndex(f: Frame, allow: seq<string>, key: string): (r: Result<IndexedFrame, TableError>)
    requires Rectangular(f) && key in allow
    ensures r.Success? <==> LabelledOnce(f.columns, key)
    ensures r.Failure? ==> r.error == if key in f.columns then IndexNotOneDimensional(key) else KeyError(key)
    ensures r.Success? ==>
              && r.value.frame == SelectAllowed(f, allow)
              && r.value.indexName == key
              && key in r.value.frame.columns
              && |r.value.index| == |f.rows|
              && forall i :: 0 <= i < |f.rows| ==> r.value.index[i] == f.rows[i][Find(f.columns, key).value]
  {
    SubsetMembership(f.columns, allow, key);
    SubsetFind(f, allow, key);
    SubsetLabelledOnce(f, allow, key);
    SetIndex(SelectAllowed(f, allow), key)
  }

  /** `subset_fundamental`: the allow-listed columns in the table's own order, every
      row kept, indexed by "Publish Date". Without that column the index lookup
      raises `KeyError`, even for a table with no columns at all; several such
      columns are treated as a failure of the index assignment. */
  function ProjectFundamental(f: Frame): (r: Result<IndexedFrame, TableError>)
    requires Rectangular(f)
    ensures r.Success? <==> LabelledOnce(f.columns, "Publish Date")
    ensures r.Failure? ==> r.error == if "Publish Date" in f.columns then IndexNotOneDimensional("Publish Date")
                                      else KeyError("Publish Date")
    ensures r.Success? ==>
              && r.value.frame == SelectAllowed(f, FundamentalColumns)
              && r.value.indexName == "Publish Date"
              && "Publish Date" in r.value.frame.columns
              && |r.value.index| == |f.rows|
              && forall i :: 0 <= i < |f.rows| ==>
                   r.value.index[i] == f.rows[i][Find(f.columns, "Publish Date").value]
  {
    assert FundamentalColumns[3] == "Publish Date";
    FilterAndIndex(f, FundamentalColumns, "Publish Date")
  }

  /** Two "Publish Date" columns make the modelled projection fail at the index assignment. */
  lemma RepeatedPublishDateFails()
    ensures ProjectFundamental(Frame(["Publish Date", "Publish Date"], [[Value("a"), Value("b")]])) ==
            Failure(IndexNotOneDimensional("Publish Date"))
  {
    var cols := ["Publish Date", "Publish Date"];
    assert cols[0] == cols[1];
  }

  /** The filter neither adds nor reorders columns: its labels are exactly the
      allowed labels of the input, as an order-preserving subsequence. */
  lemma SelectAllowedColumns(f: Frame, allow: seq<string>)
    requires Rectangular(f)
    ensures var cols := SelectAllowed(f, allow).columns;
            && (forall c :: c in cols <==> c in f.columns && c in allow)
            && Embeds(cols, f.columns)
  {
    forall c
      ensures c in SelectAllowed(f, allow).columns <==> c in f.columns && c in allow
    {
      SubsetMembership(f.columns, allow, c);
    }
    var ps := KeptPositions(f.columns, allow);
    assert EmbedsAt(ps, SelectAllowed(f, allow).columns, f.columns);
  }

  /** With "Ticker" and "Revenue" allowed and "Foo" not, the labels
      ["Ticker", "Foo", "Revenue"] filter to ["Ticker", "Revenue"]. */
  lemma SubsetExample(allow: seq<string>)
    requires "Ticker" in allow && "Revenue" in allow && "Foo" !in allow
    ensures Subset(["Ticker", "Foo", "Revenue"], allow) == ["Ticker", "Revenue"]
  {
    var cols := ["Ticker", "Foo", "Revenue"];
    assert cols[..2] == ["Ticker", "Foo"];
    assert cols[..2][..1] == ["Ticker"];
    assert cols[..2][..1][..0] == [];
    assert KeptPositions(cols[..2][..1], allow) == [0];
    assert KeptPositions(cols[..2], allow) == [0];
    assert KeptPositions(cols, allow) == [0, 2];
  }

  /** Two different positions carry the same allowed label. */
  predicate RepeatsAllowedLabel(columns: seq<string>, allow: seq<string>) {
    exists j, k :: 0 <= j < k < |columns| && columns[j] == columns[k] && columns[j] in allow
  }

  /** One column of a frame, or missing values throughout when it is absent. */
  function ColumnOrMissing(f: Frame, key: string): seq<Cell>
    requires Rectangular(f)
  {
    match Find(f.columns, key)
    case Some(j) => seq(|f.rows|, i requires 0 <= i < |f.rows| => f.rows[i][j])
    case None => seq(|f.rows|, _ => Missing)
  }

  /** `sub_df.reindex(columns=allow)`: the columns become exactly `allow`, each
      carrying the values of the same label in `f` or missing values. Repeated
      labels in `f` make it fail unless `allow` is empty. */
  function Reindex(f: Frame, allow: seq<string>): (r: Result<Frame, TableError>)
    requires Rectangular(f)
    ensures r.Success? <==> |allow| == 0 || forall j, k :: 0 <= j < k < |f.columns| ==> f.columns[j] != f.columns[k]
    ensures r.Failure? ==> r.error == DuplicateLabels
    ensures r.Success? ==> Rectangular(r.value) && r.value.columns == allow && |r.value.rows| == |f.rows|
  {
    if |allow| > 0 && exists j, k :: 0 <= j < k < |f.columns| && f.columns[j] == f.columns[k] then
      Failure(DuplicateLabels)
    else
      var cols := seq(|allow|, c requires 0 <= c < |allow| => ColumnOrMissing(f, allow[c]));
      Success(Frame(allow, seq(|f.rows|, i requires 0 <= i < |f.rows| =>
                                 seq(|allow|, c requires 0 <= c < |allow| => cols[c][i]))))
  }

  /** Filters to the allowed columns, reindexes to exactly `allow` and indexes by
      `key`: the columns become `allow` in its own order, each carrying the cells
      of the first input column with that label or missing values when there is
      none. An allowed label that occurs twice in the input makes the reindex fail,
      and `key` listed twice in `allow` makes the index fail. */
  function ReindexAndIndex(f: Frame, allow: seq<string>, key: string): (r: Result<IndexedFrame, TableError>)
    requires Rectangular(f) && key in allow
    ensures r.Success? <==> !RepeatsAllowedLabel(f.columns, allow) && LabelledOnce(allow, key)
    ensures r.Failure? ==> r.error == if RepeatsAllowedLabel(f.columns, allow) then DuplicateLabels
                                      else IndexNotOneDimensional(key)
    ensures r.Success? ==>
              && r.value.frame.columns == allow
              && Rectangular(r.value.frame)
              && r.value.indexName == key
              && |r.value.frame.rows| == |f.rows|
              && |r.value.index| == |f.rows|
              && (forall i, c :: 0 <= i < |f.rows| && 0 <= c < |allow| ==>
                    r.value.frame.rows[i][c] ==
                      match Find(f.columns, allow[c])
                      case Some(j) => f.rows[i][j]
                      case None => Missing)
              && (forall i :: 0 <= i < |f.rows| ==>
                    r.value.index[i] == match Find(f.columns, key)
                                        case Some(j) => f.rows[i][j]
                                        case None => Missing)
  {
    SubsetRepeats(f, allow);
    match Reindex(SelectAllowed(f, allow), allow)
    case Failure(e) => Failure(e)
    case Success(h) =>
      ReindexCells(f, allow);
      var c := FirstIndex(allow, key);
      assert forall i :: 0 <= i < |f.rows| ==> h.rows[i][c] == match Find(f.columns, key)
                                                             case Some(j) => f.rows[i][j]
                                                             case None => Missing;
      SetIndex(h, key)
  }

  /** After the filter, reindexing carries each allowed label's cells from the
      first input column with that label, and missing values where there is none. */
  lemma ReindexCells(f: Frame, allow: seq<string>)
    requires Rectangular(f)
    ensures var r := Reindex(SelectAllowed(f, allow), allow);
            r.Success? ==>
              forall i, c :: 0 <= i < |f.rows| && 0 <= c < |allow| ==>
                r.value.rows[i][c] == match Find(f.columns, allow[c])
                                      case Some(j) => f.rows[i][j]
                                      case None => Missing
  {
    forall c | 0 <= c < |allow| {
      SubsetFind(f, allow, allow[c]);
    }
  }

  /** `subset_prices`: exactly the price allow-list, in its order, indexed by
      "Date"; an allow-listed column the input lacks is filled with missing values,
      so the "Date" index always exists. */
  function ProjectPrices(f: Frame): (r: Result<IndexedFrame, TableError>)
    requires Rectangular(f)
    ensures r.Success? <==> !RepeatsAllowedLabel(f.columns, PriceColumns)
    ensures r.Failure? ==> r.error == DuplicateLabels
    ensures r.Success? ==> r.value.frame.columns == PriceColumns && r.value.indexName == "Date"
  {
    PriceColumnsDistinct();
    assert PriceColumns[0] == "Date";
    ReindexAndIndex(f, PriceColumns, "Date")
  }

  /** No label appears twice in the price allow-list. */
  lemma PriceColumnsDistinct()
    ensures NoDuplicates(PriceColumns)
  {
  }

  /** An allowed `key` is on exactly one column after the filter iff it was before it. */
  lemma SubsetLabelledOnce(f: Frame, allow: seq<string>, key: string)
    requires Rectangular(f) && key in allow
    ensures LabelledOnce(SelectAllowed(f, allow).columns, key) <==> LabelledOnce(f.columns, key)
  {
    SubsetMembership(f.columns, allow, key);
    KeyRepeatSurvivesSubset(f, allow, key);
    KeyRepeatInSubset(f, allow, key);
  }

  /** Two input columns labelled with an allowed `key` stay two after the filter. */
  lemma KeyRepeatSurvivesSubset(f: Frame, allow: seq<string>, key: string)
    requires Rectangular(f) && key in allow
    ensures var cols := SelectAllowed(f, allow).columns;
            (exists j, k :: 0 <= j < k < |f.columns| && f.columns[j] == key && f.columns[k] == key) ==>
              exists a, b :: 0 <= a < b < |cols| && cols[a] == key && cols[b] == key
  {
    var ps := KeptPositions(f.columns, allow);
    var cols := SelectAllowed(f, allow).columns;
    assert |cols| == |ps|;
    if exists j, k :: 0 <= j < k < |f.columns| && f.columns[j] == key && f.columns[k] == key {
      var j, k :| 0 <= j < k < |f.columns| && f.columns[j] == key && f.columns[k] == key;
      assert j in ps && k in ps;
      var a :| 0 <= a < |ps| && ps[a] == j;
      var b :| 0 <= b < |ps| && ps[b] == k;
      IncreasingPositions(ps, a, b);
      assert cols[a] == f.columns[ps[a]] && cols[b] == f.columns[ps[b]];
    }
  }

  /** Two columns labelled `key` after the filter were two before it. */
  lemma KeyRepeatInSubset(f: Frame, allow: seq<string>, key: string)
    requires Rectangular(f)
    ensures var cols := SelectAllowed(f, allow).columns;
            (exists a, b :: 0 <= a < b < |cols| && cols[a] == key && cols[b] == key) ==>
              exists j, k :: 0 <= j < k < |f.columns| && f.columns[j] == key && f.columns[k] == key
  {
    var ps := KeptPositions(f.columns, allow);
    var cols := SelectAllowed(f, allow).columns;
    assert |cols| == |ps|;
    if exists a, b :: 0 <= a < b < |cols| && cols[a] == key && cols[b] == key {
      var a, b :| 0 <= a < b < |cols| && cols[a] == key && cols[b] == key;
      assert cols[a] == f.columns[ps[a]] && cols[b] == f.columns[ps[b]];
      assert ps[a] < ps[b];
    }
  }

  /** In an increasing list of positions, the smaller position comes first. */
  lemma IncreasingPositions(ps: seq<nat>, a: nat, b: nat)
    requires forall k, l :: 0 <= k < l < |ps| ==> ps[k] < ps[l]
    requires a < |ps| && b < |ps| && ps[a] < ps[b]
    ensures a < b
  {
  }

  /** The filtered labels repeat exactly when an allowed label repeats in the input. */
  lemma SubsetRepeats(f: Frame, allow: seq<string>)
    requires Rectangular(f)
    ensures var cols := SelectAllowed(f, allow).columns;
            (exists j, k :: 0 <= j < k < |cols| && cols[j] == cols[k]) <==> RepeatsAllowedLabel(f.columns, allow)
  {
    if RepeatsAllowedLabel(f.columns, allow) {
      RepeatSurvivesSubset(f, allow);
    }
    RepeatInSubsetIsAllowed(f, allow);
  }

  /** A repeated allowed label in the input is repeated in the selection. */
  lemma RepeatSurvivesSubset(f: Frame, allow: seq<string>)
    requires Rectangular(f) && RepeatsAllowedLabel(f.columns, allow)
    ensures var cols := SelectAllowed(f, allow).columns;
            exists a, b :: 0 <= a < b < |cols| && cols[a] == cols[b]
  {
    var j, k :| 0 <= j < k < |f.columns| && f.columns[j] == f.columns[k] && f.columns[j] in allow;
    KeyRepeatSurvivesSubset(f, allow, f.columns[j]);
  }

  /** A label repeated in the selection was an allowed label repeated in the input. */
  lemma RepeatInSubsetIsAllowed(f: Frame, allow: seq<string>)
    requires Rectangular(f)
    ensures var cols := SelectAllowed(f, allow).columns;
            (exists a, b :: 0 <= a < b < |cols| && cols[a] == cols[b]) ==> RepeatsAllowedLabel(f.columns, allow)
  {
    var cols := SelectAllowed(f, allow).columns;
    if exists a, b :: 0 <= a < b < |cols| && cols[a] == cols[b] {
      var a, b :| 0 <= a < b < |cols| && cols[a] == cols[b];
      KeyRepeatInSubset(f, allow, cols[a]);
      SubsetMembership(f.columns, allow, cols[a]);
    }
  }

  /** The first column labelled `c` after the filter is the first one labelled `c` before it. */
  lemma SubsetFind(f: Frame, allow: seq<string>, c: string)
    requires Rectangular(f) && c in allow
    ensures var g := SelectAllowed(f, allow);
            match Find(g.columns, c)
            case None => Find(f.columns, c).None?
            case Some(k) =>
              Find(f.columns, c).Some? &&
              forall i :: 0 <= i < |f.rows| ==> g.rows[i][k] == f.rows[i][Find(f.columns, c).value]
  {
    var g := SelectAllowed(f, allow);
    var ps := KeptPositions(f.columns, allow);
    SubsetMembership(f.columns, allow, c);
    match Find(g.columns, c)
    case None =>
    case Some(k) =>
      var jf := Find(f.columns, c).value;
      var a :| 0 <= a < |ps| && ps[a] == jf;
      assert g.columns[a] == c;
      assert forall x :: 0 <= x < k ==> g.columns[..k][x] == g.columns[x];
      assert a >= k;
      assert forall x :: 0 <= x < jf ==> f.columns[..jf][x] == f.columns[x];
      assert ps[k] >= jf;
      assert k == a;
  }

  /** The elements of `s` not listed in `drop`, in `s`' order. */
  function Without(s: seq<string>, drop: seq<string>): (r: seq<string>)
    ensures Elements(r) == Elements(s) - Elements(drop)
    ensures NoDuplicates(s) ==> NoDuplicates(r)
    decreases |s|
  {
    if |s| == 0 then []
    else
      var rest := Without(s[1..], drop);
      assert Elements(s) == {s[0]} + Elements(s[1..]);
      assert Elements([s[0]] + rest) == {s[0]} + Elements(rest);
      assert NoDuplicates(s) ==> s[0] !in Elements(s[1..]);
      if s[0] in drop then rest else [s[0]] + rest
  }

  /** `Without` keeps the remaining labels in their order. */
  lemma {:induction false} WithoutKeepsOrder(s: seq<string>, drop: seq<string>)
    ensures Embeds(Without(s, drop), s)
    decreases |s|
  {
    if |s| == 0 {
      assert EmbedsAt([], [], s);
    } else {
      WithoutKeepsOrder(s[1..], drop);
      EmbedsInTail(Without(s[1..], drop), s);
    }
  }

  /** Dropping labels none of which occurs keeps the list as it is. */
  lemma {:induction false} WithoutNone(s: seq<string>, drop: seq<string>)
    requires forall i :: 0 <= i < |s| ==> s[i] !in drop
    ensures Without(s, drop) == s
    decreases |s|
  {
    if |s| > 0 {
      var t := s[1..];
      assert forall i :: 0 <= i < |t| ==> t[i] == s[i + 1];
      WithoutNone(t, drop);
      assert s[0] !in drop;
      assert Without(s, drop) == [s[0]] + t;
      assert s == [s[0]] + t;
    }
  }

  /** Dropping labels that lead the list removes that lead. */
  lemma {:induction false} WithoutLead(s: seq<string>, n: nat, drop: seq<string>)
    requires n <= |s|
    requires forall i :: 0 <= i < n ==> s[i] in drop
    ensures Without(s, drop) == Without(s[n..], drop)
    decreases n
  {
    if n > 0 {
      WithoutLead(s[1..], n - 1, drop);
      assert s[1..][n - 1..] == s[n..];
    }
  }

  /** `columns.unique().drop(base)`: the indicator choices offered after a
      projection. `drop` raises unless every base label is present. */
  function IndicatorChoices(columns: seq<string>, base: seq<string>): (r: Result<seq<string>, TableError>)
    ensures r.Success? <==> forall b :: b in base ==> b in columns
    ensures r.Failure? ==> r.error.LabelsNotFound? &&
                           Elements(r.error.labels) == Elements(base) - Elements(columns)
    ensures r.Success? ==> NoDuplicates(r.value) &&
                           forall c :: c in r.value <==> c in columns && c !in base
  {
    var missing := Without(base, columns);
    if |missing| > 0 then
      assert missing[0] in Elements(missing);
      Failure(LabelsNotFound(missing))
    else
      assert forall b :: b in base ==> b in Elements(base) - Elements(missing);
      var r := Without(Unique(columns), base);
      assert forall c :: c in r <==> c in Elements(r);
      Success(r)
  }

  /** The choices keep the order in which the labels first occur in the table. */
  lemma IndicatorChoicesOrder(columns: seq<string>, base: seq<string>)
    ensures var r := IndicatorChoices(columns, base);
            r.Success? ==> Embeds(r.value, Unique(columns))
  {
    WithoutKeepsOrder(Unique(columns), base);
  }

  /** Every base price column is in the price allow-list. */
  lemma BasePriceColumnsAllowed()
    ensures forall b :: b in BasePriceColumns ==> b in PriceColumns
  {
    forall i | 0 <= i < |BasePriceColumns|
      ensures BasePriceColumns[i] in PriceColumns
    {
      var at := [1, 0, 2, 3, 4, 5];
      assert BasePriceColumns[i] == PriceColumns[at[i]];
    }
  }

  /** After the price projection the indicator choices always exist: every price
      column except the base ones, in allow-list order, so "Market-Cap" comes first. */
  lemma PriceIndicatorChoices(f: Frame)
    requires Rectangular(f) && !RepeatsAllowedLabel(f.columns, PriceColumns)
    ensures var r := IndicatorChoices(ProjectPrices(f).value.frame.columns, BasePriceColumns);
            && r.Success?
            && (forall c :: c in r.value <==> c in PriceColumns && c !in BasePriceColumns)
            && r.value == PriceColumns[6..]
            && r.value[0] == "Market-Cap"
  {
    assert ProjectPrices(f).value.frame.columns == PriceColumns;
    PriceChoices();
  }

  /** The choices the price allow-list itself offers. */
  lemma PriceChoices()
    ensures var r := IndicatorChoices(PriceColumns, BasePriceColumns);
            r.Success? && r.value == PriceColumns[6..] && r.value[0] == "Market-Cap"
  {
    assert PriceColumns[6] == "Market-Cap";
    BasePriceColumnsAllowed();
    PriceColumnsDistinct();
    UniqueOfDistinct(PriceColumns);
    PriceChoicesList();
  }

  /** The base price labels are exactly the first six of the allow-list, so
      dropping them leaves the rest in order. */
  lemma PriceChoicesList()
    ensures Without(PriceColumns, BasePriceColumns) == PriceColumns[6..]
  {
    forall i | 0 <= i < 6
      ensures PriceColumns[i] in BasePriceColumns
    {
      var at := [1, 0, 2, 3, 4, 5];
      assert PriceColumns[i] == BasePriceColumns[at[i]];
    }
    forall i | 0 <= i < |PriceColumns[6..]|
      ensures PriceColumns[6..][i] !in BasePriceColumns
    {
      assert PriceColumns[6..][i] == PriceColumns[i + 6];
      assert forall j :: 0 <= j < |BasePriceColumns| ==> PriceColumns[i + 6] != BasePriceColumns[j];
    }
    WithoutLead(PriceColumns, 6, BasePriceColumns);
    WithoutNone(PriceColumns[6..], BasePriceColumns);
  }

  /** Every base fundamental column is in the fundamental allow-list. */
  lemma BaseFundamentalColumnsAllowed()
    ensures forall b :: b in BaseFundamentalColumns ==> b in FundamentalColumns
  {
    forall i | 0 <= i < |BaseFundamentalColumns|
      ensures BaseFundamentalColumns[i] in FundamentalColumns
    {
      assert BaseFundamentalColumns[i] == FundamentalColumns[i];
    }
  }

  /** Filtering keeps the choices available exactly when the base labels, all
      allowed, were present before the filter. */
  lemma ChoicesAfterFilter(f: Frame, allow: seq<string>, base: seq<string>)
    requires Rectangular(f)
    requires forall b :: b in base ==> b in allow
    ensures IndicatorChoices(SelectAllowed(f, allow).columns, base).Success? <==>
              forall b :: b in base ==> b in f.columns
  {
    forall b | b in base
      ensures b in SelectAllowed(f, allow).columns <==> b in f.columns
    {
      SubsetMembership(f.columns, allow, b);
    }
  }

  /** After the fundamental projection the indicator choices exist exactly when the
      raw table had all five base columns. */
  lemma FundamentalIndicatorChoices(f: Frame)
    requires Rectangular(f) && LabelledOnce(f.columns, "Publish Date")
    ensures var r := IndicatorChoices(ProjectFundamental(f).value.frame.columns, BaseFundamentalColumns);
            r.Success? <==> forall b :: b in BaseFundamentalColumns ==> b in f.columns
  {
    BaseFundamentalColumnsAllowed();
    ChoicesAfterFilter(f, FundamentalColumns, BaseFundamentalColumns);
  }
}
