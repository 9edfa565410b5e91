/** The chart rules of `make_line_chart` and `make_price_spread` that are not
    rendering: which traces stay visible by default, which horizontal reference
    line is drawn, and which indicator pair a spread preset plots. */
module Charts {
  import opened Wrappers
  import opened Seqs
  import Projection

  /** Categories visible by default on the line chart. */
  const LineLegendCount: nat := 3

  /** Categories visible by default on the spread chart. */
  const SpreadLegendCount: nat := 1

  /** The indicator whose reference line sits at its distress threshold. */
  const AltmanZScore := "Altman Z Score (ttm)"

  datatype Visibility = Visible | LegendOnly

  /** One plotted series: its legend name and whether it is drawn. */
  datatype Trace = Trace(name: string, visible: Visibility)

  /** `cdata.unique()[:k]`. */
  function LegendLabels(categories: seq<string>, k: nat): (r: seq<string>)
    ensures |r| <= k && NoDuplicates(r)
    ensures forall x :: x in r <==> AmongFirstDistinct(categories, k, x)
  {
    forall x
      ensures x in Take(Unique(categories), k) <==> AmongFirstDistinct(categories, k, x)
    {
      FirstDistinctMembership(categories, k, x);
    }
    Take(Unique(categories), k)
  }

  /** The loop over `fig['data']`: a trace whose name is not among the first `k`
      categories is set to legend-only; no trace is added, removed or renamed. */
  method HideOutsideLegend(traces: seq<Trace>, categories: seq<string>, k: nat) returns (r: seq<Trace>)
    ensures |r| == |traces|
    ensures forall i :: 0 <= i < |r| ==> r[i].name == traces[i].name
    ensures forall i :: 0 <= i < |r| ==>
              r[i].visible == if AmongFirstDistinct(categories, k, traces[i].name)
                              then traces[i].visible else LegendOnly
    ensures forall i :: 0 <= i < |r| && traces[i].visible == Visible ==>
              (r[i].visible == Visible <==> traces[i].name in LegendLabels(categories, k))
  {
    var labels := LegendLabels(categories, k);
    r := traces;
    var i := 0;
    while i < |r|
      invariant 0 <= i <= |r| == |traces|
      invariant forall j :: 0 <= j < |r| ==> r[j].name == traces[j].name
      invariant forall j :: i <= j < |r| ==> r[j] == traces[j]
      invariant forall j :: 0 <= j < i ==>
                  r[j].visible == if AmongFirstDistinct(categories, k, traces[j].name)
                                  then traces[j].visible else LegendOnly
    {
      if r[i].name !in labels {
        r := r[i := r[i].(visible := LegendOnly)];
      }
      i := i + 1;
    }
  }

  /** The spread chart's rule: with `k` = 1 the only category shown by default is the first one. */
  lemma {:induction false} SpreadLegendIsFirstCategory(categories: seq<string>, x: string)
    ensures AmongFirstDistinct(categories, SpreadLegendCount, x) <==>
              |categories| > 0 && x == categories[0]
  {
    if x in categories {
      var i := FirstIndex(categories, x);
      if i > 0 {
        assert categories[0] in Elements(categories[..i]);
      } else {
        assert Elements(categories[..i]) == {};
      }
    }
  }

  /** `make_line_chart`'s legend: the traces of the first three categories keep
      their visibility, the others become legend-only. */
  method LineChartLegend(traces: seq<Trace>, categories: seq<string>) returns (r: seq<Trace>)
    ensures |r| == |traces|
    ensures forall i :: 0 <= i < |r| ==> r[i].name == traces[i].name
    ensures forall i :: 0 <= i < |r| ==>
              r[i].visible == if AmongFirstDistinct(categories, LineLegendCount, traces[i].name)
                              then traces[i].visible else LegendOnly
  {
    r := HideOutsideLegend(traces, categories, LineLegendCount);
  }

  /** `make_price_spread`'s legend: only the traces named after the first category
      keep their visibility. */
  method SpreadChartLegend(traces: seq<Trace>, categories: seq<string>) returns (r: seq<Trace>)
    ensures |r| == |traces|
    ensures forall i :: 0 <= i < |r| ==> r[i].name == traces[i].name
    ensures forall i :: 0 <= i < |r| ==>
              r[i].visible == if |categories| > 0 && traces[i].name == categories[0]
                              then traces[i].visible else LegendOnly
  {
    r := HideOutsideLegend(traces, categories, SpreadLegendCount);
    forall i | 0 <= i < |r| {
      SpreadLegendIsFirstCategory(categories, traces[i].name);
    }
  }

  /** With categories AAPL, MSFT, GOOG, AMZN the line chart shows AAPL, MSFT and
      GOOG by default. */
  lemma LineLegendExample()
    ensures Elements(LegendLabels(["AAPL", "MSFT", "GOOG", "AMZN"], LineLegendCount)) ==
            {"AAPL", "MSFT", "GOOG"}
  {
    var cs := ["AAPL", "MSFT", "GOOG", "AMZN"];
    assert cs[..3] == ["AAPL", "MSFT", "GOOG"];
    assert cs[..3][..2] == ["AAPL", "MSFT"];
    assert cs[..3][..2][..1] == ["AAPL"];
    assert cs[..3][..2][..1][..0] == [];
    assert Unique(cs[..3][..2][..1]) == ["AAPL"];
    assert Unique(cs[..3][..2]) == ["AAPL", "MSFT"];
    assert Unique(cs[..3]) == ["AAPL", "MSFT", "GOOG"];
    assert Unique(cs) == ["AAPL", "MSFT", "GOOG", "AMZN"];
  }

  /** The horizontal reference lines the line chart adds: two independent `if`s,
      of which exactly one fires. */
  function LineChartReferenceLines(indicator: string): (ys: seq<int>)
    ensures |ys| == 1
    ensures ys[0] == 3 <==> indicator == AltmanZScore
    ensures ys[0] == 0 <==> indicator != AltmanZScore
  {
    (if indicator == AltmanZScore then [3] else []) +
    (if indicator != AltmanZScore then [0] else [])
  }

  /** The spread chart draws one reference line whatever the preset, the same one
      the line chart draws for any indicator other than the Altman Z-score. */
  function SpreadChartReferenceLines(): (ys: seq<int>)
    ensures forall indicator :: indicator != AltmanZScore ==> ys == LineChartReferenceLines(indicator)
  {
    [0]
  }

  datatype SpreadError = IndicatorUnbound  // an unknown preset leaves `indicator` unassigned

  /** The preset table of `make_price_spread`. */
  function SpreadIndicators(preset: string): (r: Result<seq<string>, SpreadError>)
    ensures r.Success? <==> preset in ["Earnings", "Revenue", "Earnings & Revenue"]
    ensures r.Success? ==> |r.value| == 2 && r.value[0] != r.value[1]
  {
    if preset == "Earnings" then Success(["Price to Earnings Ratio (ttm)", "EV/EBITDA (ttm)"])
    else if preset == "Revenue" then Success(["Price to Sales Ratio (ttm)", "EV/Sales (ttm)"])
    else if preset == "Earnings & Revenue" then Success(["EV/Sales (ttm)", "EV/EBITDA (ttm)"])
    else Failure(IndicatorUnbound)
  }

  /** Every preset plots two indicator columns the price projection always provides,
      so `df[indicator]` on a projected price table never fails. */
  lemma SpreadIndicatorsArePriceColumns(preset: string)
    requires SpreadIndicators(preset).Success?
    ensures forall c :: c in SpreadIndicators(preset).value ==> c in Projection.PriceColumns
  {
    var cols := Projection.PriceColumns;
    assert cols[9] == "Price to Earnings Ratio (ttm)";
    assert cols[11] == "Price to Sales Ratio (ttm)";
    assert cols[14] == "EV/EBITDA (ttm)";
    assert cols[15] == "EV/Sales (ttm)";
  }
}
