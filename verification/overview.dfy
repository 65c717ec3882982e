/** The Overview page: one summary row per ticker (first close, last close,
    yearly return), the top and bottom ten by yearly return, and the market
    summary (green and red counts, average last close). */
module Overview {
  import opened Wrappers
  import opened Seqs
  import opened Sorting
  import opened Stats
  import opened Prices
  import opened Ranking

  datatype Summary = Summary(ticker: string, startClose: real, endClose: real, yearlyReturn: Option<real>)

  /** Ticker `t`'s summary row: `groupby().first()` and `.last()` take the
      close of the group's first and last row in table order, and the
      yearly return is the relative change between them,
      `end = start * (1 + yearly)`, undefined exactly when the start close
      is zero. */
  function SummaryOf(prices: seq<Row>, t: string): (s: Summary)
    requires t in Tickers(prices)
    ensures s.ticker == t
    ensures IsRelativeChange(s.startClose, s.endClose, s.yearlyReturn)
  {
    RowsOfNonEmpty(prices, t);
    var g := RowsOf(prices, t);
    var start, end := g[0].close, g[|g| - 1].close;
    Summary(t, start, end, RelativeChange(start, end))
  }

  /** The summary table: exactly one row per distinct ticker. */
  function Summarise(prices: seq<Row>): (ss: seq<Summary>)
    ensures |ss| == |Tickers(prices)|
    ensures forall i, j :: 0 <= i < j < |ss| ==> ss[i].ticker != ss[j].ticker
    ensures forall t :: (exists i :: 0 <= i < |ss| && ss[i].ticker == t) <==> t in Tickers(prices)
    ensures forall i :: 0 <= i < |ss| ==> ss[i] == SummaryOf(prices, ss[i].ticker)
  {
    var ts := Tickers(prices);
    var ss := seq(|ts|, i requires 0 <= i < |ts| => SummaryOf(prices, ts[i]));
    assert forall i :: 0 <= i < |ss| ==> ss[i].ticker == ts[i];
    ss
  }

  /** On the normalised table `start_close` is the close of the ticker's
      earliest row and `end_close` that of its latest. */
  lemma SummaryEndpoints(prices: seq<Row>, t: string)
    requires Normalised(prices)
    requires t in Tickers(prices)
    ensures exists r :: r in prices && r.ticker == t && r.close == SummaryOf(prices, t).startClose &&
              forall q :: q in prices && q.ticker == t ==> DateLe(r.date, q.date)
    ensures exists r :: r in prices && r.ticker == t && r.close == SummaryOf(prices, t).endClose &&
              forall q :: q in prices && q.ticker == t ==> DateLe(q.date, r.date)
  {
    NormalisedGroupEndpoints(prices, t);
    var s := SummaryOf(prices, t);
    var g := RowsOf(prices, t);
    var first, last := g[0], g[|g| - 1];
    assert first in g && last in g;
    assert first.close == s.startClose && last.close == s.endClose;
    assert forall q :: q in prices && q.ticker == t ==> DateLe(first.date, q.date);
    assert forall q :: q in prices && q.ticker == t ==> DateLe(q.date, last.date);
  }

  /** A ticker with a single row has yearly return 0 (or none, if that
      one close is zero). */
  lemma SingleRowYearlyReturn(prices: seq<Row>, t: string)
    requires t in Tickers(prices)
    requires |RowsOf(prices, t)| == 1
    ensures SummaryOf(prices, t).yearlyReturn ==
              (if RowsOf(prices, t)[0].close == 0.0 then None else Some(0.0))
  {
    var c := RowsOf(prices, t)[0].close;
    assert SummaryOf(prices, t).yearlyReturn == RelativeChange(c, c);
  }

  // ---------------------------------------------------------------------
  // Market summary

  predicate IsGreen(s: Summary) {
    s.yearlyReturn.Some? && s.yearlyReturn.value > 0.0
  }

  predicate IsRed(s: Summary) {
    s.yearlyReturn.Some? && s.yearlyReturn.value <= 0.0
  }

  /** `(summary["yearly_return"] > 0).sum()`. */
  function GreenCount(ss: seq<Summary>): (c: nat)
    ensures c <= |ss|
    ensures c == 0 <==> forall i :: 0 <= i < |ss| ==> !IsGreen(ss[i])
    ensures c == |ss| <==> forall i :: 0 <= i < |ss| ==> IsGreen(ss[i])
  {
    if |ss| == 0 then 0
    else
      var init := ss[..|ss| - 1];
      assert forall i :: 0 <= i < |init| ==> init[i] == ss[i];
      GreenCount(init) + (if IsGreen(ss[|ss| - 1]) then 1 else 0)
  }

  /** `(summary["yearly_return"] <= 0).sum()`. */
  function RedCount(ss: seq<Summary>): (c: nat)
    ensures c <= |ss|
    ensures c == 0 <==> forall i :: 0 <= i < |ss| ==> !IsRed(ss[i])
    ensures c == |ss| <==> forall i :: 0 <= i < |ss| ==> IsRed(ss[i])
  {
    if |ss| == 0 then 0
    else
      var init := ss[..|ss| - 1];
      assert forall i :: 0 <= i < |init| ==> init[i] == ss[i];
      RedCount(init) + (if IsRed(ss[|ss| - 1]) then 1 else 0)
  }

  /** Rows whose yearly return is undefined (counted as neither). */
  function UndefinedCount(ss: seq<Summary>): nat {
    if |ss| == 0 then 0
    else UndefinedCount(ss[..|ss| - 1]) + (if ss[|ss| - 1].yearlyReturn.None? then 1 else 0)
  }

  lemma {:induction false} CountsPartition(ss: seq<Summary>)
    ensures GreenCount(ss) + RedCount(ss) + UndefinedCount(ss) == |ss|
    ensures UndefinedCount(ss) == 0 <==> forall i :: 0 <= i < |ss| ==> ss[i].yearlyReturn.Some?
    decreases |ss|
  {
    if |ss| > 0 {
      var init := ss[..|ss| - 1];
      CountsPartition(init);
      assert forall i :: 0 <= i < |init| ==> init[i] == ss[i];
    }
  }

  /** Green and red counts add up: every ticker is green, red, or has a zero
      start close; with no zero start close, green + red is the number of
      tickers. */
  lemma MarketCountsAddUp(prices: seq<Row>)
    ensures GreenCount(Summarise(prices)) + RedCount(Summarise(prices)) <= |Tickers(prices)|
    ensures (forall i :: 0 <= i < |Summarise(prices)| ==> Summarise(prices)[i].startClose != 0.0) ==>
              GreenCount(Summarise(prices)) + RedCount(Summarise(prices)) == |Tickers(prices)|
  {
    var ss := Summarise(prices);
    CountsPartition(ss);
  }

  function EndCloses(ss: seq<Summary>): (xs: seq<real>)
    ensures |xs| == |ss|
    ensures forall i :: 0 <= i < |ss| ==> xs[i] == ss[i].endClose
  {
    seq(|ss|, i requires 0 <= i < |ss| => ss[i].endClose)
  }

  /** `summary["end_close"].mean()`: undefined (NaN) for an empty table,
      otherwise the arithmetic mean, which lies between the smallest and
      the largest last close. */
  function AvgLastClose(ss: seq<Summary>): (r: Option<real>)
    ensures r.None? <==> |ss| == 0
    ensures r.Some? ==> r.value * (|ss| as real) == Sum(EndCloses(ss))
    ensures r.Some? ==> exists i :: 0 <= i < |ss| && ss[i].endClose <= r.value
    ensures r.Some? ==> exists j :: 0 <= j < |ss| && r.value <= ss[j].endClose
  {
    MeanOrNone(EndCloses(ss))
  }

  // ---------------------------------------------------------------------
  // Top and bottom ten

  function YearlyEntries(ss: seq<Summary>): (es: seq<Entry>)
    ensures |es| == |ss|
    ensures forall i :: 0 <= i < |ss| ==> es[i] == Entry(ss[i].ticker, ss[i].yearlyReturn)
  {
    seq(|ss|, i requires 0 <= i < |ss| => Entry(ss[i].ticker, ss[i].yearlyReturn))
  }

  /** Every entry of a table drawn from the summary is some ticker's
      (ticker, yearly return) pair. */
  lemma DrawnFromSummary(prices: seq<Row>, r: seq<Entry>)
    requires multiset(r) <= multiset(YearlyEntries(Summarise(prices)))
    ensures forall e :: e in r ==> e.name in Tickers(prices) && e.value == SummaryOf(prices, e.name).yearlyReturn
  {
    var es := YearlyEntries(Summarise(prices));
    forall e | e in r
      ensures e.name in Tickers(prices) && e.value == SummaryOf(prices, e.name).yearlyReturn
    {
      assert e in multiset(es);
      var i :| 0 <= i < |es| && es[i] == e;
    }
  }

  /** The top ten yearly gainers: `min(10, #tickers)` summary entries, in
      descending order of yearly return, and no ticker left out has a higher
      return than any ticker shown. */
  function TopGainers(prices: seq<Row>): (r: seq<Entry>)
    ensures |r| == Min(10, |Tickers(prices)|)
    ensures multiset(r) <= multiset(YearlyEntries(Summarise(prices)))
    ensures forall e :: e in r ==> e.name in Tickers(prices) && e.value == SummaryOf(prices, e.name).yearlyReturn
    ensures SortedBy(r, RankOrder(true))
    ensures forall i, x :: 0 <= i < |r| && x in multiset(YearlyEntries(Summarise(prices))) - multiset(r) ==>
              Ranks(r[i].value, x.value, true)
  {
    var r := Top(YearlyEntries(Summarise(prices)), 10, true);
    DrawnFromSummary(prices, r);
    r
  }

  /** The bottom ten: the mirror image, in ascending order of yearly return. */
  function TopLosers(prices: seq<Row>): (r: seq<Entry>)
    ensures |r| == Min(10, |Tickers(prices)|)
    ensures multiset(r) <= multiset(YearlyEntries(Summarise(prices)))
    ensures forall e :: e in r ==> e.name in Tickers(prices) && e.value == SummaryOf(prices, e.name).yearlyReturn
    ensures SortedBy(r, RankOrder(false))
    ensures forall i, x :: 0 <= i < |r| && x in multiset(YearlyEntries(Summarise(prices))) - multiset(r) ==>
              Ranks(r[i].value, x.value, false)
  {
    var r := Top(YearlyEntries(Summarise(prices)), 10, false);
    DrawnFromSummary(prices, r);
    r
  }
}
