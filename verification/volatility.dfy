/** The Volatility page: the dispersion of each ticker's daily returns,
    tickers without enough returns dropped, the 20 most volatile shown. */
module Volatility {
  import opened Wrappers
  import opened Seqs
  import opened Sorting
  import opened Stats
  import opened Prices
  import opened Ranking

  /** `groupby("ticker")["daily_return"]` with NULLs skipped: the defined
      daily returns of ticker `t`, in table order. */
  function ReturnsOf(prices: seq<Row>, t: string): seq<real> {
    NonNull(ReturnColumn(RowsOf(prices, t)))
  }

  /** A value is among ticker `t`'s returns exactly when some row of `t`
      carries it as a defined daily return, and it occurs once per such
      row; so the returns number `t`'s rows minus those with a NULL return. */
  lemma ReturnsOfExact(prices: seq<Row>, t: string)
    ensures forall x :: x in ReturnsOf(prices, t) <==> exists r :: r in prices && r.ticker == t && r.dailyReturn == Some(x)
    ensures forall x :: multiset(ReturnsOf(prices, t))[x] == |Filter(RowsOf(prices, t), ReturnIs(Some(x)))|
    ensures |ReturnsOf(prices, t)| == |RowsOf(prices, t)| - |Filter(RowsOf(prices, t), ReturnIs(None))|
  {
    var g := RowsOf(prices, t);
    var rs := ReturnColumn(g);
    NonNullMembers(rs);
    NonNullCounts(rs);
    ReturnColumnCounts(g);
    ReturnColumnMembers(g);
    forall x
      ensures x in ReturnsOf(prices, t) <==> exists r :: r in prices && r.ticker == t && r.dailyReturn == Some(x)
    {
      if exists r :: r in prices && r.ticker == t && r.dailyReturn == Some(x) {
        var r :| r in prices && r.ticker == t && r.dailyReturn == Some(x);
        assert r in g;
      }
    }
  }

  /** The dispersion of a ticker's returns (`std()` skips NULLs): undefined
      with fewer than two values, never negative, and zero for a flat
      series. Measured as the sample variance, which orders tickers exactly
      as the sample standard deviation does. */
  function Dispersion(xs: seq<real>): (r: Option<real>)
    ensures r.None? <==> |xs| < 2
    ensures r.Some? ==> r.value >= 0.0
    ensures r.Some? && (forall i :: 0 <= i < |xs| ==> xs[i] == xs[0]) ==> r.value == 0.0
  {
    if |xs| < 2 then None
    else
      VarianceOfFlatIsZero(xs);
      Some(SampleVariance(xs))
  }

  /** `std().dropna()` over the tickers `ts`: one entry for each ticker with
      at least two defined returns, carrying its dispersion, and none for
      the others. */
  function VolatilityEntries(prices: seq<Row>, ts: seq<string>): (es: seq<Entry>)
    ensures forall e :: e in es ==>
              e.name in ts && |ReturnsOf(prices, e.name)| >= 2 && e.value == Dispersion(ReturnsOf(prices, e.name))
    ensures forall t :: t in ts && |ReturnsOf(prices, t)| >= 2 ==> exists e :: e in es && e.name == t
    ensures NoDup(ts) ==> NoDup(Names(es))
  {
    if |ts| == 0 then []
    else
      var init := ts[..|ts| - 1];
      var t := ts[|ts| - 1];
      var es := VolatilityEntries(prices, init);
      var r := if |ReturnsOf(prices, t)| >= 2 then es + [Entry(t, Dispersion(ReturnsOf(prices, t)))] else es;
      VolatilityStep(prices, ts, es, r);
      r
  }

  /** Appending the last ticker's entry, when it has one, to the entries of
      the tickers before it gives the entries of all of `ts`. */
  lemma VolatilityStep(prices: seq<Row>, ts: seq<string>, es: seq<Entry>, r: seq<Entry>)
    requires |ts| > 0
    requires forall e :: e in es ==>
               e.name in ts[..|ts| - 1] && |ReturnsOf(prices, e.name)| >= 2 && e.value == Dispersion(ReturnsOf(prices, e.name))
    requires forall t :: t in ts[..|ts| - 1] && |ReturnsOf(prices, t)| >= 2 ==> exists e :: e in es && e.name == t
    requires NoDup(ts[..|ts| - 1]) ==> NoDup(Names(es))
    requires r == if |ReturnsOf(prices, ts[|ts| - 1])| >= 2
                  then es + [Entry(ts[|ts| - 1], Dispersion(ReturnsOf(prices, ts[|ts| - 1])))] else es
    ensures forall e :: e in r ==>
              e.name in ts && |ReturnsOf(prices, e.name)| >= 2 && e.value == Dispersion(ReturnsOf(prices, e.name))
    ensures forall t :: t in ts && |ReturnsOf(prices, t)| >= 2 ==> exists e :: e in r && e.name == t
    ensures NoDup(ts) ==> NoDup(Names(r))
  {
    var init, t := ts[..|ts| - 1], ts[|ts| - 1];
    assert forall u :: u in ts <==> u in init || u == t;
    if |ReturnsOf(prices, t)| >= 2 {
      var e := Entry(t, Dispersion(ReturnsOf(prices, t)));
      assert forall x :: x in r <==> x in es || x == e;
      if NoDup(ts) {
        assert NoDup(init) && t !in init;
        AppendFreshName(es, e);
      }
    }
  }

  /** The chart: at most 20 tickers, each with two or more defined returns
      and its dispersion, in descending order of dispersion; no ticker left
      out is more volatile than one shown, and a ticker with fewer than two
      defined returns is never shown. */
  function VolatilityChart(prices: seq<Row>): (r: seq<Entry>)
    ensures |r| == Min(20, |VolatilityEntries(prices, Tickers(prices))|)
    ensures multiset(r) <= multiset(VolatilityEntries(prices, Tickers(prices)))
    ensures forall e :: e in r ==>
              e.name in Tickers(prices) && |ReturnsOf(prices, e.name)| >= 2 &&
              e.value == Dispersion(ReturnsOf(prices, e.name))
    ensures forall t, e :: e in r && |ReturnsOf(prices, t)| < 2 ==> e.name != t
    ensures SortedBy(r, RankOrder(true))
    ensures forall i, x :: 0 <= i < |r| && x in multiset(VolatilityEntries(prices, Tickers(prices))) - multiset(r) ==>
              Ranks(r[i].value, x.value, true)
  {
    var es := VolatilityEntries(prices, Tickers(prices));
    var r := Top(es, 20, true);
    assert forall e :: e in r ==> e in multiset(es);
    r
  }
}
