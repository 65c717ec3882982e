/** The Cumulative page: per ticker the running product of `1 + r` over
    the daily returns in date order, the final cumulative return
    `prod(1 + r) - 1`, and the N tickers with the largest final value. */
module Cumulative {
  import opened Wrappers
  import opened Seqs
  import opened Sorting
  import opened Stats
  import opened Prices
  import opened Ranking

  /** Position `i` of `(1 + returns).cumprod()`: NULL where the return is
      NULL, otherwise the product of `1 + r` over the defined returns up to
      and including `i` (pandas skips NULLs but keeps their positions). */
  function GrowthAt(rs: seq<Option<real>>, i: int): (g: Option<real>)
    requires 0 <= i < |rs|
    ensures g.None? <==> rs[i].None?
  {
    if rs[i].None? then None else Some(Growth(NonNull(rs[..i + 1])))
  }

  /** The growth factor at a defined position is the factor accumulated
      over the defined returns before it, times `1 + r` for its own return. */
  lemma GrowthAtStep(rs: seq<Option<real>>, i: int)
    requires 0 <= i < |rs|
    ensures GrowthAt(rs, i).Some? ==> GrowthAt(rs, i).value == Growth(NonNull(rs[..i])) * (1.0 + rs[i].value)
  {
    assert rs[..i + 1] == rs[..i] + [rs[i]];
    NonNullAppend(rs[..i], rs[i]);
    if rs[i].Some? {
      GrowthAppend(NonNull(rs[..i]), rs[i].value);
    }
  }

  lemma NonNullAppend(rs: seq<Option<real>>, x: Option<real>)
    ensures NonNull(rs + [x]) == NonNull(rs) + (if x.Some? then [x.value] else [])
  {
    assert (rs + [x])[..|rs|] == rs;
  }

  lemma GrowthAppend(xs: seq<real>, x: real)
    ensures Growth(xs + [x]) == Growth(xs) * (1.0 + x)
  {
    assert (xs + [x])[..|xs|] == xs;
  }

  /** The running product computed in one pass with a single accumulator;
      it agrees at every position with the closed form `GrowthAt`. */
  method RunningProduct(rs: seq<Option<real>>) returns (out: seq<Option<real>>)
    ensures |out| == |rs|
    ensures forall i :: 0 <= i < |rs| ==> out[i] == GrowthAt(rs, i)
  {
    var acc := 1.0;
    out := [];
    var i := 0;
    while i < |rs|
      invariant 0 <= i <= |rs|
      invariant |out| == i
      invariant acc == Growth(NonNull(rs[..i]))
      invariant forall k :: 0 <= k < i ==> out[k] == GrowthAt(rs, k)
    {
      RunningStep(rs, i, acc);
      match rs[i] {
        case None =>
          out := out + [None];
        case Some(r) =>
          acc := acc * (1.0 + r);
          out := out + [Some(acc)];
      }
      i := i + 1;
    }
  }

  /** One step of the loop: the accumulator carried over a NULL return, or
      multiplied by `1 + r`, is the closed form at the next position. */
  lemma RunningStep(rs: seq<Option<real>>, i: int, acc: real)
    requires 0 <= i < |rs|
    requires acc == Growth(NonNull(rs[..i]))
    ensures rs[i].None? ==> Growth(NonNull(rs[..i + 1])) == acc && GrowthAt(rs, i) == None
    ensures rs[i].Some? ==> Growth(NonNull(rs[..i + 1])) == acc * (1.0 + rs[i].value)
    ensures rs[i].Some? ==> GrowthAt(rs, i) == Some(acc * (1.0 + rs[i].value))
  {
    assert rs[..i + 1] == rs[..i] + [rs[i]];
    NonNullAppend(rs[..i], rs[i]);
    match rs[i]
    case None =>
      assert NonNull(rs[..i + 1]) == NonNull(rs[..i]);
    case Some(r) =>
      assert NonNull(rs[..i + 1]) == NonNull(rs[..i]) + [r];
      GrowthAppend(NonNull(rs[..i]), r);
  }

  /** The running product never looks ahead: position `i` depends only on
      the returns up to `i`. */
  lemma NoLookAhead(a: seq<Option<real>>, b: seq<Option<real>>, i: int)
    requires 0 <= i < |a|
    ensures GrowthAt(a + b, i) == GrowthAt(a, i)
  {
    assert (a + b)[..i + 1] == a[..i + 1];
  }

  /** `cum.iloc[-1]` for the series `cumprod - 1`: the product of `1 + r`
      over all defined returns, minus one; NULL when the last return is NULL
      (as for a ticker with a single row). */
  function FinalCumReturn(rs: seq<Option<real>>): (r: Option<real>)
    requires |rs| > 0
    ensures r.None? <==> rs[|rs| - 1].None?
    ensures r.Some? ==> r.value == Growth(NonNull(rs)) - 1.0
  {
    assert rs[..|rs|] == rs;
    match GrowthAt(rs, |rs| - 1)
    case None => None
    case Some(g) => Some(g - 1.0)
  }

  /** Three days with closes 100, 110, 121: returns NULL, 0.10, 0.10 and a
      final cumulative return of 0.21. */
  lemma CompoundingExample()
    ensures FinalCumReturn([None, Some(0.1), Some(0.1)]) == Some(0.21)
  {
    var none: Option<real> := None;
    var rs := [none, Some(0.1), Some(0.1)];
    NonNullAppend([], none);
    NonNullAppend([none], Some(0.1));
    NonNullAppend([none, Some(0.1)], Some(0.1));
    assert [] + [none] == [none];
    assert [none] + [Some(0.1)] == [none, Some(0.1)];
    assert [none, Some(0.1)] + [Some(0.1)] == rs;
    assert NonNull(rs) == [0.1, 0.1];
    GrowthAppend([], 0.1);
    GrowthAppend([0.1], 0.1);
    assert [0.1] + [0.1] == [0.1, 0.1];
    assert Growth([0.1, 0.1]) == 1.21;
  }

  /** Ticker `t`'s daily returns in date order (`g.sort_values("date")`). */
  function DatedReturns(prices: seq<Row>, t: string): (rs: seq<Option<real>>)
    requires t in Tickers(prices)
    ensures |rs| > 0
    ensures |rs| == |RowsOf(prices, t)|
  {
    RowsOfNonEmpty(prices, t);
    ReturnColumn(DatedGroup(prices, t))
  }

  /** Ticker `t`'s dated returns carry one entry per row of `t`: the
      `daily_return` cells of its rows, each as often as in the table, the
      last one belonging to a row of `t` with the latest date. */
  lemma DatedReturnsExact(prices: seq<Row>, t: string)
    requires t in Tickers(prices)
    ensures |DatedReturns(prices, t)| == |RowsOf(prices, t)|
    ensures forall x :: x in DatedReturns(prices, t) <==> exists r :: r in prices && r.ticker == t && r.dailyReturn == x
    ensures multiset(DatedReturns(prices, t)) == multiset(ReturnColumn(RowsOf(prices, t)))
    ensures exists r :: r in prices && r.ticker == t && r.dailyReturn == DatedReturns(prices, t)[|DatedReturns(prices, t)| - 1] &&
              forall q :: q in prices && q.ticker == t ==> DateLe(q.date, r.date)
  {
    var g := DatedGroup(prices, t);
    assert multiset(DatedReturns(prices, t)) == multiset(ReturnColumn(RowsOf(prices, t))) by {
      ReturnColumnPermutation(g, RowsOf(prices, t));
    }
    DatedReturnsLast(prices, t);
    ReturnColumnMembers(g);
    forall x
      ensures x in DatedReturns(prices, t) <==> exists r :: r in prices && r.ticker == t && r.dailyReturn == x
    {
      if exists r :: r in prices && r.ticker == t && r.dailyReturn == x {
        var r :| r in prices && r.ticker == t && r.dailyReturn == x;
        assert r in g;
      }
    }
  }

  /** The last dated return is the return of a row of `t` that no other
      row of `t` postdates (`cum.iloc[-1]` reads the latest day). */
  lemma DatedReturnsLast(prices: seq<Row>, t: string)
    requires t in Tickers(prices)
    ensures exists r :: r in prices && r.ticker == t && r.dailyReturn == DatedReturns(prices, t)[|DatedReturns(prices, t)| - 1] &&
              forall q :: q in prices && q.ticker == t ==> DateLe(q.date, r.date)
  {
    var g := DatedGroup(prices, t);
    DateSortedEndpoints(g);
    assert g[|g| - 1] in g;
  }

  /** `final_df`: one (ticker, final cumulative return) entry per ticker. */
  function FinalEntries(prices: seq<Row>): (es: seq<Entry>)
    ensures Names(es) == Tickers(prices)
    ensures forall e :: e in es ==> e.name in Tickers(prices) && e.value == FinalCumReturn(DatedReturns(prices, e.name))
  {
    var ts := Tickers(prices);
    var es := seq(|ts|, i requires 0 <= i < |ts| => Entry(ts[i], FinalCumReturn(DatedReturns(prices, ts[i]))));
    assert Names(es) == ts;
    es
  }

  /** The tickers charted: `min(n, #tickers)` of them, in descending order
      of final cumulative return, none left out with a larger final value
      than one charted. */
  function TopCumulative(prices: seq<Row>, n: nat): (r: seq<Entry>)
    ensures |r| == Min(n, |Tickers(prices)|)
    ensures multiset(r) <= multiset(FinalEntries(prices))
    ensures forall e :: e in r ==> e.name in Tickers(prices) && e.value == FinalCumReturn(DatedReturns(prices, e.name))
    ensures SortedBy(r, RankOrder(true))
    ensures forall i, x :: 0 <= i < |r| && x in multiset(FinalEntries(prices)) - multiset(r) ==>
              Ranks(r[i].value, x.value, true)
  {
    var es := FinalEntries(prices);
    var r := Top(es, n, true);
    assert |es| == |Names(es)|;
    assert forall e :: e in r ==> e in multiset(es);
    r
  }
}
