/** The Sector page: each ticker's final growth factor `prod(1 + r)`,
    left-joined with the stocks table, averaged by sector and sorted. */
module Sector {
  import opened Wrappers
  import opened Seqs
  import opened Sorting
  import opened Stats
  import opened Prices
  import opened Ranking
  import opened Cumulative

  /** `(1 + g["daily_return"]).cumprod().iloc[-1]`: unlike the Cumulative
      page there is no `- 1`, so it is that page's final value plus one. */
  function FinalGrowth(rs: seq<Option<real>>): (r: Option<real>)
    requires |rs| > 0
    ensures r.None? <==> FinalCumReturn(rs).None?
    ensures r.Some? ==> r.value == FinalCumReturn(rs).value + 1.0
  {
    GrowthAt(rs, |rs| - 1)
  }

  /** A row of the merged frame whose sector is known. */
  datatype Joined = Joined(ticker: string, sector: string, finalCum: Option<real>)

  /** The merge rows of one ticker: one per stocks row with that ticker,
      so a duplicated stocks row is merged as often as it occurs. */
  function JoinTicker(t: string, v: Option<real>, stocks: seq<Stock>): (js: seq<Joined>)
    ensures forall j :: multiset(js)[j] ==
              if j.ticker == t && j.finalCum == v then multiset(stocks)[Stock(t, j.sector)] else 0
    ensures forall j :: j in js ==> j.ticker == t && j.finalCum == v && Stock(t, j.sector) in stocks
    ensures forall s :: s in stocks && s.ticker == t ==> Joined(t, s.sector, v) in js
  {
    if |stocks| == 0 then []
    else
      var init := stocks[..|stocks| - 1];
      var s := stocks[|stocks| - 1];
      assert stocks == init + [s];
      var js := JoinTicker(t, v, init);
      if s.ticker == t then js + [Joined(t, s.sector, v)] else js
  }

  /** The merge rows of the distinct tickers `ts`, one ticker after another. */
  function JoinTickers(prices: seq<Row>, stocks: seq<Stock>, ts: seq<string>): (js: seq<Joined>)
    requires forall t :: t in ts ==> t in Tickers(prices)
    requires NoDup(ts)
    ensures forall j :: multiset(js)[j] ==
              if j.ticker in ts && j.finalCum == FinalGrowth(DatedReturns(prices, j.ticker))
              then multiset(stocks)[Stock(j.ticker, j.sector)] else 0
  {
    if |ts| == 0 then []
    else
      var init := ts[..|ts| - 1];
      var t := ts[|ts| - 1];
      assert forall u :: u in ts <==> u in init || u == t;
      assert NoDup(init) && t !in init;
      var a := JoinTickers(prices, stocks, init);
      var b := JoinTicker(t, FinalGrowth(DatedReturns(prices, t)), stocks);
      JoinStep(prices, stocks, ts, t, a, b);
      a + b
  }

  /** Appending the last ticker's merge rows to those of the tickers before
      it counts every merged row as often as its stocks row occurs. */
  lemma JoinStep(prices: seq<Row>, stocks: seq<Stock>, ts: seq<string>, t: string, a: seq<Joined>, b: seq<Joined>)
    requires forall u :: u in ts ==> u in Tickers(prices)
    requires |ts| > 0 && t == ts[|ts| - 1] && t !in ts[..|ts| - 1]
    requires forall u :: u in ts[..|ts| - 1] ==> u in Tickers(prices)
    requires forall j :: multiset(a)[j] ==
               if j.ticker in ts[..|ts| - 1] && j.finalCum == FinalGrowth(DatedReturns(prices, j.ticker))
               then multiset(stocks)[Stock(j.ticker, j.sector)] else 0
    requires forall j :: multiset(b)[j] ==
               if j.ticker == t && j.finalCum == FinalGrowth(DatedReturns(prices, t))
               then multiset(stocks)[Stock(t, j.sector)] else 0
    ensures forall j :: multiset(a + b)[j] ==
              if j.ticker in ts && j.finalCum == FinalGrowth(DatedReturns(prices, j.ticker))
              then multiset(stocks)[Stock(j.ticker, j.sector)] else 0
  {
    var init := ts[..|ts| - 1];
    assert forall u :: u in ts <==> u in init || u == t;
    forall j
      ensures multiset(a + b)[j] ==
                if j.ticker in ts && j.finalCum == FinalGrowth(DatedReturns(prices, j.ticker))
                then multiset(stocks)[Stock(j.ticker, j.sector)] else 0
    {
      assert multiset(a + b)[j] == multiset(a)[j] + multiset(b)[j];
    }
  }

  /** `final_df.merge(stocks, on="ticker", how="left")`, keeping the rows
      the sector group-by keeps: exactly the (ticker, sector) pairs of a
      priced ticker and a stocks row for it, each with the ticker's final
      growth factor. A ticker with no stocks row yields no row. */
  function Join(prices: seq<Row>, stocks: seq<Stock>): (js: seq<Joined>)
    ensures forall j :: multiset(js)[j] ==
              if j.ticker in Tickers(prices) && j.finalCum == FinalGrowth(DatedReturns(prices, j.ticker))
              then multiset(stocks)[Stock(j.ticker, j.sector)] else 0
    ensures forall j :: j in js ==>
              j.ticker in Tickers(prices) && Stock(j.ticker, j.sector) in stocks &&
              j.finalCum == FinalGrowth(DatedReturns(prices, j.ticker))
    ensures forall t, s :: t in Tickers(prices) && s in stocks && s.ticker == t ==>
              Joined(t, s.sector, FinalGrowth(DatedReturns(prices, t))) in js
  {
    var js := JoinTickers(prices, stocks, Tickers(prices));
    CountedMembers(prices, stocks, js);
    CountedPairs(prices, stocks, js);
    js
  }

  /** A merged row occurs only with a positive count: it pairs a priced
      ticker with one of its stocks rows. */
  lemma CountedMembers(prices: seq<Row>, stocks: seq<Stock>, js: seq<Joined>)
    requires forall j :: multiset(js)[j] ==
               if j.ticker in Tickers(prices) && j.finalCum == FinalGrowth(DatedReturns(prices, j.ticker))
               then multiset(stocks)[Stock(j.ticker, j.sector)] else 0
    ensures forall j :: j in js ==>
              j.ticker in Tickers(prices) && Stock(j.ticker, j.sector) in stocks &&
              j.finalCum == FinalGrowth(DatedReturns(prices, j.ticker))
  {
    forall j | j in js
      ensures j.ticker in Tickers(prices) && Stock(j.ticker, j.sector) in stocks &&
              j.finalCum == FinalGrowth(DatedReturns(prices, j.ticker))
    {
      assert multiset(js)[j] > 0;
    }
  }

  /** Every pair of a priced ticker and one of its stocks rows has a
      positive count, so it occurs. */
  lemma CountedPairs(prices: seq<Row>, stocks: seq<Stock>, js: seq<Joined>)
    requires forall j :: multiset(js)[j] ==
               if j.ticker in Tickers(prices) && j.finalCum == FinalGrowth(DatedReturns(prices, j.ticker))
               then multiset(stocks)[Stock(j.ticker, j.sector)] else 0
    ensures forall t, s :: t in Tickers(prices) && s in stocks && s.ticker == t ==>
              Joined(t, s.sector, FinalGrowth(DatedReturns(prices, t))) in js
  {
    forall t, s | t in Tickers(prices) && s in stocks && s.ticker == t
      ensures Joined(t, s.sector, FinalGrowth(DatedReturns(prices, t))) in js
    {
      var j := Joined(t, s.sector, FinalGrowth(DatedReturns(prices, t)));
      assert Stock(j.ticker, j.sector) == s;
      assert multiset(stocks)[s] > 0;
      assert multiset(js)[j] > 0;
    }
  }

  /** A ticker missing from the stocks table contributes to no sector. */
  lemma UnlistedTickerIgnored(prices: seq<Row>, stocks: seq<Stock>, t: string)
    requires forall s :: s in stocks ==> s.ticker != t
    ensures forall j :: j in Join(prices, stocks) ==> j.ticker != t
  {
  }

  /** The selection mask `merged["sector"] == sec`. */
  function InSector(sec: string): Joined -> bool {
    (j: Joined) => j.sector == sec
  }

  /** The merged rows of sector `sec`, in order, each as often as it
      occurs in the merged frame. */
  function SectorRows(js: seq<Joined>, sec: string): (r: seq<Joined>)
    ensures forall j :: multiset(r)[j] == if j.sector == sec then multiset(js)[j] else 0
    ensures forall j :: j in r <==> j in js && j.sector == sec
  {
    FilterCounts(js, InSector(sec));
    Filter(js, InSector(sec))
  }

  function Cells(js: seq<Joined>): (cs: seq<Option<real>>)
    ensures |cs| == |js|
    ensures forall i :: 0 <= i < |js| ==> cs[i] == js[i].finalCum
  {
    seq(|js|, i requires 0 <= i < |js| => js[i].finalCum)
  }

  /** The mask `merged["final_cum"] == v` (NULL matching NULL). */
  function CellIs(v: Option<real>): Joined -> bool {
    (j: Joined) => j.finalCum == v
  }

  /** Each cell value occurs in the column once per merged row carrying it. */
  lemma {:induction false} CellCounts(js: seq<Joined>)
    ensures forall v :: multiset(Cells(js))[v] == |Filter(js, CellIs(v))|
    decreases |js|
  {
    if |js| > 0 {
      var init, j := js[..|js| - 1], js[|js| - 1];
      assert Cells(js) == Cells(init) + [j.finalCum];
      CellCounts(init);
    }
  }

  /** The defined `final_cum` values of one sector's merged rows, in row
      order (`SectorValuesExact` says which values they are). */
  function SectorValues(js: seq<Joined>, sec: string): seq<real>
  {
    NonNull(Cells(SectorRows(js, sec)))
  }

  /** Each defined value of a sector occurs once per merged row of the
      sector carrying it (the mean weighs every row), so the values number
      the sector's merged rows minus those with a NULL `final_cum`. */
  lemma SectorValueCounts(js: seq<Joined>, sec: string)
    ensures forall x :: multiset(SectorValues(js, sec))[x] == |Filter(SectorRows(js, sec), CellIs(Some(x)))|
    ensures |SectorValues(js, sec)| == |SectorRows(js, sec)| - |Filter(SectorRows(js, sec), CellIs(None))|
  {
    NonNullCounts(Cells(SectorRows(js, sec)));
    CellCounts(SectorRows(js, sec));
  }

  /** A sector's defined values are exactly the values some merged row of
      the sector carries. */
  lemma SectorValuesExact(js: seq<Joined>, sec: string)
    ensures forall x :: x in SectorValues(js, sec) <==> exists j :: j in js && j.sector == sec && j.finalCum == Some(x)
  {
    var rows := SectorRows(js, sec);
    var cs := Cells(rows);
    NonNullMembers(cs);
    forall x
      ensures Some(x) in cs <==> exists j :: j in js && j.sector == sec && j.finalCum == Some(x)
    {
      if Some(x) in cs {
        var i :| 0 <= i < |cs| && cs[i] == Some(x);
        assert rows[i] in rows;
      }
      if exists j :: j in js && j.sector == sec && j.finalCum == Some(x) {
        var j :| j in js && j.sector == sec && j.finalCum == Some(x);
        var i :| 0 <= i < |rows| && rows[i] == j;
        assert cs[i] == Some(x);
      }
    }
  }

  /** `groupby("sector")["final_cum"].mean()` for one sector: the mean of
      the defined values of the sector's merged rows, NaN (None) when none
      is defined. Each merged row counts once, so the mean times the number
      of defined cells is their sum, and the mean lies between the smallest
      and the largest defined value of the sector. */
  function SectorMean(js: seq<Joined>, sec: string): (r: Option<real>)
    ensures r.None? <==> forall j :: j in js && j.sector == sec ==> j.finalCum.None?
    ensures r.Some? ==> IsMeanOf(r.value, SectorValues(js, sec))
    ensures r.Some? ==> exists j :: j in js && j.sector == sec && j.finalCum.Some? && j.finalCum.value <= r.value
    ensures r.Some? ==> exists j :: j in js && j.sector == sec && j.finalCum.Some? && r.value <= j.finalCum.value
  {
    SectorMeanBounds(js, sec);
    MeanOrNone(SectorValues(js, sec))
  }

  /** The mean of a sector's defined values is undefined exactly when no
      merged row of the sector has a defined value, and otherwise it is
      bounded by two of the sector's defined cells. */
  lemma SectorMeanBounds(js: seq<Joined>, sec: string)
    ensures MeanOrNone(SectorValues(js, sec)).None? <==> forall j :: j in js && j.sector == sec ==> j.finalCum.None?
    ensures MeanOrNone(SectorValues(js, sec)).Some? ==>
              exists j :: j in js && j.sector == sec && j.finalCum.Some? && j.finalCum.value <= MeanOrNone(SectorValues(js, sec)).value
    ensures MeanOrNone(SectorValues(js, sec)).Some? ==>
              exists j :: j in js && j.sector == sec && j.finalCum.Some? && MeanOrNone(SectorValues(js, sec)).value <= j.finalCum.value
  {
    var xs := SectorValues(js, sec);
    var r := MeanOrNone(xs);
    DefinedCellsInValues(js, sec);
    if |xs| > 0 {
      SectorValuesExact(js, sec);
      var lo :| 0 <= lo < |xs| && xs[lo] <= r.value;
      var hi :| 0 <= hi < |xs| && r.value <= xs[hi];
      assert xs[lo] in xs && xs[hi] in xs;
    }
  }

  /** Every defined cell of a sector's merged rows is among its values. */
  lemma DefinedCellsInValues(js: seq<Joined>, sec: string)
    ensures forall j :: j in js && j.sector == sec && j.finalCum.Some? ==> j.finalCum.value in SectorValues(js, sec)
  {
    SectorValuesExact(js, sec);
    forall j | j in js && j.sector == sec && j.finalCum.Some?
      ensures j.finalCum.value in SectorValues(js, sec)
    {
      var v := j.finalCum.value;
      assert exists i :: i in js && i.sector == sec && i.finalCum == Some(v) by {
        assert j.finalCum == Some(v);
      }
    }
  }

  /** The final cumulative returns (`cum.iloc[-1]`, with the `- 1`) of
      the tickers of some merged rows. */
  function CumReturnsOf(prices: seq<Row>, js: seq<Joined>): (cs: seq<Option<real>>)
    requires forall j :: j in js ==> j.ticker in Tickers(prices)
    ensures |cs| == |js|
  {
    seq(|js|, i requires 0 <= i < |js| => FinalCumReturn(DatedReturns(prices, js[i].ticker)))
  }

  /** A sector's value is the mean of its tickers' final cumulative
      returns shifted by exactly one, so the sector ranking is the ranking
      of those means. It is undefined exactly when none of them is. */
  lemma SectorMeanIsShiftedCumMean(prices: seq<Row>, stocks: seq<Stock>, sec: string)
    ensures forall j :: j in SectorRows(Join(prices, stocks), sec) ==> j.ticker in Tickers(prices)
    ensures SectorMean(Join(prices, stocks), sec).None? <==>
              |NonNull(CumReturnsOf(prices, SectorRows(Join(prices, stocks), sec)))| == 0
    ensures SectorMean(Join(prices, stocks), sec).Some? ==>
              SectorMean(Join(prices, stocks), sec).value ==
              Mean(NonNull(CumReturnsOf(prices, SectorRows(Join(prices, stocks), sec)))) + 1.0
  {
    var rows := SectorRows(Join(prices, stocks), sec);
    var cells := Cells(rows);
    var cum := CumReturnsOf(prices, rows);
    forall i | 0 <= i < |rows|
      ensures (cells[i].None? <==> cum[i].None?)
      ensures cum[i].Some? ==> cells[i].value == cum[i].value + 1.0
    {
      assert rows[i] in rows;
    }
    NonNullShift(cells, cum, 1.0);
    if |NonNull(cum)| > 0 {
      MeanShift(NonNull(cum), 1.0);
    }
  }

  function SectorColumn(js: seq<Joined>): (c: seq<string>)
    ensures |c| == |js|
    ensures forall i :: 0 <= i < |js| ==> c[i] == js[i].sector
  {
    seq(|js|, i requires 0 <= i < |js| => js[i].sector)
  }

  /** The sectors present in the merged frame are exactly the sectors of
      stocks rows whose ticker has prices. */
  lemma JoinedSectors(prices: seq<Row>, stocks: seq<Stock>)
    ensures forall sec :: sec in SectorColumn(Join(prices, stocks)) <==>
              exists s :: s in stocks && s.ticker in Tickers(prices) && s.sector == sec
  {
    var js := Join(prices, stocks);
    var c := SectorColumn(js);
    forall sec | sec in c
      ensures exists s :: s in stocks && s.ticker in Tickers(prices) && s.sector == sec
    {
      var i :| 0 <= i < |js| && c[i] == sec;
      assert js[i] in js;
      assert Stock(js[i].ticker, js[i].sector) in stocks;
    }
    forall s | s in stocks && s.ticker in Tickers(prices)
      ensures s.sector in c
    {
      var j := Joined(s.ticker, s.sector, FinalGrowth(DatedReturns(prices, s.ticker)));
      assert j in js;
      var i :| 0 <= i < |js| && js[i] == j;
      assert c[i] == s.sector;
    }
  }

  /** One entry per sector of the merged frame, with its mean. */
  function SectorEntries(js: seq<Joined>): (es: seq<Entry>)
    ensures NoDup(Names(es))
    ensures forall sec :: sec in Names(es) <==> sec in SectorColumn(js)
    ensures forall e :: e in es ==> e.value == SectorMean(js, e.name)
  {
    var secs := Distinct(SectorColumn(js));
    var es := seq(|secs|, i requires 0 <= i < |secs| => Entry(secs[i], SectorMean(js, secs[i])));
    assert Names(es) == secs;
    es
  }

  /** `sector_perf`: one entry per sector that some priced ticker belongs
      to, each carrying that sector's mean final growth, in descending order
      (undefined means last). */
  function SectorPerformance(prices: seq<Row>, stocks: seq<Stock>): (r: seq<Entry>)
    ensures SortedBy(r, RankOrder(true))
    ensures NoDup(Names(r))
    ensures forall sec :: sec in Names(r) <==>
              exists s :: s in stocks && s.ticker in Tickers(prices) && s.sector == sec
    ensures forall e :: e in r ==> e.value == SectorMean(Join(prices, stocks), e.name)
  {
    var js := Join(prices, stocks);
    var es := SectorEntries(js);
    var r := Ranked(es, true);
    assert forall e :: e in r ==> e in multiset(es);
    NamesOfPermutation(r, es);
    JoinedSectors(prices, stocks);
    r
  }

  /** A permutation of a table with distinct names has distinct names, and
      the same ones. */
  lemma NamesOfPermutation(r: seq<Entry>, es: seq<Entry>)
    requires multiset(r) == multiset(es)
    requires NoDup(Names(es))
    ensures NoDup(Names(r))
    ensures forall n :: n in Names(r) <==> n in Names(es)
  {
    var name := (e: Entry) => e.name;
    assert IsImage(Names(r), r, name) && IsImage(Names(es), es, name);
    ImagePermutation(r, es, Names(r), Names(es), name);
    NoDupUnderPermutation(Names(r), Names(es));
    forall n
      ensures n in Names(r) <==> n in Names(es)
    {
      assert n in Names(r) <==> n in multiset(Names(r));
      assert n in Names(es) <==> n in multiset(Names(es));
    }
  }
}
