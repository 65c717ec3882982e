/** The Monthly Movers page: each ticker's closes bucketed by calendar
    month, one row per non-empty (ticker, month) bucket with the bucket's
    first and last close and the monthly return, the months offered for
    selection, and the five largest and smallest returns of a chosen month. */
module Monthly {
  import opened Wrappers
  import opened Seqs
  import opened Sorting
  import opened Stats
  import opened Prices
  import opened Ranking

  /** A calendar month, the `"%Y-%m"` key of a resampled row. */
  datatype MonthKey = MonthKey(year: int, month: int)

  function KeyOf(d: Date): MonthKey {
    MonthKey(d.year, d.month)
  }

  /** One row of `monthly_df`. */
  datatype MonthlyRow = MonthlyRow(ticker: string, key: MonthKey, firstClose: real, lastClose: real,
                                   monthlyReturn: Option<real>)

  function KeyColumn(g: seq<Row>): (ks: seq<MonthKey>)
    ensures |ks| == |g|
    ensures forall i :: 0 <= i < |g| ==> ks[i] == KeyOf(g[i].date)
  {
    seq(|g|, i requires 0 <= i < |g| => KeyOf(g[i].date))
  }

  lemma InKeyColumn(g: seq<Row>, k: MonthKey)
    ensures k in KeyColumn(g) <==> exists r :: r in g && KeyOf(r.date) == k
  {
    if exists r :: r in g && KeyOf(r.date) == k {
      var r :| r in g && KeyOf(r.date) == k;
      var i :| 0 <= i < |g| && g[i] == r;
      assert KeyColumn(g)[i] == k;
    }
  }

  /** The resampling mask: the row's date falls in month `k`. */
  function InMonth(k: MonthKey): Row -> bool {
    (r: Row) => KeyOf(r.date) == k
  }

  /** The rows of `g` that fall in month `k`, in order, each as often as
      in `g`. */
  function Bucket(g: seq<Row>, k: MonthKey): (b: seq<Row>)
    ensures forall r :: multiset(b)[r] == if KeyOf(r.date) == k then multiset(g)[r] else 0
    ensures forall r :: r in b <==> r in g && KeyOf(r.date) == k
  {
    FilterCounts(g, InMonth(k));
    Filter(g, InMonth(k))
  }

  lemma BucketKeepsOrder(g: seq<Row>, k: MonthKey)
    requires SortedBy(g, RowDateLe)
    ensures SortedBy(Bucket(g, k), RowDateLe)
  {
    FilterKeepsOrder(g, InMonth(k), RowDateLe);
  }

  /** The resampled row of month `k` for ticker `t`: `first` and `last` are
      the closes of the bucket's first and last row, and the monthly return
      is the relative change between them. */
  function MonthRow(t: string, g: seq<Row>, k: MonthKey): (m: MonthlyRow)
    requires k in KeyColumn(g)
    ensures m.ticker == t && m.key == k
    ensures IsRelativeChange(m.firstClose, m.lastClose, m.monthlyReturn)
  {
    BucketNonEmpty(g, k);
    var b := Bucket(g, k);
    MonthlyRow(t, k, b[0].close, b[|b| - 1].close, RelativeChange(b[0].close, b[|b| - 1].close))
  }

  lemma BucketNonEmpty(g: seq<Row>, k: MonthKey)
    requires k in KeyColumn(g)
    ensures |Bucket(g, k)| > 0
  {
    var i :| 0 <= i < |g| && KeyColumn(g)[i] == k;
    assert g[i] in Bucket(g, k);
  }

  /** In a date-sorted group, a bucket's first close belongs to its earliest
      row and its last close to its latest: the bucket is never empty. */
  lemma MonthRowEndpoints(t: string, g: seq<Row>, k: MonthKey)
    requires SortedBy(g, RowDateLe)
    requires k in KeyColumn(g)
    ensures exists a :: a in g && KeyOf(a.date) == k && a.close == MonthRow(t, g, k).firstClose &&
              forall q :: q in g && KeyOf(q.date) == k ==> DateLe(a.date, q.date)
    ensures exists z :: z in g && KeyOf(z.date) == k && z.close == MonthRow(t, g, k).lastClose &&
              forall q :: q in g && KeyOf(q.date) == k ==> DateLe(q.date, z.date)
  {
    BucketNonEmpty(g, k);
    var b := Bucket(g, k);
    BucketKeepsOrder(g, k);
    DateSortedEndpoints(b);
    assert b[0] in b && b[|b| - 1] in b;
  }

  function MonthRows(t: string, g: seq<Row>, ks: seq<MonthKey>): (ms: seq<MonthlyRow>)
    requires forall k :: k in ks ==> k in KeyColumn(g)
    ensures |ms| == |ks|
    ensures forall i :: 0 <= i < |ks| ==> ms[i] == MonthRow(t, g, ks[i])
  {
    seq(|ks|, i requires 0 <= i < |ks| => MonthRow(t, g, ks[i]))
  }

  /** `g["close"].resample("M").agg(["first","last"]).dropna()` for one
      ticker: one row per month with at least one observation, and none for
      an empty month. */
  function MonthlyOf(t: string, g: seq<Row>): (ms: seq<MonthlyRow>)
    ensures forall m :: m in ms ==> m.ticker == t && m.key in KeyColumn(g) && m == MonthRow(t, g, m.key)
    ensures forall k :: k in KeyColumn(g) ==> exists m :: m in ms && m.key == k
    ensures forall i, j :: 0 <= i < j < |ms| ==> ms[i].key != ms[j].key
  {
    var ks := Distinct(KeyColumn(g));
    var ms := MonthRows(t, g, ks);
    forall k | k in KeyColumn(g)
      ensures exists m :: m in ms && m.key == k
    {
      var i :| 0 <= i < |ks| && ks[i] == k;
      assert ms[i] in ms;
    }
    ms
  }

  /** No (ticker, month) pair occurs twice. */
  predicate PairsDistinct(ms: seq<MonthlyRow>) {
    forall i, j :: 0 <= i < j < |ms| ==> ms[i].ticker != ms[j].ticker || ms[i].key != ms[j].key
  }

  lemma AppendPairsDistinct(a: seq<MonthlyRow>, b: seq<MonthlyRow>, t: string)
    requires PairsDistinct(a)
    requires forall i, j :: 0 <= i < j < |b| ==> b[i].key != b[j].key
    requires forall m :: m in b ==> m.ticker == t
    requires forall m :: m in a ==> m.ticker != t
    ensures PairsDistinct(a + b)
  {
    var ms := a + b;
    forall i, j | 0 <= i < j < |ms|
      ensures ms[i].ticker != ms[j].ticker || ms[i].key != ms[j].key
    {
      if j < |a| {
        assert ms[i] == a[i] && ms[j] == a[j];
      } else if i < |a| {
        assert ms[i] in a && ms[j] in b;
      } else {
        assert ms[i] == b[i - |a|] && ms[j] == b[j - |a|];
      }
    }
  }

  /** `monthly_df` over the tickers `ts`, one ticker after another. */
  function MonthlyTableOf(prices: seq<Row>, ts: seq<string>): (ms: seq<MonthlyRow>)
    ensures forall m :: m in ms ==>
              m.ticker in ts && m.key in KeyColumn(DatedGroup(prices, m.ticker)) &&
              m == MonthRow(m.ticker, DatedGroup(prices, m.ticker), m.key)
    ensures forall t, k :: t in ts && k in KeyColumn(DatedGroup(prices, t)) ==>
              exists m :: m in ms && m.ticker == t && m.key == k
    ensures NoDup(ts) ==> PairsDistinct(ms)
  {
    if |ts| == 0 then []
    else
      var init := ts[..|ts| - 1];
      var t := ts[|ts| - 1];
      var a := MonthlyTableOf(prices, init);
      var b := MonthlyOf(t, DatedGroup(prices, t));
      MonthlyTableStep(prices, ts, t, a, b);
      a + b
  }

  /** Appending the last ticker's monthly rows to the table of the tickers
      before it. */
  lemma MonthlyTableStep(prices: seq<Row>, ts: seq<string>, t: string, a: seq<MonthlyRow>, b: seq<MonthlyRow>)
    requires |ts| > 0 && t == ts[|ts| - 1]
    requires forall m :: m in a ==>
               m.ticker in ts[..|ts| - 1] && m.key in KeyColumn(DatedGroup(prices, m.ticker)) &&
               m == MonthRow(m.ticker, DatedGroup(prices, m.ticker), m.key)
    requires forall u, k :: u in ts[..|ts| - 1] && k in KeyColumn(DatedGroup(prices, u)) ==>
               exists m :: m in a && m.ticker == u && m.key == k
    requires NoDup(ts[..|ts| - 1]) ==> PairsDistinct(a)
    requires forall m :: m in b ==>
               m.ticker == t && m.key in KeyColumn(DatedGroup(prices, t)) &&
               m == MonthRow(t, DatedGroup(prices, t), m.key)
    requires forall k :: k in KeyColumn(DatedGroup(prices, t)) ==> exists m :: m in b && m.key == k
    requires forall i, j :: 0 <= i < j < |b| ==> b[i].key != b[j].key
    ensures forall m :: m in a + b ==>
              m.ticker in ts && m.key in KeyColumn(DatedGroup(prices, m.ticker)) &&
              m == MonthRow(m.ticker, DatedGroup(prices, m.ticker), m.key)
    ensures forall u, k :: u in ts && k in KeyColumn(DatedGroup(prices, u)) ==>
              exists m :: m in a + b && m.ticker == u && m.key == k
    ensures NoDup(ts) ==> PairsDistinct(a + b)
  {
    var init := ts[..|ts| - 1];
    assert forall u :: u in ts <==> u in init || u == t;
    forall u, k | u in ts && k in KeyColumn(DatedGroup(prices, u))
      ensures exists m :: m in a + b && m.ticker == u && m.key == k
    {
      if u in init {
        var m :| m in a && m.ticker == u && m.key == k;
        assert m in a + b;
      } else {
        var m :| m in b && m.key == k;
        assert m in a + b;
      }
    }
    if NoDup(ts) {
      assert NoDup(init) && t !in init;
      AppendPairsDistinct(a, b, t);
    }
  }

  /** `monthly_df = pd.concat(rows)`: the union over all tickers. With no
      price rows the loop collects no frame and `pd.concat` raises, so the
      page fails (`None`); otherwise the table is never empty and no
      (ticker, month) pair occurs twice. */
  function MonthlyTable(prices: seq<Row>): (r: Option<seq<MonthlyRow>>)
    ensures r.None? <==> |prices| == 0
    ensures r.Some? ==> |r.value| > 0 && PairsDistinct(r.value)
  {
    if |prices| == 0 then None
    else
      var t, k := prices[0].ticker, KeyOf(prices[0].date);
      assert t in Tickers(prices);
      InKeyColumn(DatedGroup(prices, t), k);
      assert prices[0] in DatedGroup(prices, t);
      Some(MonthlyTableOf(prices, Tickers(prices)))
  }

  /** Ticker `t` has a monthly row for month `k`. */
  predicate HasMonthlyRow(ms: seq<MonthlyRow>, t: string, k: MonthKey) {
    exists m :: m in ms && m.ticker == t && m.key == k
  }

  /** Ticker `t` has at least one price row in month `k`. */
  predicate Observed(prices: seq<Row>, t: string, k: MonthKey) {
    exists r :: r in prices && r.ticker == t && KeyOf(r.date) == k
  }

  /** There is one monthly row per (ticker, month) with at least one
      observation, and no other: no empty bucket yields a row, and no
      (ticker, month) pair occurs twice. */
  lemma MonthlyRowsExact(prices: seq<Row>)
    ensures forall t, k :: HasMonthlyRow(MonthlyTableOf(prices, Tickers(prices)), t, k) <==> Observed(prices, t, k)
    ensures MonthlyTable(prices).Some? ==>
              forall t, k :: HasMonthlyRow(MonthlyTable(prices).value, t, k) <==> Observed(prices, t, k)
  {
    var ms := MonthlyTableOf(prices, Tickers(prices));
    forall t, k
      ensures HasMonthlyRow(ms, t, k) <==> Observed(prices, t, k)
    {
      if HasMonthlyRow(ms, t, k) {
        var m :| m in ms && m.ticker == t && m.key == k;
        InKeyColumn(DatedGroup(prices, t), k);
      }
      if Observed(prices, t, k) {
        var r :| r in prices && r.ticker == t && KeyOf(r.date) == k;
        assert t in Tickers(prices) by {
          var i :| 0 <= i < |prices| && prices[i] == r;
        }
        InKeyColumn(DatedGroup(prices, t), k);
      }
    }
  }

  /** Daily closes from January 2 to February 5 give exactly two monthly
      rows, and February's first close is that of February 1, though the
      month has only a few observations. */
  lemma TwoMonthExample()
    ensures |MonthlyOf("A", ExampleGroup())| == 2
    ensures MonthlyOf("A", ExampleGroup())[0] == MonthlyRow("A", MonthKey(2024, 1), 100.0, 110.0, Some(0.1))
    ensures MonthlyOf("A", ExampleGroup())[1].key == MonthKey(2024, 2)
    ensures MonthlyOf("A", ExampleGroup())[1].firstClose == 99.0
  {
    var g := ExampleGroup();
    var jan, feb := MonthKey(2024, 1), MonthKey(2024, 2);
    ExampleKeys();
    ExampleBuckets();
    assert MonthRows("A", g, [jan, feb])[0] == MonthRow("A", g, jan);
    assert RelativeChange(100.0, 110.0) == Some(0.1);
  }

  lemma ExampleKeys()
    ensures Distinct(KeyColumn(ExampleGroup())) == [MonthKey(2024, 1), MonthKey(2024, 2)]
  {
    var jan, feb := MonthKey(2024, 1), MonthKey(2024, 2);
    var ks := KeyColumn(ExampleGroup());
    assert ks == [jan, jan, feb, feb];
    assert ks[..3] == [jan, jan, feb] && [jan, jan, feb][..2] == [jan, jan] && [jan, jan][..1] == [jan];
    assert [jan][..0] == [];
    assert Distinct([jan]) == [jan];
    assert Distinct([jan, jan]) == [jan];
    assert Distinct([jan, jan, feb]) == [jan, feb];
  }

  lemma ExampleBuckets()
    ensures Bucket(ExampleGroup(), MonthKey(2024, 1)) == ExampleGroup()[..2]
    ensures Bucket(ExampleGroup(), MonthKey(2024, 2)) == ExampleGroup()[2..]
  {
    var g := ExampleGroup();
    assert g == g[..2] + g[2..];
    ExampleMonths();
    FilterConcat(g[..2], g[2..], InMonth(MonthKey(2024, 1)));
    FilterConcat(g[..2], g[2..], InMonth(MonthKey(2024, 2)));
  }

  /** The example's first two rows fall in January, the last two in
      February. */
  lemma ExampleMonths()
    ensures Filter(ExampleGroup()[..2], InMonth(MonthKey(2024, 1))) == ExampleGroup()[..2]
    ensures Filter(ExampleGroup()[2..], InMonth(MonthKey(2024, 1))) == []
    ensures Filter(ExampleGroup()[..2], InMonth(MonthKey(2024, 2))) == []
    ensures Filter(ExampleGroup()[2..], InMonth(MonthKey(2024, 2))) == ExampleGroup()[2..]
  {
    ExampleJanuary();
    ExampleFebruary();
  }

  lemma ExampleJanuary()
    ensures Filter(ExampleGroup()[..2], InMonth(MonthKey(2024, 1))) == ExampleGroup()[..2]
    ensures Filter(ExampleGroup()[2..], InMonth(MonthKey(2024, 1))) == []
  {
    var g := ExampleGroup();
    var jan := MonthKey(2024, 1);
    assert Filter(g[..2], InMonth(jan)) == g[..2] by {
      assert InMonth(jan)(g[0]) && InMonth(jan)(g[1]);
      FilterAll(g[..2], InMonth(jan));
    }
    assert Filter(g[2..], InMonth(jan)) == [] by {
      assert !InMonth(jan)(g[2]) && !InMonth(jan)(g[3]);
      FilterNone(g[2..], InMonth(jan));
    }
  }

  lemma ExampleFebruary()
    ensures Filter(ExampleGroup()[..2], InMonth(MonthKey(2024, 2))) == []
    ensures Filter(ExampleGroup()[2..], InMonth(MonthKey(2024, 2))) == ExampleGroup()[2..]
  {
    var g := ExampleGroup();
    var feb := MonthKey(2024, 2);
    assert Filter(g[..2], InMonth(feb)) == [] by {
      assert !InMonth(feb)(g[0]) && !InMonth(feb)(g[1]);
      FilterNone(g[..2], InMonth(feb));
    }
    assert Filter(g[2..], InMonth(feb)) == g[2..] by {
      assert InMonth(feb)(g[2]) && InMonth(feb)(g[3]);
      FilterAll(g[2..], InMonth(feb));
    }
  }

  function ExampleGroup(): seq<Row> {
    [ Row("A", Date(2024, 1, 2), 100.0, None),
      Row("A", Date(2024, 1, 31), 110.0, Some(0.1)),
      Row("A", Date(2024, 2, 1), 99.0, Some(-0.1)),
      Row("A", Date(2024, 2, 5), 108.9, Some(0.1)) ]
  }

  /** Each monthly row's first close is the close of the ticker's earliest
      observation in that month and its last close that of the latest, and
      `last = first * (1 + monthly_return)`. */
  lemma MonthlyRowEndpoints(prices: seq<Row>, m: MonthlyRow)
    requires m in MonthlyTableOf(prices, Tickers(prices))
    ensures IsRelativeChange(m.firstClose, m.lastClose, m.monthlyReturn)
    ensures exists a :: a in prices && a.ticker == m.ticker && KeyOf(a.date) == m.key && a.close == m.firstClose &&
              forall q :: q in prices && q.ticker == m.ticker && KeyOf(q.date) == m.key ==> DateLe(a.date, q.date)
    ensures exists z :: z in prices && z.ticker == m.ticker && KeyOf(z.date) == m.key && z.close == m.lastClose &&
              forall q :: q in prices && q.ticker == m.ticker && KeyOf(q.date) == m.key ==> DateLe(q.date, z.date)
  {
    MonthRowEndpoints(m.ticker, DatedGroup(prices, m.ticker), m.key);
  }

  // ---------------------------------------------------------------------
  // Month selection and movers

  /** The selection mask `monthly_df["date"].dt.strftime("%Y-%m") == sel`. */
  function HasKey(k: MonthKey): MonthlyRow -> bool {
    (m: MonthlyRow) => m.key == k
  }

  /** `monthly_df[key == sel]`: exactly the rows of month `k`, each as
      often as in the table; possibly none. */
  function SelectMonth(ms: seq<MonthlyRow>, k: MonthKey): (r: seq<MonthlyRow>)
    ensures forall m :: multiset(r)[m] == if m.key == k then multiset(ms)[m] else 0
    ensures forall m :: m in r <==> m in ms && m.key == k
    ensures |r| <= |ms|
  {
    FilterCounts(ms, HasKey(k));
    Filter(ms, HasKey(k))
  }

  /** Chronological order of months. */
  predicate MonthLe(a: MonthKey, b: MonthKey) {
    a.year < b.year || (a.year == b.year && a.month <= b.month)
  }

  /** Latest month first. */
  predicate MonthGe(a: MonthKey, b: MonthKey) {
    MonthLe(b, a)
  }

  function MonthColumn(ms: seq<MonthlyRow>): (ks: seq<MonthKey>)
    ensures |ks| == |ms|
    ensures forall i :: 0 <= i < |ms| ==> ks[i] == ms[i].key
  {
    seq(|ms|, i requires 0 <= i < |ms| => ms[i].key)
  }

  /** The choices of the month selector: every month of the table once,
      latest first. */
  function MonthOptions(ms: seq<MonthlyRow>): (ks: seq<MonthKey>)
    ensures NoDup(ks)
    ensures SortedBy(ks, MonthGe)
    ensures forall k :: k in ks <==> exists m :: m in ms && m.key == k
  {
    var d := Distinct(MonthColumn(ms));
    var ks := Sort(d, MonthGe);
    assert forall k :: k in ks <==> k in d by {
      assert forall k :: k in ks <==> k in multiset(d);
    }
    forall k | k in d
      ensures exists m :: m in ms && m.key == k
    {
      var i :| 0 <= i < |ms| && MonthColumn(ms)[i] == k;
      assert ms[i] in ms;
    }
    forall k | exists m :: m in ms && m.key == k
      ensures k in d
    {
      var m :| m in ms && m.key == k;
      var i :| 0 <= i < |ms| && ms[i] == m;
      assert MonthColumn(ms)[i] == k;
    }
    NoDupUnderPermutation(ks, d);
    ks
  }

  /** Every month the selector offers selects at least one row; a month
      outside the table selects none. */
  lemma OfferedMonthsAreNonEmpty(ms: seq<MonthlyRow>, k: MonthKey)
    ensures k in MonthOptions(ms) <==> |SelectMonth(ms, k)| > 0
  {
    if k in MonthOptions(ms) {
      var m :| m in ms && m.key == k;
      assert m in SelectMonth(ms, k);
    }
    if |SelectMonth(ms, k)| > 0 {
      assert SelectMonth(ms, k)[0] in SelectMonth(ms, k);
    }
  }

  function MonthEntries(ms: seq<MonthlyRow>): (es: seq<Entry>)
    ensures |es| == |ms|
    ensures forall i :: 0 <= i < |ms| ==> es[i] == Entry(ms[i].ticker, ms[i].monthlyReturn)
  {
    seq(|ms|, i requires 0 <= i < |ms| => Entry(ms[i].ticker, ms[i].monthlyReturn))
  }

  lemma DrawnFromMonth(ms: seq<MonthlyRow>, k: MonthKey, r: seq<Entry>)
    requires multiset(r) <= multiset(MonthEntries(SelectMonth(ms, k)))
    ensures forall e :: e in r ==> exists m :: m in ms && m.key == k && e == Entry(m.ticker, m.monthlyReturn)
  {
    var sel := SelectMonth(ms, k);
    var es := MonthEntries(sel);
    forall e | e in r
      ensures exists m :: m in ms && m.key == k && e == Entry(m.ticker, m.monthlyReturn)
    {
      assert e in multiset(es);
      var i :| 0 <= i < |es| && es[i] == e;
      assert sel[i] in sel;
    }
  }

  /** `this.nlargest(5, "monthly_return")`: at most five rows of month `k`,
      largest return first, none left out larger than one shown. */
  function Gainers(ms: seq<MonthlyRow>, k: MonthKey): (r: seq<Entry>)
    ensures |r| == Min(5, |SelectMonth(ms, k)|)
    ensures multiset(r) <= multiset(MonthEntries(SelectMonth(ms, k)))
    ensures forall e :: e in r ==> exists m :: m in ms && m.key == k && e == Entry(m.ticker, m.monthlyReturn)
    ensures SortedBy(r, RankOrder(true))
    ensures forall i, x :: 0 <= i < |r| && x in multiset(MonthEntries(SelectMonth(ms, k))) - multiset(r) ==>
              Ranks(r[i].value, x.value, true)
  {
    var r := Top(MonthEntries(SelectMonth(ms, k)), 5, true);
    DrawnFromMonth(ms, k, r);
    r
  }

  /** `this.nsmallest(5, "monthly_return")`: the mirror image, smallest
      return first. */
  function Losers(ms: seq<MonthlyRow>, k: MonthKey): (r: seq<Entry>)
    ensures |r| == Min(5, |SelectMonth(ms, k)|)
    ensures multiset(r) <= multiset(MonthEntries(SelectMonth(ms, k)))
    ensures forall e :: e in r ==> exists m :: m in ms && m.key == k && e == Entry(m.ticker, m.monthlyReturn)
    ensures SortedBy(r, RankOrder(false))
    ensures forall i, x :: 0 <= i < |r| && x in multiset(MonthEntries(SelectMonth(ms, k))) - multiset(r) ==>
              Ranks(r[i].value, x.value, false)
  {
    var r := Top(MonthEntries(SelectMonth(ms, k)), 5, false);
    DrawnFromMonth(ms, k, r);
    r
  }
}
