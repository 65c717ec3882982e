/** The price table as loaded: rows `(ticker, date, close, daily_return)`
    and the `(ticker, sector)` reference table, load-time normalisation
    (upper-cased tickers, rows ordered by ticker then date) and the
    group-by-ticker view every dashboard page starts from. */
module Prices {
  import opened Wrappers
  import opened Seqs
  import opened Sorting

  /** A calendar date as a (year, month, day) triple. */
  datatype Date = Date(year: int, month: int, day: int)

  /** One row of the `prices` table; `dailyReturn` is NULL on a ticker's
      first day. The open, high, low and volume columns play no part. */
  datatype Row = Row(ticker: string, date: Date, close: real, dailyReturn: Option<real>)

  /** One row of the `stocks` reference table (the company column plays no part). */
  datatype Stock = Stock(ticker: string, sector: string)

  // ---------------------------------------------------------------------
  // Upper-casing

  predicate IsLower(c: char) {
    'a' <= c <= 'z'
  }

  predicate IsUpperCase(s: string) {
    forall i :: 0 <= i < |s| ==> !IsLower(s[i])
  }

  function UpperChar(c: char): char {
    if IsLower(c) then (c as int - 32) as char else c
  }

  /** `str.upper()` on ASCII letters. */
  function Upper(s: string): (u: string)
    ensures |u| == |s|
    ensures IsUpperCase(u)
    ensures forall i :: 0 <= i < |s| && !IsLower(s[i]) ==> u[i] == s[i]
    ensures forall i :: 0 <= i < |s| && IsLower(s[i]) ==> u[i] as int == s[i] as int - 32
  {
    seq(|s|, i requires 0 <= i < |s| => UpperChar(s[i]))
  }

  /** Upper-casing changes exactly the strings that are not upper case
      already, so applying it twice is the same as applying it once. */
  lemma UpperFixesUpperCase(s: string)
    ensures Upper(s) == s <==> IsUpperCase(s)
    ensures Upper(Upper(s)) == Upper(s)
  {
    if !IsUpperCase(s) {
      var i :| 0 <= i < |s| && IsLower(s[i]);
      assert Upper(s)[i] != s[i];
    }
  }

  // ---------------------------------------------------------------------
  // Orders

  /** Chronological order of dates. */
  predicate DateLe(a: Date, b: Date) {
    || a.year < b.year
    || (a.year == b.year && a.month < b.month)
    || (a.year == b.year && a.month == b.month && a.day <= b.day)
  }

  /** Lexicographic order of strings by code point, as pandas sorts them. */
  predicate StrLe(a: string, b: string)
    decreases |a|
  {
    || |a| == 0
    || (|b| > 0 && a[0] < b[0])
    || (|b| > 0 && a[0] == b[0] && StrLe(a[1..], b[1..]))
  }

  lemma {:induction false} StrLeTotal(a: string, b: string)
    ensures StrLe(a, b) || StrLe(b, a)
    decreases |a|
  {
    if |a| > 0 && |b| > 0 && a[0] == b[0] {
      StrLeTotal(a[1..], b[1..]);
    }
  }

  lemma {:induction false} StrLeTransitive(a: string, b: string, c: string)
    requires StrLe(a, b) && StrLe(b, c)
    ensures StrLe(a, c)
    decreases |a|
  {
    if |a| > 0 && a[0] == b[0] && b[0] == c[0] {
      StrLeTransitive(a[1..], b[1..], c[1..]);
    }
  }

  lemma {:induction false} StrLeAntisymmetric(a: string, b: string)
    requires StrLe(a, b) && StrLe(b, a)
    ensures a == b
    decreases |a|
  {
    if |a| > 0 {
      StrLeAntisymmetric(a[1..], b[1..]);
      assert a == [a[0]] + a[1..];
      assert b == [b[0]] + b[1..];
    }
  }

  /** The load order: by ticker, then by date. */
  predicate RowLe(a: Row, b: Row) {
    || (StrLe(a.ticker, b.ticker) && a.ticker != b.ticker)
    || (a.ticker == b.ticker && DateLe(a.date, b.date))
  }

  /** Date order of two rows, whatever their tickers. */
  predicate RowDateLe(a: Row, b: Row) {
    DateLe(a.date, b.date)
  }

  lemma RowLeIsTotalPreorder()
    ensures TotalPreorder(RowLe)
  {
    forall a: Row, b: Row
      ensures RowLe(a, b) || RowLe(b, a)
    {
      StrLeTotal(a.ticker, b.ticker);
    }
    forall a: Row, b: Row, c: Row | RowLe(a, b) && RowLe(b, c)
      ensures RowLe(a, c)
    {
      if a.ticker != b.ticker && b.ticker != c.ticker {
        StrLeTransitive(a.ticker, b.ticker, c.ticker);
        if a.ticker == c.ticker {
          StrLeAntisymmetric(a.ticker, b.ticker);
        }
      }
    }
  }

  lemma RowDateLeIsTotalPreorder()
    ensures TotalPreorder(RowDateLe)
  {
  }

  // ---------------------------------------------------------------------
  // Load normalisation

  function UpperTickers(rows: seq<Row>): (r: seq<Row>)
    ensures |r| == |rows|
    ensures forall i :: 0 <= i < |r| ==> r[i] == rows[i].(ticker := Upper(rows[i].ticker))
  {
    seq(|rows|, i requires 0 <= i < |rows| => rows[i].(ticker := Upper(rows[i].ticker)))
  }

  /** The rows are in load order: sorted by ticker, then date. */
  predicate Normalised(rows: seq<Row>) {
    SortedBy(rows, RowLe)
  }

  /** The prices table after loading: every ticker upper-cased, and the rows
      a permutation of the loaded ones ordered by (ticker, date). */
  function Normalise(rows: seq<Row>): (r: seq<Row>)
    ensures |r| == |rows|
    ensures forall i :: 0 <= i < |r| ==> IsUpperCase(r[i].ticker)
    ensures Normalised(r)
    ensures multiset(r) == multiset(UpperTickers(rows))
  {
    RowLeIsTotalPreorder();
    var r := Sort(UpperTickers(rows), RowLe);
    assert forall i :: 0 <= i < |r| ==> IsUpperCase(r[i].ticker) by {
      forall i | 0 <= i < |r|
        ensures IsUpperCase(r[i].ticker)
      {
        assert r[i] in multiset(UpperTickers(rows));
        var j :| 0 <= j < |rows| && UpperTickers(rows)[j] == r[i];
      }
    }
    r
  }

  /** The stocks table after loading: the same rows with upper-cased tickers. */
  function NormaliseStocks(stocks: seq<Stock>): (r: seq<Stock>)
    ensures |r| == |stocks|
    ensures forall i :: 0 <= i < |r| ==> IsUpperCase(r[i].ticker)
    ensures forall i :: 0 <= i < |r| ==> r[i].sector == stocks[i].sector && r[i].ticker == Upper(stocks[i].ticker)
  {
    seq(|stocks|, i requires 0 <= i < |stocks| => stocks[i].(ticker := Upper(stocks[i].ticker)))
  }

  /** In load order each ticker's rows are contiguous and date-ascending. */
  lemma NormalisedGroupsContiguous(rows: seq<Row>)
    requires Normalised(rows)
    ensures forall i, j, k :: 0 <= i < j < k < |rows| && rows[i].ticker == rows[k].ticker ==>
              rows[j].ticker == rows[i].ticker
    ensures forall i, j :: 0 <= i < j < |rows| && rows[i].ticker == rows[j].ticker ==>
              DateLe(rows[i].date, rows[j].date)
  {
    forall i, j, k | 0 <= i < j < k < |rows| && rows[i].ticker == rows[k].ticker
      ensures rows[j].ticker == rows[i].ticker
    {
      assert RowLe(rows[i], rows[j]) && RowLe(rows[j], rows[k]);
      if rows[j].ticker != rows[i].ticker {
        StrLeAntisymmetric(rows[i].ticker, rows[j].ticker);
      }
    }
  }

  // ---------------------------------------------------------------------
  // Group by ticker

  function TickerColumn(rows: seq<Row>): (c: seq<string>)
    ensures |c| == |rows|
    ensures forall i :: 0 <= i < |rows| ==> c[i] == rows[i].ticker
  {
    seq(|rows|, i requires 0 <= i < |rows| => rows[i].ticker)
  }

  /** The group keys of `groupby("ticker")`: each ticker once. */
  function Tickers(rows: seq<Row>): (ts: seq<string>)
    ensures NoDup(ts)
    ensures forall t :: t in ts <==> exists i :: 0 <= i < |rows| && rows[i].ticker == t
  {
    var c := TickerColumn(rows);
    var ts := Distinct(c);
    assert forall t :: t in c <==> exists i :: 0 <= i < |rows| && rows[i].ticker == t by {
      forall t
        ensures t in c <==> exists i :: 0 <= i < |rows| && rows[i].ticker == t
      {
        if t in c {
          var i :| 0 <= i < |c| && c[i] == t;
          assert rows[i].ticker == t;
        }
      }
    }
    ts
  }

  /** The selection mask `rows["ticker"] == t`. */
  function HasTicker(t: string): Row -> bool {
    (r: Row) => r.ticker == t
  }

  /** The rows of ticker `t`, in table order: each row of that ticker as
      often as it occurs in the table, no other row. */
  function RowsOf(rows: seq<Row>, t: string): (g: seq<Row>)
    ensures forall r :: multiset(g)[r] == if r.ticker == t then multiset(rows)[r] else 0
    ensures forall r :: r in g <==> r in rows && r.ticker == t
    ensures |g| <= |rows|
  {
    FilterCounts(rows, HasTicker(t));
    Filter(rows, HasTicker(t))
  }

  lemma RowsOfNonEmpty(rows: seq<Row>, t: string)
    requires t in Tickers(rows)
    ensures |RowsOf(rows, t)| > 0
  {
    var i :| 0 <= i < |rows| && rows[i].ticker == t;
    assert rows[i] in RowsOf(rows, t);
  }

  /** Filtering keeps any order the table was in. */
  lemma RowsOfKeepsOrder(rows: seq<Row>, t: string, le: (Row, Row) -> bool)
    requires SortedBy(rows, le)
    ensures SortedBy(RowsOf(rows, t), le)
  {
    FilterKeepsOrder(rows, HasTicker(t), le);
  }

  /** A group of one ticker sorted by (ticker, date) is sorted by date. */
  lemma OneTickerDateSorted(g: seq<Row>, t: string)
    requires SortedBy(g, RowLe)
    requires forall r :: r in g ==> r.ticker == t
    ensures SortedBy(g, RowDateLe)
  {
    forall i, j | 0 <= i < j < |g|
      ensures RowDateLe(g[i], g[j])
    {
      assert g[i] in g && g[j] in g;
      assert RowLe(g[i], g[j]);
    }
  }

  /** On the normalised table a ticker's first row is its earliest and its
      last row its latest. */
  lemma NormalisedGroupEndpoints(rows: seq<Row>, t: string)
    requires Normalised(rows)
    requires t in Tickers(rows)
    ensures |RowsOf(rows, t)| > 0
    ensures forall r :: r in rows && r.ticker == t ==>
              DateLe(RowsOf(rows, t)[0].date, r.date) &&
              DateLe(r.date, RowsOf(rows, t)[|RowsOf(rows, t)| - 1].date)
  {
    RowsOfNonEmpty(rows, t);
    var g := RowsOf(rows, t);
    RowsOfKeepsOrder(rows, t, RowLe);
    OneTickerDateSorted(g, t);
    DateSortedEndpoints(g);
  }

  /** In a date-sorted sequence the first row is the earliest and the last
      row the latest. */
  lemma DateSortedEndpoints(g: seq<Row>)
    requires SortedBy(g, RowDateLe)
    requires |g| > 0
    ensures forall r :: r in g ==> DateLe(g[0].date, r.date) && DateLe(r.date, g[|g| - 1].date)
  {
    forall r | r in g
      ensures DateLe(g[0].date, r.date) && DateLe(r.date, g[|g| - 1].date)
    {
      var k :| 0 <= k < |g| && g[k] == r;
      assert k == 0 || RowDateLe(g[0], g[k]);
      assert k == |g| - 1 || RowDateLe(g[k], g[|g| - 1]);
    }
  }

  /** The `daily_return` column of a group, in order. */
  function ReturnColumn(g: seq<Row>): (rs: seq<Option<real>>)
    ensures |rs| == |g|
    ensures forall i :: 0 <= i < |g| ==> rs[i] == g[i].dailyReturn
  {
    seq(|g|, i requires 0 <= i < |g| => g[i].dailyReturn)
  }

  lemma ReturnColumnMembers(g: seq<Row>)
    ensures forall x :: x in ReturnColumn(g) <==> exists r :: r in g && r.dailyReturn == x
  {
    var rs := ReturnColumn(g);
    forall x
      ensures x in rs <==> exists r :: r in g && r.dailyReturn == x
    {
      if x in rs {
        var i :| 0 <= i < |rs| && rs[i] == x;
        assert g[i] in g;
      }
      if exists r :: r in g && r.dailyReturn == x {
        var r :| r in g && r.dailyReturn == x;
        var i :| 0 <= i < |g| && g[i] == r;
        assert rs[i] == x;
      }
    }
  }

  /** The selection mask `rows["daily_return"] == v` (NULL matching NULL). */
  function ReturnIs(v: Option<real>): Row -> bool {
    (r: Row) => r.dailyReturn == v
  }

  /** Each cell value occurs in the return column once per row carrying it. */
  lemma {:induction false} ReturnColumnCounts(g: seq<Row>)
    ensures forall v :: multiset(ReturnColumn(g))[v] == |Filter(g, ReturnIs(v))|
    decreases |g|
  {
    if |g| > 0 {
      var init, r := g[..|g| - 1], g[|g| - 1];
      assert ReturnColumn(g) == ReturnColumn(init) + [r.dailyReturn];
      ReturnColumnCounts(init);
    }
  }

  /** Reordering the rows reorders the return column: the same cells, each
      as often. */
  lemma ReturnColumnPermutation(g: seq<Row>, h: seq<Row>)
    requires multiset(g) == multiset(h)
    ensures multiset(ReturnColumn(g)) == multiset(ReturnColumn(h))
  {
    var f := (r: Row) => r.dailyReturn;
    assert IsImage(ReturnColumn(g), g, f);
    assert IsImage(ReturnColumn(h), h, f);
    ImagePermutation(g, h, ReturnColumn(g), ReturnColumn(h), f);
  }

  /** `g.sort_values("date")` applied to ticker `t`'s rows. */
  function DatedGroup(rows: seq<Row>, t: string): (g: seq<Row>)
    ensures SortedBy(g, RowDateLe)
    ensures multiset(g) == multiset(RowsOf(rows, t))
    ensures |g| == |RowsOf(rows, t)|
    ensures forall r :: r in g <==> r in rows && r.ticker == t
  {
    RowDateLeIsTotalPreorder();
    var g := Sort(RowsOf(rows, t), RowDateLe);
    assert forall r :: r in g <==> r in multiset(RowsOf(rows, t));
    g
  }

  // ---------------------------------------------------------------------
  // Groups partition the table

  /** The groups of `ts`, one after the other. */
  function Regroup(rows: seq<Row>, ts: seq<string>): seq<Row> {
    if |ts| == 0 then [] else Regroup(rows, ts[..|ts| - 1]) + RowsOf(rows, ts[|ts| - 1])
  }

  lemma {:induction false} RegroupAppend(rows: seq<Row>, x: Row, ts: seq<string>)
    requires NoDup(ts)
    ensures multiset(Regroup(rows + [x], ts)) ==
            multiset(Regroup(rows, ts)) + (if x.ticker in ts then multiset{x} else multiset{})
    decreases |ts|
  {
    if |ts| > 0 {
      var init := ts[..|ts| - 1];
      var u := ts[|ts| - 1];
      assert NoDup(init);
      assert x.ticker in ts <==> x.ticker in init || x.ticker == u;
      assert u !in init;
      RegroupAppend(rows, x, init);
      FilterAppend(rows, x, HasTicker(u));
    }
  }

  lemma {:induction false} RegroupCovers(rows: seq<Row>, ts: seq<string>)
    requires NoDup(ts)
    requires forall i :: 0 <= i < |rows| ==> rows[i].ticker in ts
    ensures multiset(Regroup(rows, ts)) == multiset(rows)
    decreases |rows|
  {
    if |rows| == 0 {
      RegroupEmpty(ts);
    } else {
      var init := rows[..|rows| - 1];
      var x := rows[|rows| - 1];
      assert rows == init + [x];
      RegroupCovers(init, ts);
      RegroupAppend(init, x, ts);
    }
  }

  lemma {:induction false} RegroupEmpty(ts: seq<string>)
    ensures Regroup([], ts) == []
    decreases |ts|
  {
    if |ts| > 0 {
      RegroupEmpty(ts[..|ts| - 1]);
    }
  }

  /** Grouping by ticker is a partition: the groups, taken together, hold
      every row of the table exactly once. */
  lemma GroupsPartition(rows: seq<Row>)
    ensures multiset(Regroup(rows, Tickers(rows))) == multiset(rows)
  {
    RegroupCovers(rows, Tickers(rows));
  }
}
