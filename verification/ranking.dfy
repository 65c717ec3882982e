/** Ranked tables: `sort_values`, `head(n)`, `nlargest(n)` and
    `nsmallest(n)` over (name, metric) pairs. An undefined metric (NaN)
    sorts after every defined one in either direction, as pandas places
    NaN last. The order among equal metrics is not promised. */
module Ranking {
  import opened Wrappers
  import opened Seqs
  import opened Sorting

  /** One line of a ranked table: a ticker or sector and its metric. */
  datatype Entry = Entry(name: string, value: Option<real>)

  /** `a` may be listed before `b` in a table sorted descending (`desc`)
      or ascending by metric. */
  predicate Ranks(a: Option<real>, b: Option<real>, desc: bool) {
    if b.None? then true
    else if a.None? then false
    else if desc then a.value >= b.value
    else a.value <= b.value
  }

  function RankOrder(desc: bool): (Entry, Entry) -> bool {
    (a: Entry, b: Entry) => Ranks(a.value, b.value, desc)
  }

  lemma RankOrderIsTotalPreorder(desc: bool)
    ensures TotalPreorder(RankOrder(desc))
  {
  }

  /** The names of a table, in order. */
  function Names(xs: seq<Entry>): (ls: seq<string>)
    ensures |ls| == |xs|
    ensures forall i :: 0 <= i < |xs| ==> ls[i] == xs[i].name
  {
    seq(|xs|, i requires 0 <= i < |xs| => xs[i].name)
  }

  /** Appending an entry under a new name keeps the names distinct. */
  lemma AppendFreshName(es: seq<Entry>, e: Entry)
    requires NoDup(Names(es))
    requires forall x :: x in es ==> x.name != e.name
    ensures NoDup(Names(es + [e]))
  {
    var ns := Names(es + [e]);
    forall i, j | 0 <= i < j < |ns|
      ensures ns[i] != ns[j]
    {
      assert (es + [e])[i] == es[i];
      if j == |es| {
        assert es[i] in es;
      } else {
        assert (es + [e])[j] == es[j];
      }
    }
  }

  /** `sort_values(ascending = !desc)`: the same entries, ordered by metric. */
  function Ranked(xs: seq<Entry>, desc: bool): (r: seq<Entry>)
    ensures SortedBy(r, RankOrder(desc))
    ensures multiset(r) == multiset(xs)
    ensures |r| == |xs|
  {
    RankOrderIsTotalPreorder(desc);
    Sort(xs, RankOrder(desc))
  }

  /** The first `n` entries of the ranked table: `min(n, |xs|)` entries drawn
      from `xs`, in rank order, and none of the entries left out ranks
      above any entry kept. */
  function Top(xs: seq<Entry>, n: nat, desc: bool): (r: seq<Entry>)
    ensures |r| == Min(n, |xs|)
    ensures multiset(r) <= multiset(xs)
    ensures SortedBy(r, RankOrder(desc))
    ensures forall i, x :: 0 <= i < |r| && x in multiset(xs) - multiset(r) ==>
              Ranks(r[i].value, x.value, desc)
  {
    var s := Ranked(xs, desc);
    var k := Min(n, |xs|);
    PrefixOfRanked(xs, s, k, desc);
    s[..k]
  }

  /** A prefix of a ranked permutation of `xs` is a selection of `xs` that
      nothing left out outranks. */
  lemma PrefixOfRanked(xs: seq<Entry>, s: seq<Entry>, k: nat, desc: bool)
    requires SortedBy(s, RankOrder(desc))
    requires multiset(s) == multiset(xs)
    requires k <= |s|
    ensures multiset(s[..k]) <= multiset(xs)
    ensures SortedBy(s[..k], RankOrder(desc))
    ensures forall i, x :: 0 <= i < k && x in multiset(xs) - multiset(s[..k]) ==>
              Ranks(s[i].value, x.value, desc)
  {
    var le := RankOrder(desc);
    assert SortedBy(s[..k], le) by {
      PrefixSorted(s, k, le);
    }
    assert multiset(xs) - multiset(s[..k]) == multiset(s[k..]) &&
           multiset(s[..k]) <= multiset(xs) by {
      SortedPrefixDominates(s, k, le);
    }
    forall i, x | 0 <= i < k && x in multiset(xs) - multiset(s[..k])
      ensures Ranks(s[i].value, x.value, desc)
    {
      SortedPrefixDominates(s, k, le);
      assert le(s[i], x);
    }
  }
}
