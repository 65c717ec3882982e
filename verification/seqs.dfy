/** Small sequence utilities shared by the analytics modules. */
module Seqs {
  import opened Sorting

  function Min(a: nat, b: nat): nat {
    if a <= b then a else b
  }

  /** No element occurs twice. */
  predicate NoDup<K(==)>(xs: seq<K>) {
    forall i, j :: 0 <= i < j < |xs| ==> xs[i] != xs[j]
  }

  /** The distinct elements of `xs`, each kept at its first occurrence
      (the key column of a group-by). */
  function Distinct<K(==, !new)>(xs: seq<K>): (r: seq<K>)
    ensures NoDup(r)
    ensures forall k :: k in r <==> k in xs
    ensures |r| <= |xs|
  {
    if |xs| == 0 then []
    else
      var d := Distinct(xs[..|xs| - 1]);
      var x := xs[|xs| - 1];
      assert forall k :: k in xs <==> k in xs[..|xs| - 1] || k == x;
      if x in d then d else d + [x]
  }

  /** The elements of `xs` satisfying `p`, in order (a boolean-mask
      selection); `FilterCounts` says which elements and how often. */
  function Filter<T(==, !new)>(xs: seq<T>, p: T -> bool): (r: seq<T>)
    ensures |r| <= |xs|
  {
    if |xs| == 0 then []
    else
      var init := xs[..|xs| - 1];
      var x := xs[|xs| - 1];
      assert xs == init + [x];
      var r := Filter(init, p);
      if p(x) then r + [x] else r
  }

  /** Each element a selection keeps occurs exactly as often as in `xs`,
      every other element not at all. */
  lemma {:induction false} FilterCounts<T(!new)>(xs: seq<T>, p: T -> bool)
    ensures forall x :: multiset(Filter(xs, p))[x] == if p(x) then multiset(xs)[x] else 0
    ensures forall x :: x in Filter(xs, p) <==> x in xs && p(x)
    decreases |xs|
  {
    var r := Filter(xs, p);
    if |xs| > 0 {
      var init, y := xs[..|xs| - 1], xs[|xs| - 1];
      assert multiset(xs) == multiset(init) + multiset{y} by {
        assert xs == init + [y];
      }
      FilterCounts(init, p);
    }
    forall x
      ensures x in r <==> x in xs && p(x)
    {
      assert x in r <==> multiset(r)[x] > 0;
      assert x in xs <==> multiset(xs)[x] > 0;
    }
  }

  lemma FilterAppend<T(!new)>(xs: seq<T>, x: T, p: T -> bool)
    ensures Filter(xs + [x], p) == Filter(xs, p) + (if p(x) then [x] else [])
  {
    assert (xs + [x])[..|xs + [x]| - 1] == xs;
  }

  lemma AppendAssoc<T>(a: seq<T>, b: seq<T>, c: seq<T>)
    ensures (a + b) + c == a + (b + c)
  {
  }

  /** Selecting from a concatenation selects from each part. */
  lemma {:induction false} FilterConcat<T(!new)>(xs: seq<T>, ys: seq<T>, p: T -> bool)
    ensures Filter(xs + ys, p) == Filter(xs, p) + Filter(ys, p)
    decreases |ys|
  {
    if |ys| == 0 {
      assert xs + ys == xs;
    } else {
      var init, y := ys[..|ys| - 1], ys[|ys| - 1];
      var last := if p(y) then [y] else [];
      assert Filter(xs + ys, p) == Filter(xs + init, p) + last by {
        assert xs + ys == (xs + init) + [y];
        FilterAppend(xs + init, y, p);
      }
      assert Filter(ys, p) == Filter(init, p) + last by {
        assert ys == init + [y];
        FilterAppend(init, y, p);
      }
      assert Filter(xs + init, p) == Filter(xs, p) + Filter(init, p) by {
        FilterConcat(xs, init, p);
      }
      assert (Filter(xs, p) + Filter(init, p)) + last == Filter(xs, p) + (Filter(init, p) + last) by {
        AppendAssoc(Filter(xs, p), Filter(init, p), last);
      }
    }
  }

  /** A selection every element passes keeps the whole sequence. */
  lemma {:induction false} FilterAll<T(!new)>(xs: seq<T>, p: T -> bool)
    requires forall i :: 0 <= i < |xs| ==> p(xs[i])
    ensures Filter(xs, p) == xs
    decreases |xs|
  {
    if |xs| > 0 {
      var init := xs[..|xs| - 1];
      assert xs == init + [xs[|xs| - 1]];
      FilterAll(init, p);
    }
  }

  /** A selection no element passes is empty. */
  lemma FilterNone<T(!new)>(xs: seq<T>, p: T -> bool)
    requires forall i :: 0 <= i < |xs| ==> !p(xs[i])
    ensures Filter(xs, p) == []
  {
    FilterCounts(xs, p);
    var r := Filter(xs, p);
    assert forall x :: x !in r;
  }

  /** A selection keeps any order the sequence was in. */
  lemma {:induction false} FilterKeepsOrder<T(!new)>(xs: seq<T>, p: T -> bool, le: (T, T) -> bool)
    requires SortedBy(xs, le)
    ensures SortedBy(Filter(xs, p), le)
    decreases |xs|
  {
    if |xs| > 0 {
      var init := xs[..|xs| - 1];
      var x := xs[|xs| - 1];
      assert xs == init + [x];
      FilterKeepsOrder(init, p, le);
      FilterCounts(init, p);
      var r := Filter(init, p);
      forall i | 0 <= i < |r|
        ensures le(r[i], x)
      {
        assert r[i] in init;
        var k :| 0 <= k < |init| && init[k] == r[i];
      }
    }
  }

  /** Two equal elements at distinct positions count twice. */
  lemma RepeatCountsTwice<T>(r: seq<T>, i: int, j: int)
    requires 0 <= i < j < |r|
    ensures r[i] == r[j] ==> multiset(r)[r[i]] >= 2
  {
    assert r == r[..j] + r[j..];
    assert r[..j][i] == r[i];
    assert r[j..][0] == r[j];
  }

  /** In a sequence without duplicates every element occurs once. */
  lemma OccursOnce<T>(d: seq<T>, a: int)
    requires 0 <= a < |d|
    requires NoDup(d)
    ensures multiset(d)[d[a]] == 1
  {
    assert d == d[..a] + [d[a]] + d[a + 1..];
    assert forall x :: 0 <= x < a ==> d[x] != d[a];
    assert forall x :: a < x < |d| ==> d[x] != d[a];
    assert d[a] !in d[..a];
    assert d[a] !in d[a + 1..];
  }

  /** A permutation of a sequence without duplicates has none. */
  lemma NoDupUnderPermutation<T>(a: seq<T>, b: seq<T>)
    requires multiset(a) == multiset(b)
    requires NoDup(b)
    ensures NoDup(a)
  {
    forall i, j | 0 <= i < j < |a|
      ensures a[i] != a[j]
    {
      assert a[i] in multiset(b);
      var k :| 0 <= k < |b| && b[k] == a[i];
      OccursOnce(b, k);
      RepeatCountsTwice(a, i, j);
    }
  }

  /** `fxs` is `f` applied to `xs` element by element. */
  predicate IsImage<A, B(==)>(fxs: seq<B>, xs: seq<A>, f: A -> B) {
    |fxs| == |xs| && forall i :: 0 <= i < |xs| ==> fxs[i] == f(xs[i])
  }

  /** Dropping position `i` from a sequence and from its image leaves an
      image, and removes one occurrence of each dropped element. */
  lemma ImageDropAt<A, B>(xs: seq<A>, fxs: seq<B>, f: A -> B, i: int)
    requires IsImage(fxs, xs, f)
    requires 0 <= i < |xs|
    ensures IsImage(fxs[..i] + fxs[i + 1..], xs[..i] + xs[i + 1..], f)
    ensures multiset(xs) == multiset(xs[..i] + xs[i + 1..]) + multiset{xs[i]}
    ensures multiset(fxs) == multiset(fxs[..i] + fxs[i + 1..]) + multiset{f(xs[i])}
  {
    var xs', fxs' := xs[..i] + xs[i + 1..], fxs[..i] + fxs[i + 1..];
    assert xs == xs[..i] + [xs[i]] + xs[i + 1..];
    assert fxs == fxs[..i] + [fxs[i]] + fxs[i + 1..];
    forall k | 0 <= k < |xs'|
      ensures fxs'[k] == f(xs'[k])
    {
      if k >= i {
        assert fxs'[k] == fxs[k + 1] && xs'[k] == xs[k + 1];
      }
    }
  }

  /** Dropping the last element of a sequence and of its image. */
  lemma ImageDropLast<A, B>(xs: seq<A>, fxs: seq<B>, f: A -> B)
    requires IsImage(fxs, xs, f)
    requires |xs| > 0
    ensures IsImage(fxs[..|xs| - 1], xs[..|xs| - 1], f)
    ensures multiset(xs) == multiset(xs[..|xs| - 1]) + multiset{xs[|xs| - 1]}
    ensures multiset(fxs) == multiset(fxs[..|xs| - 1]) + multiset{f(xs[|xs| - 1])}
  {
    assert xs == xs[..|xs| - 1] + [xs[|xs| - 1]];
    assert fxs == fxs[..|xs| - 1] + [fxs[|xs| - 1]];
  }

  /** Applying `f` element-wise to two permutations of each other yields
      two permutations of each other: a column taken from a reordered table
      holds the same values, each as often. */
  lemma {:induction false} ImagePermutation<A, B>(xs: seq<A>, ys: seq<A>, fxs: seq<B>, fys: seq<B>, f: A -> B)
    requires multiset(xs) == multiset(ys)
    requires IsImage(fxs, xs, f)
    requires IsImage(fys, ys, f)
    ensures multiset(fxs) == multiset(fys)
    decreases |xs|
  {
    if |xs| == 0 {
      assert |multiset(ys)| == 0;
    } else {
      var x := xs[|xs| - 1];
      ImageDropLast(xs, fxs, f);
      var xs0, fxs0 := xs[..|xs| - 1], fxs[..|xs| - 1];
      assert x in multiset(ys);
      var i :| 0 <= i < |ys| && ys[i] == x;
      ImageDropAt(ys, fys, f, i);
      var ys', fys' := ys[..i] + ys[i + 1..], fys[..i] + fys[i + 1..];
      assert multiset(xs0) == multiset(ys') by {
        assert multiset(xs0) == multiset(xs) - multiset{x};
        assert multiset(ys') == multiset(ys) - multiset{x};
      }
      ImagePermutation(xs0, ys', fxs0, fys', f);
    }
  }
}
