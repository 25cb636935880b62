/** Sequence helpers shared by the store queries: first match, filtering, distinctness, 1..n runs and SQL MAX. */
module Seqs {
  import opened Wrappers

  /** Position of the first element satisfying `p`: what `query.filter_by(...).first()` returns
      when a table is read in row order. */
  function FirstIndex<T>(xs: seq<T>, p: T -> bool): (r: Option<nat>)
    ensures r.Some? ==> r.value < |xs| && p(xs[r.value])
    ensures r.Some? ==> forall j :: 0 <= j < r.value ==> !p(xs[j])
    ensures r.None? <==> forall j :: 0 <= j < |xs| ==> !p(xs[j])
    decreases |xs|
  {
    if |xs| == 0 then None
    else if p(xs[0]) then Some(0)
    else
      match FirstIndex(xs[1..], p)
      case None => None
      case Some(k) => Some(k + 1)
  }

  /** A match found in a prefix is still found in the whole sequence. */
  lemma FirstIndexInPrefix<T>(xs: seq<T>, n: nat, p: T -> bool)
    requires n <= |xs| && FirstIndex(xs[..n], p).Some?
    ensures FirstIndex(xs, p).Some?
  {
    var k := FirstIndex(xs[..n], p).value;
    assert xs[..n][k] == xs[k];
  }

  /** The elements satisfying `p`, in order: a `WHERE` clause over a table read in row order.
      It peels the last element so that appending a row extends the result by at most that row. */
  function Filter<T>(xs: seq<T>, p: T -> bool): seq<T>
    decreases |xs|
  {
    if |xs| == 0 then []
    else
      var last := xs[|xs| - 1];
      Filter(xs[..|xs| - 1], p) + (if p(last) then [last] else [])
  }

  /** The filter keeps exactly the elements satisfying `p`. */
  lemma {:induction false} FilterMembers<T>(xs: seq<T>, p: T -> bool, x: T)
    ensures x in Filter(xs, p) <==> x in xs && p(x)
    decreases |xs|
  {
    if |xs| > 0 {
      var init := xs[..|xs| - 1];
      FilterMembers(init, p, x);
      assert xs == init + [xs[|xs| - 1]];
    }
  }

  /** One column of a table, row by row. */
  function Column<T, U>(xs: seq<T>, f: T -> U): seq<U>
  {
    seq(|xs|, i requires 0 <= i < |xs| => f(xs[i]))
  }

  predicate Distinct<T(==)>(xs: seq<T>)
  {
    forall i, j :: 0 <= i < j < |xs| ==> xs[i] != xs[j]
  }

  predicate StrictlyIncreasing(xs: seq<int>)
  {
    forall i, j :: 0 <= i < j < |xs| ==> xs[i] < xs[j]
  }

  /** The run 1, 2, ..., n. */
  function OneTo(n: nat): seq<int>
  {
    seq(n, i requires 0 <= i < n => i + 1)
  }

  lemma OneToSnoc(n: nat)
    ensures OneTo(n + 1) == OneTo(n) + [n + 1]
  {
    var a, b := OneTo(n + 1), OneTo(n) + [n + 1];
    forall i | 0 <= i < n + 1
      ensures a[i] == b[i]
    {
      if i < n {
        assert b[i] == OneTo(n)[i];
      }
    }
  }

  /** The SQL `MAX()` aggregate: NULL over no rows, otherwise the largest value. */
  function SqlMax(xs: seq<int>): (r: Option<int>)
    ensures r.None? <==> |xs| == 0
    ensures r.Some? ==> r.value in xs && forall i :: 0 <= i < |xs| ==> xs[i] <= r.value
    decreases |xs|
  {
    if |xs| == 0 then None
    else
      var last := xs[|xs| - 1];
      match SqlMax(xs[..|xs| - 1])
      case None => Some(last)
      case Some(m) => Some(if m < last then last else m)
  }

  /** The largest order of a run 1..n is n. */
  lemma {:induction false} SqlMaxOneTo(n: nat)
    requires n >= 1
    ensures SqlMax(OneTo(n)) == Some(n)
  {
    if n == 1 {
      assert OneTo(1) == [1];
    } else {
      OneToSnoc(n - 1);
      SqlMaxOneTo(n - 1);
      assert OneTo(n)[..|OneTo(n)| - 1] == OneTo(n - 1);
    }
  }
}
