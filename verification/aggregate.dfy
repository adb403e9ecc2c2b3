/**
 * The SQL aggregates the daily summaries use: MAX, MIN, AVG over a group of
 * temperatures, and the modal value of a group of weather statuses
 * (GROUP BY Weather ORDER BY COUNT(*) DESC LIMIT 1).
 */
module Aggregate {

  /** Sum of a sequence of temperatures. */
  function Sum(s: seq<real>): real
  {
    if |s| == 0 then 0.0 else s[0] + Sum(s[1..])
  }

  /** MAX(...) over a non-empty group: an element that bounds every other. */
  function Max(s: seq<real>): (m: real)
    requires |s| > 0
    ensures m in s
    ensures forall x :: x in s ==> x <= m
  {
    if |s| == 1 then s[0]
    else
      var rest := Max(s[1..]);
      assert forall x :: x in s ==> x == s[0] || x in s[1..];
      if s[0] >= rest then s[0] else rest
  }

  /** MIN(...) over a non-empty group: an element bounded by every other. */
  function Min(s: seq<real>): (m: real)
    requires |s| > 0
    ensures m in s
    ensures forall x :: x in s ==> m <= x
  {
    if |s| == 1 then s[0]
    else
      var rest := Min(s[1..]);
      assert forall x :: x in s ==> x == s[0] || x in s[1..];
      if s[0] <= rest then s[0] else rest
  }

  /** AVG(...) over a non-empty group, computed exactly. */
  function Mean(s: seq<real>): (a: real)
    requires |s| > 0
    ensures a * (|s| as real) == Sum(s)
  {
    Sum(s) / (|s| as real)
  }

  /** Every element lies in [lo, hi], so the sum lies in [n * lo, n * hi]. */
  lemma {:induction false} SumBounds(s: seq<real>, lo: real, hi: real)
    requires forall i :: 0 <= i < |s| ==> lo <= s[i] <= hi
    ensures (|s| as real) * lo <= Sum(s) <= (|s| as real) * hi
  {
    if |s| > 0 {
      var rest := s[1..];
      assert forall i :: 0 <= i < |rest| ==> rest[i] == s[i + 1];
      SumBounds(rest, lo, hi);
      AddOneBound((|s| - 1) as real, s[0], Sum(rest), lo, hi);
      assert |s| as real == (|s| - 1) as real + 1.0;
    }
  }

  /** The average of a non-empty group lies between its minimum and maximum. */
  lemma MeanBetween(s: seq<real>)
    requires |s| > 0
    ensures Min(s) <= Mean(s) <= Max(s)
  {
    var lo, hi := Min(s), Max(s);
    assert forall i :: 0 <= i < |s| ==> s[i] in s;
    SumBounds(s, lo, hi);
    MeanWithin(s, lo, hi);
  }

  /** A sum in [n * lo, n * hi] gives an average in [lo, hi]. */
  lemma MeanWithin(s: seq<real>, lo: real, hi: real)
    requires |s| > 0
    requires (|s| as real) * lo <= Sum(s) <= (|s| as real) * hi
    ensures lo <= Mean(s) <= hi
  {
    QuotientBetween(Sum(s), |s| as real, lo, hi);
  }

  /** Dividing a quantity in [n * lo, n * hi] by a positive n lands in [lo, hi]. */
  lemma QuotientBetween(sum: real, n: real, lo: real, hi: real)
    requires n > 0.0 && n * lo <= sum <= n * hi
    ensures lo <= sum / n <= hi
  {
  }

  /** One more element in [lo, hi] moves the sum bounds of n elements to those of n + 1. */
  lemma AddOneBound(n: real, x: real, rest: real, lo: real, hi: real)
    requires lo <= x <= hi && n * lo <= rest <= n * hi
    ensures (n + 1.0) * lo <= x + rest <= (n + 1.0) * hi
  {
    assert (n + 1.0) * lo == n * lo + lo;
    assert (n + 1.0) * hi == n * hi + hi;
  }

  /**
   * The modal status among st[..n], scanning in storage order: a later status
   * replaces the current choice only when its count over the whole of st is
   * strictly larger, so the first status to reach the maximal count wins.
   */
  function ModeAmong(st: seq<string>, n: nat): (r: string)
    requires 0 < n <= |st|
    ensures r in st[..n]
    ensures forall k :: 0 <= k < n ==> multiset(st)[st[k]] <= multiset(st)[r]
  {
    if n == 1 then st[0]
    else
      var best := ModeAmong(st, n - 1);
      assert st[..n] == st[..n - 1] + [st[n - 1]];
      if multiset(st)[st[n - 1]] > multiset(st)[best] then st[n - 1] else best
  }

  /** The most frequent status of a non-empty group. */
  function Mode(st: seq<string>): (r: string)
    requires |st| > 0
    ensures r in st
    ensures forall x :: x in st ==> multiset(st)[x] <= multiset(st)[r]
  {
    var r := ModeAmong(st, |st|);
    assert st[..|st|] == st;
    assert forall x :: x in st ==> exists k :: 0 <= k < |st| && st[k] == x;
    r
  }
}
