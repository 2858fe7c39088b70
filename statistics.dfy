/** Sparse statistics: the per-feature histogram of stored feature ids and the largest
    number of entries held by one example, as CalculateSparseDatapointCounts computes them. */
module Statistics {
  import opened Common

  /** The reference histogram: entry x is the number of occurrences of feature id x. */
  function Histogram(index: seq<nat>, n: nat): (h: seq<nat>)
    ensures |h| == n
  {
    seq(n, x => multiset(index)[x])
  }

  function Sum(s: seq<nat>): nat
  {
    if s == [] then 0 else Sum(s[..|s| - 1]) + s[|s| - 1]
  }

  lemma {:induction false} SumBump(s: seq<nat>, x: nat)
    requires x < |s|
    ensures Sum(s[x := s[x] + 1]) == Sum(s) + 1
    decreases |s|
  {
    var t := s[x := s[x] + 1];
    assert t[..|t| - 1] == if x == |s| - 1 then s[..|s| - 1] else s[..|s| - 1][x := s[x] + 1];
    if x < |s| - 1 {
      SumBump(s[..|s| - 1], x);
    }
  }

  /** When every feature id lies below n, the histogram accounts for every stored entry
      exactly once: its counts add up to the number of entries. */
  lemma {:induction false} HistogramTotal(index: seq<nat>, n: nat)
    requires forall k :: 0 <= k < |index| ==> index[k] < n
    ensures Sum(Histogram(index, n)) == |index|
    decreases |index|
  {
    if index == [] {
      assert Histogram(index, n) == seq(n, x => 0);
      ZeroSum(n);
    } else {
      var init, x := index[..|index| - 1], index[|index| - 1];
      assert index == init + [x];
      HistogramTotal(init, n);
      assert Histogram(index, n) == Histogram(init, n)[x := Histogram(init, n)[x] + 1];
      SumBump(Histogram(init, n), x);
    }
  }

  lemma {:induction false} ZeroSum(n: nat)
    ensures Sum(seq(n, x => 0)) == 0
  {
    if n > 0 {
      assert seq(n, x => 0)[..n - 1] == seq(n - 1, x => 0);
      ZeroSum(n - 1);
    }
  }

  /** The counting loop: a histogram of n buckets, aborting on the first feature id that
      is not below width (the source checks against width, not n). */
  method CountFeatures(index: seq<nat>, width: nat, n: nat) returns (r: Outcome<seq<nat>>)
    requires width <= n
    ensures r.Ok? <==> forall k :: 0 <= k < |index| ==> index[k] < width
    ensures r.Err? ==> r.fault == FeatureOutOfRange
    ensures r.Ok? ==> r.value == Histogram(index, n)
  {
    var counts := seq(n, x => 0);
    var k := 0;
    while k < |index|
      invariant k <= |index| && |counts| == n
      invariant forall m :: 0 <= m < k ==> index[m] < width
      invariant forall x :: 0 <= x < n ==> counts[x] == multiset(index[..k])[x]
    {
      var x := index[k];
      if x >= width {
        return Err(FeatureOutOfRange);
      }
      assert index[..k + 1] == index[..k] + [x];
      counts := counts[x := counts[x] + 1];
      k := k + 1;
    }
    assert index[..k] == index;
    return Ok(counts);
  }

  /** The running maximum of end[i] - start[i] over the examples. */
  method MaxPerExample(start: seq<nat>, end: seq<nat>) returns (m: nat)
    requires |start| == |end| && forall i :: 0 <= i < |start| ==> start[i] <= end[i]
    ensures forall i :: 0 <= i < |start| ==> end[i] - start[i] <= m
    ensures |start| == 0 ==> m == 0
    ensures |start| > 0 ==> exists i :: 0 <= i < |start| && m == end[i] - start[i]
  {
    m := 0;
    var i := 0;
    while i < |start|
      invariant i <= |start|
      invariant forall j :: 0 <= j < i ==> end[j] - start[j] <= m
      invariant i == 0 ==> m == 0
      invariant i > 0 ==> exists j :: 0 <= j < i && m == end[j] - start[j]
    {
      var count := end[i] - start[i];
      if count > m {
        m := count;
      }
      i := i + 1;
    }
  }
}
