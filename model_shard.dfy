/** Model (column) sharding: worker i of P owns the feature ids
    [width*i/P, width*(i+1)/P). A sparse example keeps, in order, the entries whose feature
    id lies in the slice, re-based to start at 0; a dense example keeps its slice of columns. */
module ModelShard {
  import opened Arith
  import opened Layout

  /** The lower bound of worker i's slice (_minX); the upper bound is SliceBound(width, i + 1, workers). */
  function SliceBound(width: nat, i: nat, workers: nat): nat
    requires workers > 0
  {
    width * i / workers
  }

  predicate InSlice(width: nat, workers: nat, i: nat, x: nat)
    requires workers > 0
  {
    SliceBound(width, i, workers) <= x < SliceBound(width, i + 1, workers)
  }

  /** The bounds never decrease. */
  lemma SliceBoundMonotone(width: nat, workers: nat, i: nat, j: nat)
    requires workers > 0 && i <= j
    ensures SliceBound(width, i, workers) <= SliceBound(width, j, workers)
  {
    MulMonotone(width, i, j);
    DivMonotone(width * i, width * j, workers);
  }

  /** The first slice starts at 0 and the last one ends at width. */
  lemma SliceBoundEnds(width: nat, workers: nat)
    requires workers > 0
    ensures SliceBound(width, 0, workers) == 0
    ensures SliceBound(width, workers, workers) == width
  {
    MulDivCancel(width, workers);
  }

  lemma SliceBoundBelowWidth(width: nat, workers: nat, i: nat)
    requires workers > 0 && i <= workers
    ensures SliceBound(width, i, workers) <= width
  {
    SliceBoundMonotone(width, workers, i, workers);
    SliceBoundEnds(width, workers);
  }

  /** All P + 1 slice bounds, in worker order. */
  function Bounds(width: nat, workers: nat): (b: seq<nat>)
    requires workers > 0
    ensures |b| == workers + 1
  {
    seq(workers + 1, i requires 0 <= i <= workers => SliceBound(width, i, workers))
  }

  predicate Ascending(b: seq<nat>)
  {
    forall i, j :: 0 <= i <= j < |b| ==> b[i] <= b[j]
  }

  lemma BoundsAscending(width: nat, workers: nat)
    requires workers > 0
    ensures Ascending(Bounds(width, workers))
    ensures Bounds(width, workers)[0] == 0 && Bounds(width, workers)[workers] == width
  {
    var b := Bounds(width, workers);
    forall i, j | 0 <= i <= j < |b| ensures b[i] <= b[j] {
      SliceBoundMonotone(width, workers, i, j);
    }
    SliceBoundEnds(width, workers);
  }

  /** In an ascending list of bounds, a value between bound i and the last bound lies in
      some interval [b[k], b[k+1]) with k >= i. */
  lemma {:induction false} OwnerFrom(b: seq<nat>, x: nat, i: nat)
    requires Ascending(b) && i < |b| && b[i] <= x < b[|b| - 1]
    ensures exists k :: i <= k < |b| - 1 && b[k] <= x < b[k + 1]
    decreases |b| - i
  {
    if x >= b[i + 1] {
      OwnerFrom(b, x, i + 1);
    } else {
      assert b[i] <= x < b[i + 1];
    }
  }

  lemma OwnerUnique(b: seq<nat>, x: nat, i: nat, j: nat)
    requires Ascending(b) && i + 1 < |b| && j + 1 < |b|
    requires b[i] <= x < b[i + 1] && b[j] <= x < b[j + 1]
    ensures i == j
  {
  }

  /** The slices are contiguous and partition [0, width): every feature id below width is
      owned by exactly one worker. */
  lemma SlicesPartition(width: nat, workers: nat, x: nat)
    requires workers > 0 && x < width
    ensures exists i :: 0 <= i < workers && InSlice(width, workers, i, x)
    ensures forall i, j :: 0 <= i < workers && 0 <= j < workers && InSlice(width, workers, i, x) && InSlice(width, workers, j, x) ==> i == j
  {
    var b := Bounds(width, workers);
    BoundsAscending(width, workers);
    OwnerFrom(b, x, 0);
    var k :| 0 <= k < workers && b[k] <= x < b[k + 1];
    assert InSlice(width, workers, k, x);
    forall i, j | 0 <= i < workers && 0 <= j < workers && InSlice(width, workers, i, x) && InSlice(width, workers, j, x)
      ensures i == j
    {
      OwnerUnique(b, x, i, j);
    }
  }

  // ---------------------------------------------------------------- sparse shards

  predicate InRange(v: nat, lo: nat, hi: nat) { lo <= v < hi }

  /** The entries of one example that worker [lo, hi) keeps, in order, re-based by lo. */
  function Rebase(seg: seq<nat>, lo: nat, hi: nat): (r: seq<nat>)
    ensures |r| <= |seg|
    ensures forall k :: 0 <= k < |r| ==> r[k] < hi - lo
  {
    if seg == [] then []
    else Rebase(seg[..|seg| - 1], lo, hi) + (if InRange(seg[|seg| - 1], lo, hi) then [seg[|seg| - 1] - lo] else [])
  }

  /** The values that travel with the kept entries. */
  function Select<T>(seg: seq<nat>, vals: seq<T>, lo: nat, hi: nat): (r: seq<T>)
    requires |vals| == |seg|
    ensures |r| == |Rebase(seg, lo, hi)|
  {
    if seg == [] then []
    else Select(seg[..|seg| - 1], vals[..|vals| - 1], lo, hi) + (if InRange(seg[|seg| - 1], lo, hi) then [vals[|vals| - 1]] else [])
  }

  /** The positions, within the example, of the kept entries. */
  function Positions(seg: seq<nat>, lo: nat, hi: nat): (r: seq<nat>)
    ensures |r| == |Rebase(seg, lo, hi)|
    ensures forall k :: 0 <= k < |r| ==> r[k] < |seg|
    ensures forall k, k' :: 0 <= k < k' < |r| ==> r[k] < r[k']
  {
    if seg == [] then []
    else Positions(seg[..|seg| - 1], lo, hi) + (if InRange(seg[|seg| - 1], lo, hi) then [|seg| - 1] else [])
  }

  /** The kept list is exactly the in-range entries of the example, in their original
      order, shifted down by lo, and the values are taken at the same positions; no
      in-range entry is dropped. */
  lemma RebaseIsOrderedFilter<T>(seg: seq<nat>, vals: seq<T>, lo: nat, hi: nat)
    requires |vals| == |seg|
    ensures forall k :: 0 <= k < |Positions(seg, lo, hi)| ==>
              InRange(seg[Positions(seg, lo, hi)[k]], lo, hi) && Rebase(seg, lo, hi)[k] + lo == seg[Positions(seg, lo, hi)[k]]
    ensures forall k :: 0 <= k < |Positions(seg, lo, hi)| ==> Select(seg, vals, lo, hi)[k] == vals[Positions(seg, lo, hi)[k]]
    ensures forall q :: 0 <= q < |seg| && InRange(seg[q], lo, hi) ==> q in Positions(seg, lo, hi)
  {
    KeptAtPositions(seg, lo, hi);
    SelectedAtPositions(seg, vals, lo, hi);
    PositionsComplete(seg, lo, hi);
  }

  lemma {:induction false} KeptAtPositions(seg: seq<nat>, lo: nat, hi: nat)
    ensures forall k :: 0 <= k < |Positions(seg, lo, hi)| ==>
              InRange(seg[Positions(seg, lo, hi)[k]], lo, hi) && Rebase(seg, lo, hi)[k] + lo == seg[Positions(seg, lo, hi)[k]]
  {
    if seg != [] {
      var init := seg[..|seg| - 1];
      KeptAtPositions(init, lo, hi);
      var p0, p := Positions(init, lo, hi), Positions(seg, lo, hi);
      var r0, r := Rebase(init, lo, hi), Rebase(seg, lo, hi);
      forall k | 0 <= k < |p|
        ensures InRange(seg[p[k]], lo, hi) && r[k] + lo == seg[p[k]]
      {
        if k < |p0| {
          assert p[k] == p0[k] && r[k] == r0[k];
          assert seg[p[k]] == init[p0[k]];
        }
      }
    }
  }

  lemma {:induction false} SelectedAtPositions<T>(seg: seq<nat>, vals: seq<T>, lo: nat, hi: nat)
    requires |vals| == |seg|
    ensures forall k :: 0 <= k < |Positions(seg, lo, hi)| ==> Select(seg, vals, lo, hi)[k] == vals[Positions(seg, lo, hi)[k]]
  {
    if seg != [] {
      var init, ivals := seg[..|seg| - 1], vals[..|vals| - 1];
      SelectedAtPositions(init, ivals, lo, hi);
      var p0, p := Positions(init, lo, hi), Positions(seg, lo, hi);
      var v0, v := Select(init, ivals, lo, hi), Select(seg, vals, lo, hi);
      forall k | 0 <= k < |p|
        ensures v[k] == vals[p[k]]
      {
        if k < |p0| {
          assert p[k] == p0[k] && v[k] == v0[k];
          assert vals[p[k]] == ivals[p0[k]];
        }
      }
    }
  }

  lemma {:induction false} PositionsComplete(seg: seq<nat>, lo: nat, hi: nat)
    ensures forall q :: 0 <= q < |seg| && InRange(seg[q], lo, hi) ==> q in Positions(seg, lo, hi)
  {
    if seg != [] {
      var init := seg[..|seg| - 1];
      PositionsComplete(init, lo, hi);
      var p0, p := Positions(init, lo, hi), Positions(seg, lo, hi);
      var last := |seg| - 1;
      assert p == p0 + (if InRange(seg[last], lo, hi) then [last] else []);
      forall q | 0 <= q < |seg| && InRange(seg[q], lo, hi) ensures q in p {
        if q < last {
          assert seg[q] == init[q];
          assert q in p0;
        }
      }
    }
  }

  /** Worker 0's lower bound is 0, so the local shard the coordinator builds for itself
      without subtracting _minX is the same as the re-based kept list. */
  lemma {:induction false} CoordinatorNeedsNoRebase(seg: seq<nat>, width: nat, workers: nat)
    requires workers > 0
    ensures SliceBound(width, 0, workers) == 0
    ensures Rebase(seg, 0, SliceBound(width, 1, workers)) == Filter(seg, 0, SliceBound(width, 1, workers))
  {
    SliceBoundEnds(width, workers);
    RebaseFromZero(seg, SliceBound(width, 1, workers));
  }

  lemma {:induction false} RebaseFromZero(seg: seq<nat>, hi: nat)
    ensures Rebase(seg, 0, hi) == Filter(seg, 0, hi)
  {
    if seg != [] {
      RebaseFromZero(seg[..|seg| - 1], hi);
    }
  }

  /** The entries of one example in [lo, hi), without re-basing. */
  function Filter(seg: seq<nat>, lo: nat, hi: nat): seq<nat>
  {
    if seg == [] then []
    else Filter(seg[..|seg| - 1], lo, hi) + (if InRange(seg[|seg| - 1], lo, hi) then [seg[|seg| - 1]] else [])
  }

  function Shift(s: seq<nat>, lo: nat): (r: seq<nat>)
    ensures |r| == |s|
  {
    seq(|s|, k requires 0 <= k < |s| => s[k] + lo)
  }

  /** Adding the slice origin back undoes the re-basing. */
  lemma {:induction false} ShiftUndoesRebase(seg: seq<nat>, lo: nat, hi: nat)
    ensures Shift(Rebase(seg, lo, hi), lo) == Filter(seg, lo, hi)
  {
    if seg != [] {
      ShiftUndoesRebase(seg[..|seg| - 1], lo, hi);
    }
  }

  lemma {:induction false} FilterSplit(seg: seq<nat>, a: nat, b: nat, c: nat)
    requires a <= b <= c
    ensures multiset(Filter(seg, a, c)) == multiset(Filter(seg, a, b)) + multiset(Filter(seg, b, c))
  {
    if seg != [] {
      FilterSplit(seg[..|seg| - 1], a, b, c);
    }
  }

  lemma {:induction false} FilterKeepsAll(seg: seq<nat>, width: nat)
    requires forall k :: 0 <= k < |seg| ==> seg[k] < width
    ensures Filter(seg, 0, width) == seg
  {
    if seg != [] {
      FilterKeepsAll(seg[..|seg| - 1], width);
    }
  }

  /** What workers 0 .. m-1 hold of one example, shifted back to global feature ids. */
  function Gathered(seg: seq<nat>, width: nat, workers: nat, m: nat): multiset<nat>
    requires workers > 0
  {
    if m == 0 then multiset{}
    else Gathered(seg, width, workers, m - 1)
         + multiset(Shift(Rebase(seg, SliceBound(width, m - 1, workers), SliceBound(width, m, workers)),
                          SliceBound(width, m - 1, workers)))
  }

  lemma {:induction false} GatheredPrefix(seg: seq<nat>, width: nat, workers: nat, m: nat)
    requires workers > 0
    ensures Gathered(seg, width, workers, m) == multiset(Filter(seg, 0, SliceBound(width, m, workers)))
  {
    SliceBoundEnds(width, workers);
    if m == 0 {
      FilterEmpty(seg);
    } else {
      GatheredPrefix(seg, width, workers, m - 1);
      var lo, hi := SliceBound(width, m - 1, workers), SliceBound(width, m, workers);
      SliceBoundMonotone(width, workers, m - 1, m);
      ShiftUndoesRebase(seg, lo, hi);
      FilterSplit(seg, 0, lo, hi);
    }
  }

  lemma {:induction false} FilterEmpty(seg: seq<nat>)
    ensures Filter(seg, 0, 0) == []
  {
    if seg != [] {
      FilterEmpty(seg[..|seg| - 1]);
    }
  }

  /** Re-adding each worker's slice origin and merging the shards of all P workers gives
      back exactly the entries of the example (as a multiset, since each shard is
      contiguous by worker), provided every feature id is below width. This is what
      UnShard must reassemble. */
  lemma ShardsReassemble(seg: seq<nat>, width: nat, workers: nat)
    requires workers > 0
    requires forall k :: 0 <= k < |seg| ==> seg[k] < width
    ensures Gathered(seg, width, workers, workers) == multiset(seg)
  {
    GatheredPrefix(seg, width, workers, workers);
    SliceBoundEnds(width, workers);
    FilterKeepsAll(seg, width);
  }

  /** The local index array of a sparse model shard: the kept lists of examples 0 .. m-1, one after another. */
  function ShardIndex(start: seq<nat>, end: seq<nat>, index: seq<nat>, lo: nat, hi: nat, m: nat): seq<nat>
    requires CSR(start, end, |index|) && m <= |start|
  {
    if m == 0 then []
    else ShardIndex(start, end, index, lo, hi, m - 1) + Rebase(index[start[m - 1]..end[m - 1]], lo, hi)
  }

  /** The matching local value array. */
  function ShardValues<T>(start: seq<nat>, end: seq<nat>, index: seq<nat>, values: seq<T>, lo: nat, hi: nat, m: nat): seq<T>
    requires CSR(start, end, |index|) && |values| == |index| && m <= |start|
  {
    if m == 0 then []
    else ShardValues(start, end, index, values, lo, hi, m - 1)
         + Select(index[start[m - 1]..end[m - 1]], values[start[m - 1]..end[m - 1]], lo, hi)
  }

  lemma {:induction false} ShardValuesParallel<T>(start: seq<nat>, end: seq<nat>, index: seq<nat>, values: seq<T>, lo: nat, hi: nat, m: nat)
    requires CSR(start, end, |index|) && |values| == |index| && m <= |start|
    ensures |ShardValues(start, end, index, values, lo, hi, m)| == |ShardIndex(start, end, index, lo, hi, m)|
  {
    if m > 0 {
      ShardValuesParallel(start, end, index, values, lo, hi, m - 1);
    }
  }

  lemma {:induction false} ShardIndexPrefix(start: seq<nat>, end: seq<nat>, index: seq<nat>, lo: nat, hi: nat, j: nat, m: nat)
    requires CSR(start, end, |index|) && j <= m <= |start|
    ensures |ShardIndex(start, end, index, lo, hi, j)| <= |ShardIndex(start, end, index, lo, hi, m)|
    ensures ShardIndex(start, end, index, lo, hi, m)[..|ShardIndex(start, end, index, lo, hi, j)|]
            == ShardIndex(start, end, index, lo, hi, j)
    decreases m - j
  {
    if j < m {
      ShardIndexPrefix(start, end, index, lo, hi, j, m - 1);
      var a := ShardIndex(start, end, index, lo, hi, m - 1);
      var b := ShardIndex(start, end, index, lo, hi, m);
      assert b[..|a|] == a;
    }
  }

  /** In the local layout, example j's entries sit between its local start and end
      offsets and are exactly its kept list; every local feature id is below hi - lo. */
  lemma ShardExample(start: seq<nat>, end: seq<nat>, index: seq<nat>, lo: nat, hi: nat, j: nat)
    requires CSR(start, end, |index|) && j < |start|
    ensures var all := ShardIndex(start, end, index, lo, hi, |start|);
            var a, b := |ShardIndex(start, end, index, lo, hi, j)|, |ShardIndex(start, end, index, lo, hi, j + 1)|;
            a <= b <= |all| && all[a..b] == Rebase(index[start[j]..end[j]], lo, hi)
  {
    ShardIndexPrefix(start, end, index, lo, hi, j + 1, |start|);
    var all := ShardIndex(start, end, index, lo, hi, |start|);
    var pre := ShardIndex(start, end, index, lo, hi, j + 1);
    var a := |ShardIndex(start, end, index, lo, hi, j)|;
    assert all[a..|pre|] == pre[a..];
  }

  lemma {:induction false} ShardIndicesInSlice(start: seq<nat>, end: seq<nat>, index: seq<nat>, lo: nat, hi: nat, m: nat)
    requires CSR(start, end, |index|) && m <= |start|
    ensures forall k :: 0 <= k < |ShardIndex(start, end, index, lo, hi, m)| ==> ShardIndex(start, end, index, lo, hi, m)[k] < hi - lo
  {
    if m > 0 {
      ShardIndicesInSlice(start, end, index, lo, hi, m - 1);
    }
  }

  /** The local start offset of each of examples 0 .. m-1 in the shard. */
  function LocalStarts(start: seq<nat>, end: seq<nat>, index: seq<nat>, lo: nat, hi: nat, m: nat): (r: seq<nat>)
    requires CSR(start, end, |index|) && m <= |start|
    ensures |r| == m
  {
    if m == 0 then [] else LocalStarts(start, end, index, lo, hi, m - 1) + [|ShardIndex(start, end, index, lo, hi, m - 1)|]
  }

  /** The local end offset of each of examples 0 .. m-1 in the shard. */
  function LocalEnds(start: seq<nat>, end: seq<nat>, index: seq<nat>, lo: nat, hi: nat, m: nat): (r: seq<nat>)
    requires CSR(start, end, |index|) && m <= |start|
    ensures |r| == m
  {
    if m == 0 then [] else LocalEnds(start, end, index, lo, hi, m - 1) + [|ShardIndex(start, end, index, lo, hi, m)|]
  }

  /** Example j of the shard runs from the length of the shard of examples before it to
      the length of the shard of examples up to and including it. */
  lemma {:induction false} LocalOffsets(start: seq<nat>, end: seq<nat>, index: seq<nat>, lo: nat, hi: nat, m: nat, j: nat)
    requires CSR(start, end, |index|) && j < m <= |start|
    ensures LocalStarts(start, end, index, lo, hi, m)[j] == |ShardIndex(start, end, index, lo, hi, j)|
    ensures LocalEnds(start, end, index, lo, hi, m)[j] == |ShardIndex(start, end, index, lo, hi, j + 1)|
  {
    var ls, le := LocalStarts(start, end, index, lo, hi, m - 1), LocalEnds(start, end, index, lo, hi, m - 1);
    assert LocalStarts(start, end, index, lo, hi, m) == ls + [|ShardIndex(start, end, index, lo, hi, m - 1)|];
    assert LocalEnds(start, end, index, lo, hi, m) == le + [|ShardIndex(start, end, index, lo, hi, m)|];
    if j < m - 1 {
      LocalOffsets(start, end, index, lo, hi, m - 1, j);
    }
  }

  /** The local offsets are a CSR layout over the local index array: example j starts
      where example j - 1 ends (at 0 for the first), and holds exactly its kept entries. */
  lemma ShardLayout(start: seq<nat>, end: seq<nat>, index: seq<nat>, lo: nat, hi: nat)
    requires CSR(start, end, |index|)
    ensures CSR(LocalStarts(start, end, index, lo, hi, |start|), LocalEnds(start, end, index, lo, hi, |start|),
                |ShardIndex(start, end, index, lo, hi, |start|)|)
    ensures |start| > 0 ==> LocalStarts(start, end, index, lo, hi, |start|)[0] == 0
    ensures forall j :: 0 < j < |start| ==>
              LocalStarts(start, end, index, lo, hi, |start|)[j] == LocalEnds(start, end, index, lo, hi, |start|)[j - 1]
    ensures forall j :: 0 <= j < |start| ==>
              LocalEnds(start, end, index, lo, hi, |start|)[j] - LocalStarts(start, end, index, lo, hi, |start|)[j]
              == |Rebase(index[start[j]..end[j]], lo, hi)|
  {
    var m := |start|;
    var ls, le := LocalStarts(start, end, index, lo, hi, m), LocalEnds(start, end, index, lo, hi, m);
    var n := |ShardIndex(start, end, index, lo, hi, m)|;
    forall j | 0 <= j < m
      ensures ls[j] <= le[j] <= n && le[j] - ls[j] == |Rebase(index[start[j]..end[j]], lo, hi)|
    {
      ShardEntry(start, end, index, lo, hi, j);
    }
    forall j | 0 < j < m
      ensures ls[j] == le[j - 1]
    {
      LocalOffsets(start, end, index, lo, hi, m, j - 1);
      LocalOffsets(start, end, index, lo, hi, m, j);
    }
    if m > 0 {
      LocalOffsets(start, end, index, lo, hi, m, 0);
    }
  }

  /** The local offsets and arrays of a sparse model shard are well formed: a CSR layout
      over the local index array, with a value per entry. */
  lemma ShardWellFormed<T>(start: seq<nat>, end: seq<nat>, index: seq<nat>, values: seq<T>, lo: nat, hi: nat)
    requires CSR(start, end, |index|) && |values| == |index|
    ensures CSR(LocalStarts(start, end, index, lo, hi, |start|), LocalEnds(start, end, index, lo, hi, |start|),
                |ShardIndex(start, end, index, lo, hi, |start|)|)
    ensures |ShardValues(start, end, index, values, lo, hi, |start|)| == |ShardIndex(start, end, index, lo, hi, |start|)|
  {
    ShardLayout(start, end, index, lo, hi);
    ShardValuesParallel(start, end, index, values, lo, hi, |start|);
  }

  lemma ShardEntry(start: seq<nat>, end: seq<nat>, index: seq<nat>, lo: nat, hi: nat, j: nat)
    requires CSR(start, end, |index|) && j < |start|
    ensures var ls, le := LocalStarts(start, end, index, lo, hi, |start|), LocalEnds(start, end, index, lo, hi, |start|);
            ls[j] <= le[j] <= |ShardIndex(start, end, index, lo, hi, |start|)|
            && le[j] - ls[j] == |Rebase(index[start[j]..end[j]], lo, hi)|
  {
    var m := |start|;
    LocalOffsets(start, end, index, lo, hi, m, j);
    ShardIndexPrefix(start, end, index, lo, hi, j + 1, m);
    var before, upTo := ShardIndex(start, end, index, lo, hi, j), ShardIndex(start, end, index, lo, hi, j + 1);
    var kept := Rebase(index[start[j]..end[j]], lo, hi);
    assert upTo == before + kept;
  }

  lemma RebaseSnoc(seg: seq<nat>, x: nat, lo: nat, hi: nat)
    ensures Rebase(seg + [x], lo, hi) == Rebase(seg, lo, hi) + (if InRange(x, lo, hi) then [x - lo] else [])
  {
    assert (seg + [x])[..|seg|] == seg;
  }

  lemma SelectSnoc<T>(seg: seq<nat>, vals: seq<T>, x: nat, v: T, lo: nat, hi: nat)
    requires |vals| == |seg|
    ensures Select(seg + [x], vals + [v], lo, hi) == Select(seg, vals, lo, hi) + (if InRange(x, lo, hi) then [v] else [])
  {
    assert (seg + [x])[..|seg|] == seg;
    assert (vals + [v])[..|vals|] == vals;
  }

  /** Entry k extends the kept entries of [s, k) by itself, re-based, when it is in [lo, hi). */
  lemma KeepStep<T>(index: seq<nat>, values: seq<T>, boolean: bool, s: nat, k: nat, lo: nat, hi: nat)
    requires s <= k < |index| && (!boolean ==> |values| == |index|)
    ensures Rebase(index[s..k + 1], lo, hi)
            == Rebase(index[s..k], lo, hi) + (if InRange(index[k], lo, hi) then [index[k] - lo] else [])
    ensures !boolean ==> Select(index[s..k + 1], values[s..k + 1], lo, hi)
                         == Select(index[s..k], values[s..k], lo, hi) + (if InRange(index[k], lo, hi) then [values[k]] else [])
  {
    assert index[s..k + 1] == index[s..k] + [index[k]];
    RebaseSnoc(index[s..k], index[k], lo, hi);
    if !boolean {
      assert values[s..k + 1] == values[s..k] + [values[k]];
      SelectSnoc(index[s..k], values[s..k], index[k], values[k], lo, hi);
    }
  }

  /** The inner loop of the sparse model shard over one example's entries [s, e): push
      every entry in [lo, hi), re-based, and unless the data is Boolean its value. */
  method KeepEntries<T>(index: seq<nat>, values: seq<T>, boolean: bool, s: nat, e: nat, lo: nat, hi: nat)
    returns (kept: seq<nat>, keptValues: seq<T>)
    requires s <= e <= |index| && (!boolean ==> |values| == |index|)
    ensures kept == Rebase(index[s..e], lo, hi)
    ensures boolean ==> keptValues == []
    ensures !boolean ==> keptValues == Select(index[s..e], values[s..e], lo, hi)
  {
    kept, keptValues := [], [];
    var k := s;
    while k < e
      invariant s <= k <= e
      invariant kept == Rebase(index[s..k], lo, hi)
      invariant boolean ==> keptValues == []
      invariant !boolean ==> keptValues == Select(index[s..k], values[s..k], lo, hi)
    {
      KeepStep(index, values, boolean, s, k, lo, hi);
      if InRange(index[k], lo, hi) {
        kept := kept + [index[k] - lo];
        if !boolean {
          keptValues := keptValues + [values[k]];
        }
      }
      k := k + 1;
    }
  }

  /** One example more in the sparse model shard, one function at a time. */
  lemma ShardStep<T>(start: seq<nat>, end: seq<nat>, index: seq<nat>, values: seq<T>, boolean: bool, lo: nat, hi: nat, j: nat)
    requires CSR(start, end, |index|) && (!boolean ==> |values| == |index|) && j < |start|
    ensures start[j] <= end[j] <= |index|
    ensures ShardIndex(start, end, index, lo, hi, j + 1)
            == ShardIndex(start, end, index, lo, hi, j) + Rebase(index[start[j]..end[j]], lo, hi)
    ensures LocalStarts(start, end, index, lo, hi, j + 1)
            == LocalStarts(start, end, index, lo, hi, j) + [|ShardIndex(start, end, index, lo, hi, j)|]
    ensures LocalEnds(start, end, index, lo, hi, j + 1)
            == LocalEnds(start, end, index, lo, hi, j) + [|ShardIndex(start, end, index, lo, hi, j + 1)|]
    ensures !boolean ==>
              ShardValues(start, end, index, values, lo, hi, j + 1)
              == ShardValues(start, end, index, values, lo, hi, j) + Select(index[start[j]..end[j]], values[start[j]..end[j]], lo, hi)
  {
  }

  /** The filter-and-rebase loops of Shard for one worker: per example, record the local
      start, keep the in-range entries and record the local end. */
  method ShardSparse<T>(start: seq<nat>, end: seq<nat>, index: seq<nat>, values: seq<T>, boolean: bool, lo: nat, hi: nat)
    returns (lstart: seq<nat>, lend: seq<nat>, lindex: seq<nat>, lvalues: seq<T>)
    requires CSR(start, end, |index|) && (!boolean ==> |values| == |index|)
    ensures |lstart| == |start| && |lend| == |start|
    ensures lindex == ShardIndex(start, end, index, lo, hi, |start|)
    ensures boolean ==> lvalues == []
    ensures !boolean ==> lvalues == ShardValues(start, end, index, values, lo, hi, |start|)
    ensures lstart == LocalStarts(start, end, index, lo, hi, |start|)
    ensures lend == LocalEnds(start, end, index, lo, hi, |start|)
  {
    lstart, lend, lindex, lvalues := [], [], [], [];
    var j := 0;
    while j < |start|
      invariant j <= |start|
      invariant lindex == ShardIndex(start, end, index, lo, hi, j)
      invariant boolean ==> lvalues == []
      invariant !boolean ==> lvalues == ShardValues(start, end, index, values, lo, hi, j)
      invariant lstart == LocalStarts(start, end, index, lo, hi, j)
      invariant lend == LocalEnds(start, end, index, lo, hi, j)
    {
      lstart, lend, lindex, lvalues := ShardNext(start, end, index, values, boolean, lo, hi, j, lstart, lend, lindex, lvalues);
      j := j + 1;
    }
  }

  /** The body of the per-example loop of ShardSparse: record example j's local start,
      keep its in-range entries, record its local end. */
  method ShardNext<T>(start: seq<nat>, end: seq<nat>, index: seq<nat>, values: seq<T>, boolean: bool, lo: nat, hi: nat,
                      j: nat, lstart: seq<nat>, lend: seq<nat>, lindex: seq<nat>, lvalues: seq<T>)
    returns (lstart': seq<nat>, lend': seq<nat>, lindex': seq<nat>, lvalues': seq<T>)
    requires CSR(start, end, |index|) && (!boolean ==> |values| == |index|) && j < |start|
    requires lindex == ShardIndex(start, end, index, lo, hi, j)
    requires boolean ==> lvalues == []
    requires !boolean ==> lvalues == ShardValues(start, end, index, values, lo, hi, j)
    requires lstart == LocalStarts(start, end, index, lo, hi, j) && lend == LocalEnds(start, end, index, lo, hi, j)
    ensures lindex' == ShardIndex(start, end, index, lo, hi, j + 1)
    ensures boolean ==> lvalues' == []
    ensures !boolean ==> lvalues' == ShardValues(start, end, index, values, lo, hi, j + 1)
    ensures lstart' == LocalStarts(start, end, index, lo, hi, j + 1) && lend' == LocalEnds(start, end, index, lo, hi, j + 1)
  {
    ShardStep(start, end, index, values, boolean, lo, hi, j);
    lstart' := lstart + [|lindex|];
    var kept, keptValues := KeepEntries(index, values, boolean, start[j], end[j], lo, hi);
    lindex' := lindex + kept;
    lvalues' := lvalues + keptValues;
    lend' := lend + [|lindex'|];
  }

  // ---------------------------------------------------------------- dense shards

  /** Columns [lo, hi) of the first m rows of a row-major array whose rows are width long
      (row j starts at RowStart(j, width) == j*width). */
  function DenseRows<T>(data: seq<T>, width: nat, lo: nat, hi: nat, m: nat): (r: seq<T>)
    requires lo <= hi <= width && RowStart(m, width) <= |data|
  {
    if m == 0 then []
    else DenseRows(data, width, lo, hi, m - 1) + data[RowStart(m - 1, width) + lo .. RowStart(m - 1, width) + hi]
  }

  lemma {:induction false} DenseRowsLength<T>(data: seq<T>, width: nat, lo: nat, hi: nat, m: nat)
    requires lo <= hi <= width && RowStart(m, width) <= |data|
    ensures |DenseRows(data, width, lo, hi, m)| == m * (hi - lo)
  {
    if m > 0 {
      DenseRowsLength(data, width, lo, hi, m - 1);
      MulSucc(m - 1, hi - lo);
    }
  }

  /** A dense model shard holds local[j*slice + k] == data[j*width + lo + k] for every
      example j and every column k of the slice (Cell(j, w, k) is j*w + k). */
  lemma {:induction false} DenseRowsAt<T>(data: seq<T>, width: nat, lo: nat, hi: nat, m: nat, j: nat, k: nat)
    requires lo <= hi <= width && RowStart(m, width) <= |data| && j < m && k < hi - lo
    ensures Cell(j, hi - lo, k) < |DenseRows(data, width, lo, hi, m)|
    ensures Cell(j, width, lo + k) < |data|
    ensures DenseRows(data, width, lo, hi, m)[Cell(j, hi - lo, k)] == data[Cell(j, width, lo + k)]
  {
    RowStartIsProduct(m, width);
    RowStartIsProduct(m - 1, width);
    DenseRowsLength(data, width, lo, hi, m);
    DenseRowsLength(data, width, lo, hi, m - 1);
    RowCell(j, k, hi - lo, m);
    RowCell(j, lo + k, width, m);
    if j < m - 1 {
      DenseRowsAt(data, width, lo, hi, m - 1, j, k);
    }
  }

  lemma RowCell(j: nat, k: nat, w: nat, m: nat)
    requires k < w && j < m
    ensures j * w + k < m * w
  {
    DigitBound(k, j, w, m);
    assert j * w == w * j && m * w == w * m;
  }

  /** The dense slicing loops of Shard for one worker: row j of the local array is
      columns [lo, hi) of row j of the dataset. */
  method SliceDense<T(0)>(data: seq<T>, examples: nat, width: nat, lo: nat, hi: nat) returns (local: seq<T>)
    requires lo <= hi <= width && RowStart(examples, width) <= |data|
    ensures local == DenseRows(data, width, lo, hi, examples)
  {
    var a := new T[examples * (hi - lo)];
    RowStartIsProduct(examples, hi - lo);
    FillDense(a, data, examples, width, lo, hi);
    local := a[..];
  }

  /** The outer loop of SliceDense: row j of `a` (hi - lo long) receives columns [lo, hi)
      of row j of the dataset. */
  method FillDense<T>(a: array<T>, data: seq<T>, examples: nat, width: nat, lo: nat, hi: nat)
    requires lo <= hi <= width && RowStart(examples, width) <= |data|
    requires a.Length == RowStart(examples, hi - lo)
    modifies a
    ensures a[..] == DenseRows(data, width, lo, hi, examples)
  {
    var j, base, row := 0, 0, 0;
    while j < examples
      invariant j <= examples && base == RowStart(j, hi - lo) && row == RowStart(j, width)
      invariant base <= a.Length && row <= |data|
      invariant a[..base] == DenseRows(data, width, lo, hi, j)
    {
      RowStartMonotone(j, examples, hi - lo);
      RowStartMonotone(j, examples, width);
      CopyRow(a, data, base, row, lo, hi, DenseRows(data, width, lo, hi, j));
      j, base, row := j + 1, base + (hi - lo), row + width;
    }
    assert a[..] == a[..base];
  }

  /** The inner loop of SliceDense: copy columns [lo, hi) of the row starting at `row`
      to the local row starting at `base`. */
  method CopyRow<T>(a: array<T>, data: seq<T>, base: nat, row: nat, lo: nat, hi: nat, ghost prefix: seq<T>)
    requires lo <= hi && base + (hi - lo) <= a.Length && row + hi <= |data|
    requires a[..base] == prefix
    modifies a
    ensures a[..base + (hi - lo)] == prefix + data[row + lo .. row + hi]
  {
    var k := 0;
    while k < hi - lo
      invariant k <= hi - lo
      invariant a[..base + k] == prefix + data[row + lo .. row + lo + k]
    {
      a[base + k] := data[row + lo + k];
      assert a[..base + k + 1] == a[..base + k] + [a[base + k]];
      assert data[row + lo .. row + lo + k + 1] == data[row + lo .. row + lo + k] + [data[row + lo + k]];
      k := k + 1;
    }
  }
}
