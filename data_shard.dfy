/** Data (example) sharding: the examples are dealt round robin, example j going to worker
    j % P, so worker i holds examples i, i + P, i + 2P, ... in that order. */
module DataShard {
  import opened Arith
  import opened Blocks

  /** _localExamples of worker i: E / P, plus one for the first E % P workers. */
  function LocalExamples(examples: nat, workers: nat, i: nat): nat
    requires workers > 0
  {
    examples / workers + (if examples % workers > i then 1 else 0)
  }

  /** Total of _localExamples over workers 0 .. m-1. */
  function Total(examples: nat, workers: nat, m: nat): nat
    requires workers > 0
  {
    if m == 0 then 0 else Total(examples, workers, m - 1) + LocalExamples(examples, workers, m - 1)
  }

  lemma {:induction false} TotalPrefix(examples: nat, workers: nat, m: nat)
    requires workers > 0
    ensures Total(examples, workers, m) == m * (examples / workers) + (if m < examples % workers then m else examples % workers)
  {
    if m > 0 {
      TotalPrefix(examples, workers, m - 1);
      MulSucc(m - 1, examples / workers);
    }
  }

  /** The workers' local example counts add up to the number of examples. */
  lemma LocalExamplesSum(examples: nat, workers: nat)
    requires workers > 0
    ensures Total(examples, workers, workers) == examples
  {
    TotalPrefix(examples, workers, workers);
    assert workers * (examples / workers) + examples % workers == examples;
  }

  /** Worker i's k-th example would be example i + k*P; it exists exactly when k is
      below worker i's local example count. */
  lemma RoundRobinCount(examples: nat, workers: nat, i: nat, k: nat)
    requires workers > 0 && i < workers
    ensures i + k * workers < examples <==> k < LocalExamples(examples, workers, i)
  {
    var q, r := examples / workers, examples % workers;
    assert examples == q * workers + r;
    if k < q {
      MulSucc(k, workers);
      MulMonotone(workers, k + 1, q);
      assert workers * (k + 1) == (k + 1) * workers && workers * q == q * workers;
    } else if k > q {
      MulSucc(q, workers);
      MulMonotone(workers, q + 1, k);
      assert workers * (q + 1) == (q + 1) * workers && workers * k == k * workers;
    }
  }

  /** The examples the dealing loop visits when it starts at example j: j, j + P, ... below E. */
  function Dealt(examples: nat, workers: nat, j: nat): (r: seq<nat>)
    requires workers > 0
    ensures forall k :: 0 <= k < |r| ==> j <= r[k] < examples
    decreases examples - j
  {
    if j >= examples then [] else [j] + Dealt(examples, workers, j + workers)
  }

  lemma {:induction false} DealtAt(examples: nat, workers: nat, j: nat, k: nat)
    requires workers > 0
    ensures k < |Dealt(examples, workers, j)| <==> j + k * workers < examples
    ensures k < |Dealt(examples, workers, j)| ==> Dealt(examples, workers, j)[k] == j + k * workers
    decreases examples - j
  {
    if j < examples && k > 0 {
      DealtAt(examples, workers, j + workers, k - 1);
      MulSucc(k - 1, workers);
    }
  }

  /** The dealing loop for worker i makes exactly LocalExamples(i) steps. */
  lemma DealtCount(examples: nat, workers: nat, i: nat)
    requires workers > 0 && i < workers
    ensures |Dealt(examples, workers, i)| == LocalExamples(examples, workers, i)
  {
    var d, l := |Dealt(examples, workers, i)|, LocalExamples(examples, workers, i);
    if d < l {
      DealtAt(examples, workers, i, d);
      RoundRobinCount(examples, workers, i, d);
    } else if l < d {
      DealtAt(examples, workers, i, l);
      RoundRobinCount(examples, workers, i, l);
    }
  }

  /** Example x is dealt to worker i exactly when x % P == i: every example goes to one worker. */
  lemma ExampleOwner(examples: nat, workers: nat, i: nat, x: nat)
    requires workers > 0 && i < workers
    ensures x in Dealt(examples, workers, i) <==> x < examples && x % workers == i
  {
    if x in Dealt(examples, workers, i) {
      DealtOwned(examples, workers, i, x);
    }
    if x < examples && x % workers == i {
      OwnedDealt(examples, workers, i, x);
    }
  }

  lemma DealtOwned(examples: nat, workers: nat, i: nat, x: nat)
    requires workers > 0 && i < workers && x in Dealt(examples, workers, i)
    ensures x < examples && x % workers == i
  {
    var d := Dealt(examples, workers, i);
    var k :| 0 <= k < |d| && d[k] == x;
    DealtAt(examples, workers, i, k);
    assert x == i + workers * k;
    DivModOf(i, k, workers);
  }

  lemma OwnedDealt(examples: nat, workers: nat, i: nat, x: nat)
    requires workers > 0 && i < workers && x < examples && x % workers == i
    ensures x in Dealt(examples, workers, i)
  {
    var k := x / workers;
    assert x == i + workers * k;
    assert x == i + k * workers;
    DealtAt(examples, workers, i, k);
  }

  /** One example's block of the dense array. */
  function Row<T>(data: seq<T>, stride: nat, j: nat): seq<T>
    requires j * stride + stride <= |data|
  {
    data[j * stride .. j * stride + stride]
  }

  /** The blocks of the listed examples. */
  function RowList<T>(data: seq<T>, stride: nat, examples: nat, rows: seq<nat>): (r: seq<seq<T>>)
    requires examples * stride <= |data|
    requires forall k :: 0 <= k < |rows| ==> rows[k] < examples
    ensures |r| == |rows| && Uniform(r, stride)
    decreases |rows|
  {
    if rows == [] then []
    else
      RowFits(examples, stride, rows[0]);
      [Row(data, stride, rows[0])] + RowList(data, stride, examples, rows[1..])
  }

  /** Block q of the list is the block of example rows[q]. */
  lemma {:induction false} RowListAt<T>(data: seq<T>, stride: nat, examples: nat, rows: seq<nat>, q: nat)
    requires examples * stride <= |data|
    requires forall k :: 0 <= k < |rows| ==> rows[k] < examples
    requires q < |rows|
    ensures rows[q] * stride + stride <= |data|
    ensures RowList(data, stride, examples, rows)[q] == Row(data, stride, rows[q])
    decreases |rows|
  {
    RowFits(examples, stride, rows[q]);
    if q > 0 {
      RowListAt(data, stride, examples, rows[1..], q - 1);
    }
  }

  /** The blocks of the listed examples, one after another. */
  function Rows<T>(data: seq<T>, stride: nat, examples: nat, rows: seq<nat>): seq<T>
    requires examples * stride <= |data|
    requires forall k :: 0 <= k < |rows| ==> rows[k] < examples
  {
    Flatten(RowList(data, stride, examples, rows))
  }

  lemma RowsLength<T>(data: seq<T>, stride: nat, examples: nat, rows: seq<nat>)
    requires examples * stride <= |data|
    requires forall k :: 0 <= k < |rows| ==> rows[k] < examples
    ensures |Rows(data, stride, examples, rows)| == |rows| * stride
  {
    FlattenLength(RowList(data, stride, examples, rows), stride);
  }

  /** Block k of a list of rows is row rows[k]. */
  lemma RowsBlock<T>(data: seq<T>, stride: nat, examples: nat, rows: seq<nat>, k: nat)
    requires examples * stride <= |data|
    requires forall k :: 0 <= k < |rows| ==> rows[k] < examples
    requires k < |rows|
    ensures k * stride + stride <= |Rows(data, stride, examples, rows)|
    ensures rows[k] * stride + stride <= |data|
    ensures Rows(data, stride, examples, rows)[k * stride .. k * stride + stride] == Row(data, stride, rows[k])
  {
    RowListAt(data, stride, examples, rows, k);
    FlattenBlock(RowList(data, stride, examples, rows), stride, k);
  }

  /** Worker i's shard: its dealt examples' blocks, in order. */
  function DataShardOf<T>(data: seq<T>, stride: nat, examples: nat, workers: nat, i: nat): seq<T>
    requires workers > 0 && examples * stride <= |data|
  {
    Rows(data, stride, examples, Dealt(examples, workers, i))
  }

  /** Data sharding loses and duplicates nothing: example j is dealt to worker j % P and to
      no other, and its block is, in full, block j / P of that worker's shard, which holds
      LocalExamples blocks. */
  lemma ShardsPartitionExamples<T>(data: seq<T>, stride: nat, examples: nat, workers: nat, i: nat, j: nat)
    requires workers > 0 && examples * stride <= |data| && j < examples && i < workers
    ensures j in Dealt(examples, workers, i) <==> i == j % workers
    ensures |DataShardOf(data, stride, examples, workers, i)| == LocalExamples(examples, workers, i) * stride
    ensures i == j % workers ==>
              && (j / workers) * stride + stride <= |DataShardOf(data, stride, examples, workers, i)|
              && j * stride + stride <= |data|
              && DataShardOf(data, stride, examples, workers, i)[(j / workers) * stride .. (j / workers) * stride + stride]
                 == Row(data, stride, j)
  {
    ExampleOwner(examples, workers, i, j);
    DealtCount(examples, workers, i);
    var rows := Dealt(examples, workers, i);
    var k := j / workers;
    RowsLength(data, stride, examples, rows);
    if i == j % workers {
      Recompose(j, workers);
      DealtAt(examples, workers, i, k);
      RowsBlock(data, stride, examples, rows, k);
    }
  }

  lemma Recompose(j: nat, workers: nat)
    requires workers > 0
    ensures j == j % workers + (j / workers) * workers
  {
    assert j == j % workers + workers * (j / workers);
  }

  /** The dealing loop the coordinator runs for worker i: copy examples i, i + P, ...
      one stride-long block at a time into a buffer of LocalExamples * stride elements. */
  method GatherRows<T>(data: seq<T>, stride: nat, examples: nat, workers: nat, i: nat) returns (local: seq<T>)
    requires workers > 0 && i < workers && examples * stride <= |data|
    ensures local == DataShardOf(data, stride, examples, workers, i)
    ensures |local| == LocalExamples(examples, workers, i) * stride
  {
    local := [];
    var j := i;
    while j < examples
      invariant i <= j
      invariant local + Rows(data, stride, examples, Dealt(examples, workers, j)) == DataShardOf(data, stride, examples, workers, i)
      decreases examples - j
    {
      DealtStep(data, stride, examples, workers, j);
      var row := Row(data, stride, j);
      ghost var rest := Rows(data, stride, examples, Dealt(examples, workers, j + workers));
      assert local + (row + rest) == (local + row) + rest;
      local := local + row;
      j := j + workers;
    }
    assert Dealt(examples, workers, j) == [];
    DealtCount(examples, workers, i);
    RowsLength(data, stride, examples, Dealt(examples, workers, i));
  }

  /** One step of the dealing loop: the blocks dealt from example j on are block j
      followed by the blocks dealt from example j + P on. */
  lemma DealtStep<T>(data: seq<T>, stride: nat, examples: nat, workers: nat, j: nat)
    requires workers > 0 && examples * stride <= |data| && j < examples
    ensures j * stride + stride <= |data|
    ensures Rows(data, stride, examples, Dealt(examples, workers, j))
            == Row(data, stride, j) + Rows(data, stride, examples, Dealt(examples, workers, j + workers))
  {
    RowFits(examples, stride, j);
    var d, rest := Dealt(examples, workers, j), Dealt(examples, workers, j + workers);
    assert d == [j] + rest;
    var blocks, tail := RowList(data, stride, examples, d), RowList(data, stride, examples, rest);
    assert blocks == [Row(data, stride, j)] + tail;
    FlattenCons(Row(data, stride, j), tail);
  }

  /** The coordinator's own shard as written: the dataset shrunk to its first
      LocalExamples(0) examples, instead of examples 0, P, 2P, ... */
  function CoordinatorShardAsWritten<T>(data: seq<T>, stride: nat, examples: nat, workers: nat): (r: seq<T>)
    requires workers > 0 && examples * stride <= |data|
    ensures |r| == LocalExamples(examples, workers, 0) * stride
  {
    DealtCount(examples, workers, 0);
    DealtBound(examples, workers, 0);
    MulMonotone(stride, LocalExamples(examples, workers, 0), examples);
    assert stride * LocalExamples(examples, workers, 0) == LocalExamples(examples, workers, 0) * stride;
    assert stride * examples == examples * stride;
    data[..LocalExamples(examples, workers, 0) * stride]
  }

  lemma {:induction false} DealtBound(examples: nat, workers: nat, j: nat)
    requires workers > 0
    ensures |Dealt(examples, workers, j)| + j <= examples || |Dealt(examples, workers, j)| == 0
    decreases examples - j
  {
    if j < examples {
      DealtBound(examples, workers, j + workers);
    }
  }

  /** Four one-element examples on two workers: the coordinator keeps examples 0 and 1,
      worker 1 receives examples 1 and 3, so example 2 is on no worker and example 1 is
      on both. The intended coordinator shard holds examples 0 and 2. */
  lemma CoordinatorAsWrittenLosesExample()
    ensures CoordinatorShardAsWritten([10, 11, 12, 13], 1, 4, 2) == [10, 11]
    ensures DataShardOf([10, 11, 12, 13], 1, 4, 2, 1) == [11, 13]
    ensures DataShardOf([10, 11, 12, 13], 1, 4, 2, 0) == [10, 12]
  {
    assert LocalExamples(4, 2, 0) == 2;
    TwoRowsOfFour(1, 3);
    TwoRowsOfFour(0, 2);
  }

  /** With four one-element examples on two workers, worker i's shard holds examples i and i + 2. */
  lemma TwoRowsOfFour(i: nat, i': nat)
    requires i < 2 && i' == i + 2
    ensures DataShardOf([10, 11, 12, 13], 1, 4, 2, i) == [[10, 11, 12, 13][i], [10, 11, 12, 13][i']]
  {
    var data := [10, 11, 12, 13];
    assert Dealt(4, 2, i') == [i'];
    assert Dealt(4, 2, i) == [i, i'];
    assert [i, i'][1..] == [i'] && [i'][1..] == [];
    assert Row(data, 1, i) == [data[i]] && Row(data, 1, i') == [data[i']];
    assert RowList(data, 1, 4, [i']) == [[data[i']]];
    assert RowList(data, 1, 4, [i, i']) == [[data[i]]] + [[data[i']]];
    FlattenCons([data[i]], [[data[i']]]);
    FlattenCons([data[i']], []);
  }
}
