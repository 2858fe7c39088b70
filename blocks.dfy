/** Equal-length blocks laid out one after another, the shape both kinds of dense shard
    have: a shard by example is a list of whole example blocks, a shard by feature a list
    of column slices, one per example. */
module Blocks {
  import opened Arith

  function Flatten<T>(blocks: seq<seq<T>>): seq<T>
  {
    if blocks == [] then [] else blocks[0] + Flatten(blocks[1..])
  }

  /** Every block is w long. */
  predicate Uniform<T>(blocks: seq<seq<T>>, w: nat)
  {
    forall q :: 0 <= q < |blocks| ==> |blocks[q]| == w
  }

  lemma FlattenCons<T>(b: seq<T>, blocks: seq<seq<T>>)
    ensures Flatten([b] + blocks) == b + Flatten(blocks)
  {
    assert ([b] + blocks)[1..] == blocks;
  }

  lemma {:induction false} FlattenLength<T>(blocks: seq<seq<T>>, w: nat)
    requires Uniform(blocks, w)
    ensures |Flatten(blocks)| == |blocks| * w
  {
    if blocks != [] {
      FlattenLength(blocks[1..], w);
      MulSucc(|blocks| - 1, w);
    }
  }

  /** Block k of the layout occupies [k*w, k*w + w). */
  lemma {:induction false} FlattenBlock<T>(blocks: seq<seq<T>>, w: nat, k: nat)
    requires Uniform(blocks, w) && k < |blocks|
    ensures k * w + w <= |Flatten(blocks)|
    ensures Flatten(blocks)[k * w .. k * w + w] == blocks[k]
  {
    FlattenLength(blocks, w);
    RowFits(|blocks|, w, k);
    if k > 0 {
      FlattenBlock(blocks[1..], w, k - 1);
      MulSucc(k - 1, w);
      ShiftBlock(blocks[0], Flatten(blocks[1..]), (k - 1) * w, k * w, w);
    }
  }

  lemma ShiftBlock<T>(head: seq<T>, rest: seq<T>, a: nat, b: nat, w: nat)
    requires |head| == w && b == a + w && a + w <= |rest|
    ensures (head + rest)[b .. b + w] == rest[a .. a + w]
  {
  }
}
