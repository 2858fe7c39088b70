/** Bucket offsets of the transposed (feature-major) sparse view that
    GenerateSparseTransposedMatrix lays out: bucket i holds at most `batch` entries of
    feature i and every bucket starts on a multiple of 32 (one GPU warp). The running
    offset is a 32-bit unsigned integer in the source, so it wraps modulo 2^32. */
module Transpose {
  import opened Common

  const U32: nat := 0x1_0000_0000

  /** The smallest multiple of 32 that is not below x. */
  function RoundUp32(x: nat): (r: nat)
    ensures r % 32 == 0 && x <= r < x + 32
  {
    (x + 31) / 32 * 32
  }

  /** One step of the offset loop with 32-bit wrap-around: add min(batch, count), then
      add 31 and clear the five low bits. */
  function Step(offset: nat, count: nat, batch: nat): (r: nat)
    ensures r % 32 == 0 && r < U32
  {
    var o := (offset + Min(batch, count)) % U32;
    ((o + 31) % U32) / 32 * 32
  }

  /** The offset the loop holds before bucket i (and, for i = |counts|, once it ends). */
  function BucketStart(counts: seq<nat>, batch: nat, i: nat): (r: nat)
    requires i <= |counts|
    ensures r % 32 == 0 && r < U32
  {
    if i == 0 then 0 else Step(BucketStart(counts, batch, i - 1), counts[i - 1], batch)
  }

  /** The same running sum over unbounded integers, as the offsets are meant to be. */
  function IdealStart(counts: seq<nat>, batch: nat, i: nat): nat
    requires i <= |counts|
  {
    if i == 0 then 0 else RoundUp32(IdealStart(counts, batch, i - 1) + Min(batch, counts[i - 1]))
  }

  lemma {:induction false} IdealMonotone(counts: seq<nat>, batch: nat, i: nat, j: nat)
    requires i <= j <= |counts|
    ensures IdealStart(counts, batch, i) <= IdealStart(counts, batch, j)
    decreases j - i
  {
    if i < j {
      IdealMonotone(counts, batch, i, j - 1);
    }
  }

  lemma StepNoWrap(offset: nat, count: nat, batch: nat)
    requires RoundUp32(offset + Min(batch, count)) < U32
    ensures Step(offset, count, batch) == RoundUp32(offset + Min(batch, count))
  {
    var x := offset + Min(batch, count);
    assert x + 31 < U32;
    assert x % U32 == x;
    assert (x + 31) % U32 == x + 31;
  }

  /** As long as the total bucket capacity fits in 32 bits, the wrapping loop computes
      exactly the unbounded running sum. */
  lemma {:induction false} NoWrapAgrees(counts: seq<nat>, batch: nat, i: nat)
    requires i <= |counts| && IdealStart(counts, batch, |counts|) < U32
    ensures BucketStart(counts, batch, i) == IdealStart(counts, batch, i)
  {
    if i > 0 {
      NoWrapAgrees(counts, batch, i - 1);
      IdealMonotone(counts, batch, i, |counts|);
      var prev, count := IdealStart(counts, batch, i - 1), counts[i - 1];
      assert IdealStart(counts, batch, i) == RoundUp32(prev + Min(batch, count));
      StepNoWrap(prev, count, batch);
    }
  }

  /** Without wrap-around, bucket i is wide enough for min(batch, count[i]) entries and
      wastes fewer than 32 slots on alignment. */
  lemma BucketCapacity(counts: seq<nat>, batch: nat, i: nat)
    requires i < |counts| && IdealStart(counts, batch, |counts|) < U32
    ensures BucketStart(counts, batch, i) <= BucketStart(counts, batch, i + 1)
    ensures var width := BucketStart(counts, batch, i + 1) - BucketStart(counts, batch, i);
            Min(batch, counts[i]) <= width < Min(batch, counts[i]) + 32
  {
    NoWrapAgrees(counts, batch, i);
    NoWrapAgrees(counts, batch, i + 1);
  }

  /** std::vector::resize on a vector of offsets: keeps the prefix, zero-fills growth. */
  function Resize(s: seq<nat>, n: nat): (r: seq<nat>)
    ensures |r| == n
    ensures forall i :: 0 <= i < n ==> r[i] == if i < |s| then s[i] else 0
  {
    if n <= |s| then s[..n] else s + seq(n - |s|, i => 0)
  }

  /** The offset loop: writes the start of bucket i into starts[i] for every counted
      feature, leaves the rest of starts alone, and returns the final offset. */
  method BucketOffsets(counts: seq<nat>, batch: nat, starts: seq<nat>) returns (out: seq<nat>, offset: nat)
    requires |counts| <= |starts|
    ensures |out| == |starts|
    ensures forall i :: 0 <= i < |counts| ==> out[i] == BucketStart(counts, batch, i)
    ensures forall i :: |counts| <= i < |starts| ==> out[i] == starts[i]
    ensures offset == BucketStart(counts, batch, |counts|)
  {
    out := starts;
    offset := 0;
    var i := 0;
    while i < |counts|
      invariant i <= |counts| && |out| == |starts|
      invariant offset == BucketStart(counts, batch, i)
      invariant forall k :: 0 <= k < i ==> out[k] == BucketStart(counts, batch, k)
      invariant forall k :: i <= k < |starts| ==> out[k] == starts[k]
    {
      out := out[i := offset];
      offset := Step(offset, counts[i], batch);
      i := i + 1;
    }
  }
}
