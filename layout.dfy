/** Storage layout of one dataset: the row-major position of a dense datapoint and the
    per-example CSR layout (start/end offsets into one shared index array) of sparse data,
    with the guards the point accessors apply before touching a vector. */
module Layout {
  import opened Common
  import opened Arith

  /** Position of datapoint (x, y, z) of example n in the dense array, as the accessors
      compute it: n * stride + x + width * (y + z * height). */
  function DensePosition(n: nat, x: nat, y: nat, z: nat, stride: nat, width: nat, height: nat): nat
  {
    n * stride + DenseOffset(x, y, z, width, height)
  }

  /** Position of datapoint (x, y, z) inside its example's block. */
  function DenseOffset(x: nat, y: nat, z: nat, width: nat, height: nat): nat
  {
    x + width * (y + z * height)
  }

  /** Coordinates inside the extents land inside the example's own stride block. */
  lemma {:induction false} DenseOffsetInBlock(x: nat, y: nat, z: nat, width: nat, height: nat, length: nat)
    requires x < width && y < height && z < length
    ensures DenseOffset(x, y, z, width, height) < width * height * length
  {
    DigitBound(y, z, height, length);
    assert y + z * height == y + height * z;
    DigitBound(x, y + z * height, width, height * length);
    assert width * (height * length) == width * height * length;
  }

  lemma DenseOffsetUnique(x: nat, y: nat, z: nat, x': nat, y': nat, z': nat, width: nat, height: nat)
    requires x < width && y < height && x' < width && y' < height
    requires DenseOffset(x, y, z, width, height) == DenseOffset(x', y', z', width, height)
    ensures x == x' && y == y' && z == z'
  {
    DigitsUnique(x, y + z * height, x', y' + z' * height, width);
    assert y + height * z == y' + height * z';
    DigitsUnique(y, z, y', z', height);
  }

  lemma BlockUnique(n: nat, off: nat, n': nat, off': nat, stride: nat, examples: nat)
    requires off < stride && off' < stride && n < examples
    ensures n * stride + off < examples * stride
    ensures n * stride + off == n' * stride + off' ==> n == n' && off == off'
  {
    DigitBound(off, n, stride, examples);
    assert n * stride == stride * n && n' * stride == stride * n';
    assert examples * stride == stride * examples;
    if n * stride + off == n' * stride + off' {
      DigitsUnique(off, n, off', n', stride);
    }
  }

  lemma PositionsFromOffsets(n: nat, x: nat, y: nat, z: nat, n': nat, x': nat, y': nat, z': nat,
                             examples: nat, stride: nat, width: nat, height: nat)
    requires n < examples && x < width && y < height && x' < width && y' < height
    requires DenseOffset(x, y, z, width, height) < stride && DenseOffset(x', y', z', width, height) < stride
    ensures DensePosition(n, x, y, z, stride, width, height) < examples * stride
    ensures DensePosition(n, x, y, z, stride, width, height) == DensePosition(n', x', y', z', stride, width, height)
            ==> n == n' && x == x' && y == y' && z == z'
  {
    var off, off' := DenseOffset(x, y, z, width, height), DenseOffset(x', y', z', width, height);
    BlockUnique(n, off, n', off', stride, examples);
    if n * stride + off == n' * stride + off' {
      DenseOffsetUnique(x, y, z, x', y', z', width, height);
    }
  }

  /** For a dense dataset of `examples` examples whose stride is width*height*length, every
      in-range (n, x, y, z) has its own cell inside the array: the position is below
      examples*stride, and two different coordinate tuples never share a position. */
  lemma {:induction false} DensePositionsDistinct(n: nat, x: nat, y: nat, z: nat,
                                                 n': nat, x': nat, y': nat, z': nat,
                                                 examples: nat, stride: nat, width: nat, height: nat, length: nat)
    requires stride == width * height * length
    requires n < examples && x < width && y < height && z < length
    requires n' < examples && x' < width && y' < height && z' < length
    ensures DensePosition(n, x, y, z, stride, width, height) < examples * stride
    ensures DensePosition(n, x, y, z, stride, width, height) == DensePosition(n', x', y', z', stride, width, height)
            ==> n == n' && x == x' && y == y' && z == z'
  {
    DenseOffsetInBlock(x, y, z, width, height, length);
    DenseOffsetInBlock(x', y', z', width, height, length);
    PositionsFromOffsets(n, x, y, z, n', x', y', z', examples, stride, width, height);
  }

  /** SetDataPoint writes one cell: after writing v at the position of (n, x, y, z), the
      cell of any in-range (n', x', y', z') holds v when it is the same datapoint and its old
      value otherwise. */
  lemma DenseWriteIsolated<T>(data: seq<T>, v: T, n: nat, x: nat, y: nat, z: nat,
                              n': nat, x': nat, y': nat, z': nat,
                              examples: nat, stride: nat, width: nat, height: nat, length: nat)
    requires stride == width * height * length && examples * stride <= |data|
    requires n < examples && x < width && y < height && z < length
    requires n' < examples && x' < width && y' < height && z' < length
    ensures DensePosition(n, x, y, z, stride, width, height) < |data|
    ensures DensePosition(n', x', y', z', stride, width, height) < |data|
    ensures data[DensePosition(n, x, y, z, stride, width, height) := v][DensePosition(n', x', y', z', stride, width, height)]
            == if n == n' && x == x' && y == y' && z == z' then v else data[DensePosition(n', x', y', z', stride, width, height)]
  {
    DensePositionsDistinct(n, x, y, z, n', x', y', z', examples, stride, width, height, length);
    DensePositionsDistinct(n', x', y', z', n, x, y, z, examples, stride, width, height, length);
  }

  /** CSR well-formedness: one (start, end) pair per example, start <= end <= size. */
  predicate CSR(start: seq<nat>, end: seq<nat>, size: nat)
  {
    |start| == |end| && forall j :: 0 <= j < |start| ==> start[j] <= end[j] <= size
  }

  /** The slot that GetSparseIndex addresses: fatal on a dense dataset, for an example index
      outside the dataset, and for a local index beyond the example's entries. */
  function SparseSlot(sparse: bool, examples: nat, start: seq<nat>, end: seq<nat>, n: nat, i: nat): (r: Outcome<nat>)
    requires |start| == |end| && (sparse ==> |start| == examples)
    requires forall j :: 0 <= j < |start| ==> start[j] <= end[j]
    ensures !sparse ==> r == Err(WrongKind)
    ensures sparse && n >= examples ==> r == Err(IllegalExample)
    ensures sparse && n < examples && i >= end[n] - start[n] ==> r == Err(SparseIndexOutOfRange)
    ensures r.Ok? <==> sparse && n < examples && i < end[n] - start[n]
    ensures r.Ok? ==> start[n] <= r.value < end[n] && r.value - start[n] == i
  {
    if !sparse then Err(WrongKind)
    else if n >= examples then Err(IllegalExample)
    else if i >= end[n] - start[n] then Err(SparseIndexOutOfRange)
    else Ok(start[n] + i)
  }

  /** The slot that GetSparseDataPoint, SetSparseIndex and SetSparseDataPoint address as
      written: the kind and example checks only, without the local-index check. */
  function SparseSlotAsWritten(sparse: bool, examples: nat, start: seq<nat>, n: nat, i: nat): (r: Outcome<nat>)
    requires sparse ==> |start| == examples
    ensures r.Ok? <==> sparse && n < examples
    ensures r.Ok? ==> r.value >= start[n] && r.value - start[n] == i
  {
    if !sparse then Err(WrongKind)
    else if n >= examples then Err(IllegalExample)
    else Ok(start[n] + i)
  }

  /** Two one-entry examples: without the local-index check, entry i = 1 of example 0
      is the slot of example 1's only entry. */
  lemma SlotAsWrittenEscapesExample()
    ensures SparseSlotAsWritten(true, 2, [0, 1], 0, 1) == Ok(1)
    ensures var start, end := [0, 1], [1, 2];
            !(start[0] <= 1 < end[0]) && start[1] <= 1 < end[1]
    ensures SparseSlot(true, 2, [0, 1], [1, 2], 0, 1) == Err(SparseIndexOutOfRange)
  {
  }
}
