/** The host-side state of one dataset (NNDataSet<T>): its shape, its dense or CSR
    sparse arrays, the sparse statistics and transposed-bucket offsets derived from them,
    its sharding state and its denoising state, with the members that read and update
    them. Before Shard the arrays are the coordinator's whole dataset; afterwards they
    are the shard that worker `rank` of `workers` ends up holding. */
module Engine {
  import opened Common
  import opened Layout
  import Arith
  import Header
  import Expansion
  import Statistics
  import Transpose
  import ModelShard
  import DataShard
  import Denoising

  class DataSet<T(0)> {
    var attributes: Attributes
    var examples: nat
    var width: nat
    var height: nat
    var length: nat
    var stride: nat
    var data: seq<T>
    var sparseStart: seq<nat>
    var sparseEnd: seq<nat>
    var sparseIndex: seq<nat>
    var sparseData: seq<T>
    var dirty: bool
    var sparseDatapointCount: seq<nat>
    var maxSparseDatapoints: nat
    var batch: nat
    var sparseTransposedStart: seq<nat>
    var sparseTransposedIndices: nat
    var sharding: Sharding
    var minX: nat
    var maxX: nat
    var localExamples: nat
    var denoising: Denoising.State

    /** Extents of at least 1 (the loader's header checks), a CSR layout with one
        (start, end) pair per example and a value per entry unless Boolean, the dense
        stride, a count per datapoint at most, and an ordered feature slice. */
    predicate Valid()
      reads this
    {
      && width >= 1 && height >= 1 && length >= 1
      && (attributes.sparse ==>
            && |sparseStart| == examples && CSR(sparseStart, sparseEnd, |sparseIndex|)
            && (if attributes.boolean then sparseData == [] else |sparseData| == |sparseIndex|))
      && (!attributes.sparse ==> stride == width * height * length)
      && |sparseDatapointCount| <= Points()
      && minX <= maxX <= width
    }

    /** Datapoints per example: width * height * length. */
    function Points(): nat
      reads this
    {
      width * height * length
    }

    // ------------------------------------------------------------ loading

    /** The arrays the loader reads once the header is accepted (lines 474-581): for sparse
        data the offsets, the index array and, unless Boolean, the value array; for dense
        data the value array, already expanded when Boolean. A well-formed CSR layout is
        assumed here and checked by Load. The members the loader does not set start
        empty or zero, dirty, unsharded and with denoising off. */
    constructor (shape: Header.Shape, start: seq<nat>, end: seq<nat>, index: seq<nat>, values: seq<T>, dense: seq<T>)
      requires shape.width >= 1 && shape.height >= 1 && shape.length >= 1
      requires shape.attributes.sparse ==>
                 && |start| == shape.examples && CSR(start, end, |index|)
                 && (if shape.attributes.boolean then values == [] else |values| == |index|)
      ensures Valid()
      ensures attributes == shape.attributes && examples == shape.examples
      ensures width == shape.width && height == shape.height && length == shape.length
      ensures attributes.sparse ==> sparseStart == start && sparseEnd == end && sparseIndex == index
                                    && sparseData == values && data == []
      ensures !attributes.sparse ==> data == dense && stride == Points()
                                     && sparseStart == [] && sparseEnd == [] && sparseIndex == [] && sparseData == []
      ensures dirty && sharding == None && sparseDatapointCount == [] && maxSparseDatapoints == 0
      ensures sparseTransposedStart == [] && sparseTransposedIndices == 0 && minX == 0 && maxX == 0 && localExamples == 0
      ensures denoising == Denoising.State(false, Missing)
    {
      attributes, examples := shape.attributes, shape.examples;
      width, height, length := shape.width, shape.height, shape.length;
      if shape.attributes.sparse {
        stride, data := 0, [];
        sparseStart, sparseEnd, sparseIndex, sparseData := start, end, index, values;
      } else {
        stride, data := shape.width * shape.height * shape.length, dense;
        sparseStart, sparseEnd, sparseIndex, sparseData := [], [], [], [];
      }
      dirty, sparseDatapointCount, maxSparseDatapoints := true, [], 0;
      batch, sparseTransposedStart, sparseTransposedIndices := 0, [], 0;
      sharding, minX, maxX, localExamples := None, 0, 0, 0;
      denoising := Denoising.State(false, Missing);
    }

    /** The constructor NNDataSet(fname, n) once the header is accepted: read the arrays,
        expand dense Boolean data (lines 556-572) and count the sparse datapoints (lines
        617-621). Offsets that leave the index array, which the source reads past later,
        are refused as outside storage. */
    static method Load(shape: Header.Shape, start: seq<nat>, end: seq<nat>, index: seq<nat>, values: seq<T>,
                       raw: seq<T>, hot: seq<nat>, zero: T, one: T) returns (r: Outcome<DataSet<T>>)
      requires shape.width >= 1 && shape.height >= 1 && shape.length >= 1
      requires shape.attributes.sparse ==>
                 && |start| == shape.examples && |end| == shape.examples
                 && (if shape.attributes.boolean then values == [] else |values| == |index|)
      ensures r.Ok? ==> fresh(r.value) && r.value.Valid() && r.value.sharding == None
      ensures r.Ok? ==> r.value.attributes == shape.attributes && r.value.examples == shape.examples
                        && r.value.width == shape.width && r.value.height == shape.height && r.value.length == shape.length
      ensures shape.attributes.sparse ==>
                (r.Ok? <==> CSR(start, end, |index|) && forall k :: 0 <= k < |index| ==> index[k] < shape.width)
      ensures shape.attributes.sparse && !CSR(start, end, |index|) ==> r == Err(OutsideStorage)
      ensures shape.attributes.sparse && CSR(start, end, |index|) && r.Err? ==> r.fault == FeatureOutOfRange
      ensures shape.attributes.sparse && r.Ok? ==>
                && r.value.sparseStart == start && r.value.sparseEnd == end
                && r.value.sparseIndex == index && r.value.sparseData == values
                && r.value.sparseDatapointCount == Statistics.Histogram(index, r.value.Points())
                && (forall j :: 0 <= j < shape.examples ==> end[j] - start[j] <= r.value.maxSparseDatapoints)
                && (shape.examples > 0 ==> exists j :: 0 <= j < shape.examples && r.value.maxSparseDatapoints == end[j] - start[j])
                && (shape.examples == 0 ==> r.value.maxSparseDatapoints == 0)
      ensures !shape.attributes.sparse && r.Ok? ==> r.value.sparseDatapointCount == [] && r.value.maxSparseDatapoints == 0
      ensures !shape.attributes.sparse && !shape.attributes.boolean ==> r.Ok? && r.value.data == raw
      ensures !shape.attributes.sparse && shape.attributes.boolean ==>
                && (r.Ok? <==> Expansion.TargetsFit(hot, shape.width * shape.height * shape.length, |hot|))
                && (r.Ok? ==> r.value.data == Expansion.Written(hot, shape.width * shape.height * shape.length, zero, one, |hot|))
                && (r.Err? ==> r.fault == OutsideStorage)
    {
      var sparse := shape.attributes.sparse;
      if sparse && !CSR(start, end, |index|) {
        return Err(OutsideStorage);
      }
      var dense := raw;
      if !sparse && shape.attributes.boolean {
        var e := Expansion.Expand(hot, shape.width * shape.height * shape.length, zero, one);
        if e.Err? {
          return Err(e.fault);
        }
        dense := e.value;
      }
      var ds := new DataSet(shape, start, end, index, values, dense);
      if sparse {
        var c := ds.CalculateSparseDatapointCounts();
        if c.Err? {
          return Err(c.fault);
        }
      }
      return Ok(ds);
    }

    // ------------------------------------------------------------ point accessors

    function GetDataPoint(n: nat, x: nat, y: nat, z: nat): (r: Outcome<T>)
      reads this
      requires Valid()
      ensures attributes.sparse ==> r == Err(WrongKind)
      ensures !attributes.sparse && n >= examples ==> r == Err(IllegalExample)
      ensures !attributes.sparse && n < examples && (x >= width || y >= height || z >= length) ==> r == Err(IllegalCoordinates)
      ensures r.Ok? <==> !attributes.sparse && n < examples && x < width && y < height && z < length
                         && DensePosition(n, x, y, z, stride, width, height) < |data|
      ensures r.Ok? ==> r.value == data[DensePosition(n, x, y, z, stride, width, height)]
      ensures r.Ok? ==> DensePosition(n, x, y, z, stride, width, height) < examples * stride
    {
      if attributes.sparse then Err(WrongKind)
      else if n >= examples then Err(IllegalExample)
      else if x >= width || y >= height || z >= length then Err(IllegalCoordinates)
      else
        var p := DensePosition(n, x, y, z, stride, width, height);
        DensePositionsDistinct(n, x, y, z, n, x, y, z, examples, stride, width, height, length);
        if p < |data| then Ok(data[p]) else Err(OutsideStorage)
    }

    method SetDataPoint(v: T, n: nat, x: nat, y: nat, z: nat) returns (r: Outcome<()>)
      requires Valid()
      modifies this`data
      ensures Valid()
      ensures r.Ok? <==> old(GetDataPoint(n, x, y, z)).Ok?
      ensures r.Err? ==> r.fault == old(GetDataPoint(n, x, y, z)).fault && data == old(data)
      ensures r.Ok? ==> data == old(data)[DensePosition(n, x, y, z, stride, width, height) := v]
      ensures r.Ok? ==> GetDataPoint(n, x, y, z) == Ok(v)
    {
      var g := GetDataPoint(n, x, y, z);
      if g.Err? {
        return Err(g.fault);
      }
      data := data[DensePosition(n, x, y, z, stride, width, height) := v];
      return Ok(());
    }

    function GetSparseDataPoints(n: nat): (r: Outcome<nat>)
      reads this
      requires Valid()
      ensures !attributes.sparse ==> r == Err(WrongKind)
      ensures attributes.sparse && n >= examples ==> r == Err(IllegalExample)
      ensures r.Ok? <==> attributes.sparse && n < examples
      ensures r.Ok? ==> r.value == sparseEnd[n] - sparseStart[n] && sparseStart[n] + r.value <= |sparseIndex|
    {
      if !attributes.sparse then Err(WrongKind)
      else if n >= examples then Err(IllegalExample)
      else Ok(sparseEnd[n] - sparseStart[n])
    }

    /** The slot of local entry i of example n, with the local-index check. */
    function Slot(n: nat, i: nat): (r: Outcome<nat>)
      reads this
      requires Valid()
      ensures r.Ok? ==> r.value < |sparseIndex|
    {
      if attributes.sparse then SparseSlot(true, examples, sparseStart, sparseEnd, n, i)
      else Err(WrongKind)
    }

    function GetSparseIndex(n: nat, i: nat): (r: Outcome<nat>)
      reads this
      requires Valid()
      ensures r.Ok? <==> GetSparseDataPoints(n).Ok? && i < GetSparseDataPoints(n).value
      ensures GetSparseDataPoints(n).Err? ==> r == Err(GetSparseDataPoints(n).fault)
      ensures GetSparseDataPoints(n).Ok? && i >= GetSparseDataPoints(n).value ==> r == Err(SparseIndexOutOfRange)
      ensures r.Ok? ==> r.value == sparseIndex[sparseStart[n] + i]
    {
      match Slot(n, i)
      case Ok(s) => Ok(sparseIndex[s])
      case Err(f) => Err(f)
    }

    function GetSparseDataPoint(n: nat, i: nat): (r: Outcome<T>)
      reads this
      requires Valid()
      ensures r.Ok? <==> GetSparseIndex(n, i).Ok? && !attributes.boolean
      ensures GetSparseIndex(n, i).Err? ==> r == Err(GetSparseIndex(n, i).fault)
      ensures GetSparseIndex(n, i).Ok? && attributes.boolean ==> r == Err(OutsideStorage)
      ensures r.Ok? ==> r.value == sparseData[sparseStart[n] + i]
    {
      match Slot(n, i)
      case Ok(s) => if s < |sparseData| then Ok(sparseData[s]) else Err(OutsideStorage)
      case Err(f) => Err(f)
    }

    method SetSparseIndex(n: nat, i: nat, v: nat) returns (r: Outcome<()>)
      requires Valid()
      modifies this`sparseIndex, this`dirty
      ensures Valid()
      ensures r.Ok? <==> old(GetSparseIndex(n, i)).Ok?
      ensures r.Err? ==> r.fault == old(GetSparseIndex(n, i)).fault && sparseIndex == old(sparseIndex) && dirty == old(dirty)
      ensures r.Ok? ==> sparseIndex == old(sparseIndex)[sparseStart[n] + i := v] && dirty
      ensures r.Ok? ==> GetSparseIndex(n, i) == Ok(v)
    {
      var s := Slot(n, i);
      if s.Err? {
        return Err(s.fault);
      }
      sparseIndex := sparseIndex[s.value := v];
      dirty := true;
      return Ok(());
    }

    method SetSparseDataPoint(n: nat, i: nat, v: T) returns (r: Outcome<()>)
      requires Valid()
      modifies this`sparseData, this`dirty
      ensures Valid()
      ensures r.Ok? <==> old(GetSparseDataPoint(n, i)).Ok?
      ensures r.Err? ==> r.fault == old(GetSparseDataPoint(n, i)).fault && sparseData == old(sparseData) && dirty == old(dirty)
      ensures r.Ok? ==> sparseData == old(sparseData)[sparseStart[n] + i := v] && dirty
      ensures r.Ok? ==> GetSparseDataPoint(n, i) == Ok(v)
    {
      var s := Slot(n, i);
      if s.Err? {
        return Err(s.fault);
      }
      if s.value >= |sparseData| {
        return Err(OutsideStorage);
      }
      sparseData := sparseData[s.value := v];
      dirty := true;
      return Ok(());
    }

    // ------------------------------------------------------------ sparse statistics

    method CalculateSparseDatapointCounts() returns (r: Outcome<bool>)
      requires Valid()
      modifies this`sparseDatapointCount, this`maxSparseDatapoints
      ensures Valid()
      ensures !attributes.sparse ==> r == Ok(false) && sparseDatapointCount == old(sparseDatapointCount)
                                     && maxSparseDatapoints == old(maxSparseDatapoints)
      ensures attributes.sparse ==> (r.Ok? <==> forall k :: 0 <= k < |sparseIndex| ==> sparseIndex[k] < width)
      ensures r.Err? ==> r.fault == FeatureOutOfRange
      ensures attributes.sparse && r.Ok? ==> r.value && sparseDatapointCount == Statistics.Histogram(sparseIndex, Points())
      ensures attributes.sparse && r.Ok? ==> forall j :: 0 <= j < examples ==> sparseEnd[j] - sparseStart[j] <= maxSparseDatapoints
      ensures attributes.sparse && r.Ok? && examples > 0 ==>
                exists j :: 0 <= j < examples && maxSparseDatapoints == sparseEnd[j] - sparseStart[j]
      ensures attributes.sparse && r.Ok? && examples == 0 ==> maxSparseDatapoints == 0
    {
      if !attributes.sparse {
        return Ok(false);
      }
      assert width <= Points() by {
        Arith.MulMonotone(width, 1, height);
        Arith.MulMonotone(width * height, 1, length);
      }
      var counts := Statistics.CountFeatures(sparseIndex, width, Points());
      if counts.Err? {
        return Err(counts.fault);
      }
      sparseDatapointCount := counts.value;
      maxSparseDatapoints := Statistics.MaxPerExample(sparseStart, sparseEnd);
      return Ok(true);
    }

    // ------------------------------------------------------------ transposed buckets

    /** Recounts when dirty, then lays out one bucket per counted feature in a start
        array of max(points, layerUnits) offsets, and grows the bucket capacity to the
        final offset if that is larger. layerUnits is the product of the layer's local
        dimensions. */
    method GenerateSparseTransposedMatrix(newBatch: nat, layerUnits: nat) returns (r: Outcome<bool>)
      requires Valid()
      modifies this`sparseDatapointCount, this`maxSparseDatapoints, this`dirty, this`batch,
               this`sparseTransposedStart, this`sparseTransposedIndices
      ensures Valid()
      ensures r.Err? ==> old(dirty) && attributes.sparse && r.fault == FeatureOutOfRange
      ensures r.Ok? ==> r.value && !dirty && batch == newBatch
      ensures r.Ok? && old(dirty) && attributes.sparse ==> sparseDatapointCount == Statistics.Histogram(sparseIndex, Points())
      ensures r.Ok? && old(dirty) && attributes.sparse ==>
                forall j :: 0 <= j < examples ==> sparseEnd[j] - sparseStart[j] <= maxSparseDatapoints
      ensures r.Ok? && old(dirty) && attributes.sparse && examples > 0 ==>
                exists j :: 0 <= j < examples && maxSparseDatapoints == sparseEnd[j] - sparseStart[j]
      ensures r.Ok? && old(dirty) && attributes.sparse && examples == 0 ==> maxSparseDatapoints == 0
      ensures !old(dirty) || !attributes.sparse ==>
                sparseDatapointCount == old(sparseDatapointCount) && maxSparseDatapoints == old(maxSparseDatapoints)
      ensures r.Ok? ==> |sparseTransposedStart| == Max(Points(), layerUnits)
      ensures r.Ok? ==> forall i :: 0 <= i < |sparseDatapointCount| ==>
                sparseTransposedStart[i] == Transpose.BucketStart(sparseDatapointCount, newBatch, i)
      ensures r.Ok? ==> forall i :: |sparseDatapointCount| <= i < |sparseTransposedStart| ==>
                sparseTransposedStart[i] == Transpose.Resize(old(sparseTransposedStart), Max(Points(), layerUnits))[i]
      ensures r.Ok? ==>
                sparseTransposedIndices == Max(old(sparseTransposedIndices),
                                               Transpose.BucketStart(sparseDatapointCount, newBatch, |sparseDatapointCount|))
    {
      if dirty {
        var c := CalculateSparseDatapointCounts();
        if c.Err? {
          return Err(c.fault);
        }
        dirty := false;
      }
      Rebucket(newBatch, layerUnits);
      return Ok(true);
    }

    /** The part of GenerateSparseTransposedMatrix after the recount: record the batch,
        resize the start array and fill it with the bucket starts, and grow the capacity. */
    method Rebucket(newBatch: nat, layerUnits: nat)
      requires Valid()
      modifies this`batch, this`sparseTransposedStart, this`sparseTransposedIndices
      ensures Valid()
      ensures batch == newBatch
      ensures |sparseTransposedStart| == Max(Points(), layerUnits)
      ensures forall i :: 0 <= i < |sparseDatapointCount| ==>
                sparseTransposedStart[i] == Transpose.BucketStart(sparseDatapointCount, newBatch, i)
      ensures forall i :: |sparseDatapointCount| <= i < |sparseTransposedStart| ==>
                sparseTransposedStart[i] == Transpose.Resize(old(sparseTransposedStart), Max(Points(), layerUnits))[i]
      ensures sparseTransposedIndices == Max(old(sparseTransposedIndices),
                                             Transpose.BucketStart(sparseDatapointCount, newBatch, |sparseDatapointCount|))
    {
      var n := Max(Points(), layerUnits);
      var starts := Transpose.Resize(sparseTransposedStart, n);
      batch := newBatch;
      var out, offset := Transpose.BucketOffsets(sparseDatapointCount, newBatch, starts);
      sparseTransposedStart := out;
      if offset > sparseTransposedIndices {
        sparseTransposedIndices := offset;
      }
    }

    // ------------------------------------------------------------ sharding

    /** Resets the sharding state. Reassembling the arrays is not part of this model, so
        they are left as they are. */
    method UnShard()
      modifies this`sharding
      ensures sharding == None
    {
      sharding := None;
    }

    /** Model sharding for worker `rank`: record the feature slice and keep its columns. */
    method ShardByFeature(rank: nat, workers: nat) returns (r: Outcome<bool>)
      requires Valid() && workers > 0 && rank < workers
      modifies this`minX, this`maxX, this`sparseStart, this`sparseEnd, this`sparseIndex, this`sparseData, this`data
      ensures Valid()
      ensures minX == ModelShard.SliceBound(width, rank, workers) && maxX == ModelShard.SliceBound(width, rank + 1, workers)
      ensures attributes.sparse ==> r == Ok(true) && data == old(data)
      ensures attributes.sparse ==>
                && sparseIndex == ModelShard.ShardIndex(old(sparseStart), old(sparseEnd), old(sparseIndex), minX, maxX, examples)
                && sparseStart == ModelShard.LocalStarts(old(sparseStart), old(sparseEnd), old(sparseIndex), minX, maxX, examples)
                && sparseEnd == ModelShard.LocalEnds(old(sparseStart), old(sparseEnd), old(sparseIndex), minX, maxX, examples)
      ensures attributes.sparse && !attributes.boolean ==>
                sparseData == ModelShard.ShardValues(old(sparseStart), old(sparseEnd), old(sparseIndex), old(sparseData), minX, maxX, examples)
      ensures !attributes.sparse ==> (r.Ok? <==> Arith.RowStart(examples, width) <= |old(data)|)
      ensures !attributes.sparse && r.Ok? ==> r.value && data == ModelShard.DenseRows(old(data), width, minX, maxX, examples)
      ensures r.Err? ==> r.fault == OutsideStorage && data == old(data)
      ensures !attributes.sparse ==> sparseStart == old(sparseStart) && sparseEnd == old(sparseEnd)
                                     && sparseIndex == old(sparseIndex) && sparseData == old(sparseData)
    {
      var lo, hi := ModelShard.SliceBound(width, rank, workers), ModelShard.SliceBound(width, rank + 1, workers);
      ModelShard.SliceBoundMonotone(width, workers, rank, rank + 1);
      ModelShard.SliceBoundBelowWidth(width, workers, rank + 1);
      minX, maxX := lo, hi;
      if attributes.sparse {
        ShardSparseArrays(lo, hi);
        return Ok(true);
      }
      if Arith.RowStart(examples, width) > |data| {
        return Err(OutsideStorage);
      }
      data := ModelShard.SliceDense(data, examples, width, lo, hi);
      return Ok(true);
    }

    /** The sparse part of model sharding: keep and re-base the entries in [lo, hi). */
    method ShardSparseArrays(lo: nat, hi: nat)
      requires Valid() && attributes.sparse && lo <= hi <= width
      modifies this`sparseStart, this`sparseEnd, this`sparseIndex, this`sparseData
      ensures Valid()
      ensures sparseIndex == ModelShard.ShardIndex(old(sparseStart), old(sparseEnd), old(sparseIndex), lo, hi, examples)
      ensures sparseStart == ModelShard.LocalStarts(old(sparseStart), old(sparseEnd), old(sparseIndex), lo, hi, examples)
      ensures sparseEnd == ModelShard.LocalEnds(old(sparseStart), old(sparseEnd), old(sparseIndex), lo, hi, examples)
      ensures !attributes.boolean ==>
                sparseData == ModelShard.ShardValues(old(sparseStart), old(sparseEnd), old(sparseIndex), old(sparseData), lo, hi, examples)
    {
      var start, end, index, values := sparseStart, sparseEnd, sparseIndex, sparseData;
      if attributes.boolean {
        ModelShard.ShardWellFormed(start, end, index, index, lo, hi);
      } else {
        ModelShard.ShardWellFormed(start, end, index, values, lo, hi);
      }
      var ls, le, li, lv := ModelShard.ShardSparse(start, end, index, values, attributes.boolean, lo, hi);
      sparseStart, sparseEnd, sparseIndex, sparseData := ls, le, li, lv;
    }

    /** Data sharding for worker `rank`: record its example count and keep its dealt rows. */
    method ShardByExample(rank: nat, workers: nat) returns (r: Outcome<bool>)
      requires Valid() && workers > 0 && rank < workers
      modifies this`localExamples, this`data
      ensures Valid()
      ensures localExamples == DataShard.LocalExamples(examples, workers, rank)
      ensures attributes.sparse ==> r == Ok(true) && data == old(data)
      ensures !attributes.sparse ==> (r.Ok? <==> examples * stride <= |old(data)|)
      ensures !attributes.sparse && r.Ok? ==> r.value && data == DataShard.DataShardOf(old(data), stride, examples, workers, rank)
      ensures r.Err? ==> r.fault == OutsideStorage && data == old(data)
    {
      localExamples := DataShard.LocalExamples(examples, workers, rank);
      if attributes.sparse {
        return Ok(true);
      }
      if examples * stride > |data| {
        return Err(OutsideStorage);
      }
      data := DataShard.GatherRows(data, stride, examples, workers, rank);
      return Ok(true);
    }

    /** Shard: nothing to do when already in the target state; otherwise unshard, then
        shard by feature or by example as asked. */
    method Shard(target: Sharding, rank: nat, workers: nat) returns (r: Outcome<bool>)
      requires Valid() && workers > 0 && rank < workers
      modifies this`sharding, this`minX, this`maxX, this`sparseStart, this`sparseEnd, this`sparseIndex,
               this`sparseData, this`data, this`localExamples
      ensures Valid()
      ensures old(sharding) == target ==> r == Ok(true) && unchanged(this)
      ensures r.Ok? ==> r.value && sharding == target
      ensures r.Err? ==> r.fault == OutsideStorage && !attributes.sparse && target != None
      ensures old(sharding) != target && target == Model ==>
                minX == ModelShard.SliceBound(width, rank, workers) && maxX == ModelShard.SliceBound(width, rank + 1, workers)
      ensures old(sharding) != target && target == Model && attributes.sparse ==>
                && sparseIndex == ModelShard.ShardIndex(old(sparseStart), old(sparseEnd), old(sparseIndex), minX, maxX, examples)
                && sparseStart == ModelShard.LocalStarts(old(sparseStart), old(sparseEnd), old(sparseIndex), minX, maxX, examples)
                && sparseEnd == ModelShard.LocalEnds(old(sparseStart), old(sparseEnd), old(sparseIndex), minX, maxX, examples)
      ensures old(sharding) != target && target == Model && attributes.sparse && !attributes.boolean ==>
                sparseData == ModelShard.ShardValues(old(sparseStart), old(sparseEnd), old(sparseIndex), old(sparseData), minX, maxX, examples)
      ensures old(sharding) != target && target == Model && !attributes.sparse ==>
                && (r.Ok? <==> Arith.RowStart(examples, width) <= |old(data)|)
                && (r.Ok? ==> data == ModelShard.DenseRows(old(data), width, minX, maxX, examples))
      ensures old(sharding) != target && target == Data ==> localExamples == DataShard.LocalExamples(examples, workers, rank)
      ensures old(sharding) != target && target == Data && !attributes.sparse ==>
                && (r.Ok? <==> examples * stride <= |old(data)|)
                && (r.Ok? ==> data == DataShard.DataShardOf(old(data), stride, examples, workers, rank))
      ensures target != Model ==> minX == old(minX) && maxX == old(maxX) && sparseIndex == old(sparseIndex)
      ensures target != Model || !attributes.sparse ==>
                sparseStart == old(sparseStart) && sparseEnd == old(sparseEnd) && sparseData == old(sparseData)
      ensures target == None || attributes.sparse || r.Err? ==> data == old(data)
      ensures target != Data ==> localExamples == old(localExamples)
    {
      if target == sharding {
        return Ok(true);
      }
      UnShard();
      r := Reshard(target, rank, workers);
    }

    /** The part of Shard after UnShard: record the target state and shard accordingly. */
    method Reshard(target: Sharding, rank: nat, workers: nat) returns (r: Outcome<bool>)
      requires Valid() && workers > 0 && rank < workers && sharding == None
      modifies this`sharding, this`minX, this`maxX, this`sparseStart, this`sparseEnd, this`sparseIndex,
               this`sparseData, this`data, this`localExamples
      ensures Valid()
      ensures r.Ok? ==> r.value && sharding == target
      ensures r.Err? ==> r.fault == OutsideStorage && !attributes.sparse && target != None
      ensures target == Model ==>
                minX == ModelShard.SliceBound(width, rank, workers) && maxX == ModelShard.SliceBound(width, rank + 1, workers)
      ensures target == Model && attributes.sparse ==>
                && sparseIndex == ModelShard.ShardIndex(old(sparseStart), old(sparseEnd), old(sparseIndex), minX, maxX, examples)
                && sparseStart == ModelShard.LocalStarts(old(sparseStart), old(sparseEnd), old(sparseIndex), minX, maxX, examples)
                && sparseEnd == ModelShard.LocalEnds(old(sparseStart), old(sparseEnd), old(sparseIndex), minX, maxX, examples)
      ensures target == Model && attributes.sparse && !attributes.boolean ==>
                sparseData == ModelShard.ShardValues(old(sparseStart), old(sparseEnd), old(sparseIndex), old(sparseData), minX, maxX, examples)
      ensures target == Model && !attributes.sparse ==>
                && (r.Ok? <==> Arith.RowStart(examples, width) <= |old(data)|)
                && (r.Ok? ==> data == ModelShard.DenseRows(old(data), width, minX, maxX, examples))
      ensures target == Data ==> localExamples == DataShard.LocalExamples(examples, workers, rank)
      ensures target == Data && !attributes.sparse ==>
                && (r.Ok? <==> examples * stride <= |old(data)|)
                && (r.Ok? ==> data == DataShard.DataShardOf(old(data), stride, examples, workers, rank))
      ensures target != Model ==> minX == old(minX) && maxX == old(maxX) && sparseIndex == old(sparseIndex)
      ensures target != Model || !attributes.sparse ==>
                sparseStart == old(sparseStart) && sparseEnd == old(sparseEnd) && sparseData == old(sparseData)
      ensures target == None || attributes.sparse || r.Err? ==> data == old(data)
      ensures target != Data ==> localExamples == old(localExamples)
    {
      if target == Model {
        sharding := Model;
        r := ShardByFeature(rank, workers);
      } else if target == Data {
        sharding := Data;
        r := ShardByExample(rank, workers);
      } else {
        r := Ok(true);
      }
    }

    // ------------------------------------------------------------ denoising

    method SetDenoising(flag: bool) returns (ok: bool)
      modifies this`denoising
      ensures (ok, denoising) == Denoising.SetDenoising(old(denoising), attributes.sparse, flag, |sparseIndex|)
      ensures ok == attributes.sparse
      ensures ok ==> denoising.enabled == flag
    {
      var t := Denoising.SetDenoising(denoising, attributes.sparse, flag, |sparseIndex|);
      ok, denoising := t.0, t.1;
    }
  }
}
