# NNDataSet host-side layout and repartitioning, in Dafny

This project models the host-side core of the `NNDataSet<T>` dataset engine of DSSTNE
(`src/amazon/dsstne/engine/NNDataSet.h`). A dataset holds its training examples in one
of two forms: a dense row-major array `_vData`, or a per-example CSR layout. The CSR
layout is made of `_vSparseStart`, `_vSparseEnd` and a shared `_vSparseIndex` of feature
ids, plus `_vSparseData` values unless the dataset is Boolean. The model covers:

- loading an accepted dataset into the `Engine.DataSet` state, and the bounds-checked
  point accessors (`Engine.DataSet`, `Layout`);
- the per-feature nonzero histogram and the largest per-example count (`Statistics`);
- the warp-aligned bucket offsets of the transposed view (`Transpose`);
- the pure slicing part of `Shard`, with the worker's shard as a function of the whole
  dataset, its rank and the worker count. Model sharding is in `ModelShard` and Data
  sharding in `DataShard`. The `None`/`Data`/`Model` state machine is in `Engine.DataSet`;
- the loader's header checks (`Header`) and its Boolean one-hot expansion (`Expansion`);
- the kernel choice of the error and output-delta members, and the MPI/NetCDF type tags
  (`Dispatch`);
- the denoising flag and buffer state (`Denoising`).

Every fatal exit of the source (`getGpu().Shutdown(); exit(-1)`) becomes an
`Err(fault)` outcome. Two accesses are not guarded in the source: an index past the end
of a vector, and a use of a device buffer pointer that is still NULL. Both are undefined
behaviour in C++, and the model stops there with `Err(OutsideStorage)` or
`Err(NullBuffer)`. The model does not return an invented value in those cases. This matters after sharding, because
`_examples` stays the global count while `_vData` holds only the local rows. A dense
getter can then pass every check and still read past the end of the vector.

The worker rank and worker count come from a global GPU/MPI context in the source. In
the model they are explicit parameters. The layer's local unit count, used by
`GenerateSparseTransposedMatrix`, is a parameter as well.

Files: `common.dfy` (outcomes, flags), `arith.dfy` and `blocks.dfy` (shared
arithmetic and block-layout lemmas), `layout.dfy`, `statistics.dfy`, `transpose.dfy`,
`model_shard.dfy`, `data_shard.dfy`, `header.dfy`, `expansion.dfy`, `dispatch.dfy`,
`denoising.dfy`, `engine.dfy` (the `DataSet` class that owns the state).

## Model

| member | source | states |
|---|---|---|
| Engine.DataSet.constructor | src/amazon/dsstne/engine/NNDataSet.h:474-581 | the state after reading an accepted header's arrays satisfies the class invariant, with the header's shape, the sparse arrays or the dense array as read, the dense stride width*height*length, unsharded, dirty, and every member the loader does not set (counts, maximum, transposed layout, slice, local example count) empty or zero |
| Engine.DataSet.Load | src/amazon/dsstne/engine/NNDataSet.h:348-621 | loading yields a valid, unsharded dataset; sparse data loads exactly when its offsets stay inside the index array and every id is below width, and then carries the histogram and the largest per-example count (a bound on every example's count, attained by one, 0 with no examples); dense data loads with no counts and a maximum of 0; dense Boolean data is the one-hot expansion or outside storage |
| Engine.DataSet.GetDataPoint | src/amazon/dsstne/engine/NNDataSet.h:121-157 | fatal on a sparse dataset, on n >= examples and on any coordinate beyond width/height/length, in that order; otherwise the value at n*stride + x + width*(y + z*height), a cell inside the example's own block |
| Engine.DataSet.SetDataPoint | src/amazon/dsstne/engine/NNDataSet.h:159-195 | same guards as the getter; on success exactly that one cell becomes v and a subsequent get returns v; on a fault nothing changes |
| Layout.DensePositionsDistinct | src/amazon/dsstne/engine/NNDataSet.h:156 | every in-range (n, x, y, z) maps below examples*stride and distinct coordinate tuples map to distinct cells |
| Layout.DenseWriteIsolated | src/amazon/dsstne/engine/NNDataSet.h:194 | writing one datapoint leaves every other in-range datapoint unchanged |
| Engine.DataSet.GetSparseDataPoints | src/amazon/dsstne/engine/NNDataSet.h:197-222 | fatal on dense data or n >= examples; otherwise end[n] - start[n], an entry count that fits in the index array |
| Layout.SparseSlot | src/amazon/dsstne/engine/NNDataSet.h:224-260 | the slot of local entry i of example n is start[n] + i, inside [start[n], end[n]), and exists exactly when the dataset is sparse, n < examples and i < end[n] - start[n] |
| Engine.DataSet.GetSparseIndex | src/amazon/dsstne/engine/NNDataSet.h:224-260 | fatal exactly when GetSparseDataPoints is fatal or i >= its count; otherwise index[start[n] + i] |
| Engine.DataSet.GetSparseDataPoint | src/amazon/dsstne/engine/NNDataSet.h:291-317 | with the local-index check added, data[start[n] + i]; on a Boolean dataset, whose value array is empty, the read falls outside storage |
| Engine.DataSet.SetSparseIndex | src/amazon/dsstne/engine/NNDataSet.h:262-289 | with the local-index check added, changes only index[start[n] + i], sets dirty, and a following GetSparseIndex returns v; a fault changes nothing |
| Engine.DataSet.SetSparseDataPoint | src/amazon/dsstne/engine/NNDataSet.h:319-346 | with the local-index check added, changes only data[start[n] + i] and sets dirty; a fault changes nothing |
| Layout.SparseSlotAsWritten | src/amazon/dsstne/engine/NNDataSet.h:262-346 | the slot the three unguarded sparse accessors use: only the kind and example checks, no bound on i |
| Layout.SlotAsWrittenEscapesExample | src/amazon/dsstne/engine/NNDataSet.h:285-287 | without the local-index check, entry 1 of a one-entry example addresses the next example's entry |
| Statistics.CountFeatures | src/amazon/dsstne/engine/NNDataSet.h:636-652 | fatal exactly when some stored feature id is >= width; otherwise the count of x is the number of occurrences of x in the index array, for each of the width*height*length features |
| Statistics.HistogramTotal | src/amazon/dsstne/engine/NNDataSet.h:636-652 | when every id is in range, the histogram's counts add up to the number of stored entries |
| Statistics.MaxPerExample | src/amazon/dsstne/engine/NNDataSet.h:655-663 | the result bounds end[i] - start[i] for every example and equals it for some example (0 with no examples) |
| Engine.DataSet.CalculateSparseDatapointCounts | src/amazon/dsstne/engine/NNDataSet.h:631-687 | on dense data returns false and changes nothing; on sparse data the count array becomes the histogram of the index array and the maximum the largest per-example count, or the call is fatal on an id >= width |
| Transpose.BucketStart | src/amazon/dsstne/engine/NNDataSet.h:712-719 | every bucket start, with the 32-bit offset wrapping as in the source, is a multiple of 32 below 2^32, and bucket 0 starts at 0 |
| Transpose.NoWrapAgrees | src/amazon/dsstne/engine/NNDataSet.h:712-719 | while the total fits in 32 bits the wrapping loop equals the running sum of min(batch, count[i]) rounded up to a multiple of 32 |
| Transpose.BucketCapacity | src/amazon/dsstne/engine/NNDataSet.h:712-719 | bucket i is at least min(batch, count[i]) wide and wastes fewer than 32 slots on alignment |
| Transpose.BucketOffsets | src/amazon/dsstne/engine/NNDataSet.h:712-719 | the loop writes BucketStart i into starts[i] for every counted feature, leaves the rest, and returns the final offset |
| Engine.DataSet.GenerateSparseTransposedMatrix | src/amazon/dsstne/engine/NNDataSet.h:690-733 | recounts when dirty and clears dirty, leaving the histogram and the largest per-example count (counts and maximum unchanged otherwise); batch becomes the new batch; the start array is resized to max(points, layer units) and holds the bucket starts; the capacity becomes max(old, final offset) and never shrinks |
| Engine.DataSet.Rebucket | src/amazon/dsstne/engine/NNDataSet.h:699-732 | after the recount: batch becomes the new batch; the start array holds max(points, layer units) entries, the bucket starts first and the resized old array after them; the capacity becomes max(old capacity, final offset) |
| ModelShard.SliceBoundEnds | src/amazon/dsstne/engine/NNDataSet.h:1043-1044 | the first slice starts at 0 and the last ends at width |
| ModelShard.SliceBoundMonotone | src/amazon/dsstne/engine/NNDataSet.h:1053-1054 | the slice bounds floor(width*i/P) never decrease with i |
| ModelShard.SlicesPartition | src/amazon/dsstne/engine/NNDataSet.h:1043-1054 | every feature id below width lies in the slice of exactly one worker |
| ModelShard.KeepEntries | src/amazon/dsstne/engine/NNDataSet.h:1061-1072 | the inner loop keeps the entries of one example in [xmin, xmax), shifted down by xmin, with their values unless Boolean |
| ModelShard.RebaseIsOrderedFilter | src/amazon/dsstne/engine/NNDataSet.h:1061-1072 | the kept list is exactly the in-range entries in original order minus xmin, values stay parallel, and no in-range entry is dropped |
| ModelShard.ShardSparse | src/amazon/dsstne/engine/NNDataSet.h:1057-1074 | the per-example loop produces the concatenated kept lists with local start/end offsets recorded before and after each example |
| ModelShard.ShardNext | src/amazon/dsstne/engine/NNDataSet.h:1061-1073 | one pass of the per-example loop turns the local arrays and offsets of the first j examples into those of the first j + 1 |
| ModelShard.ShardLayout | src/amazon/dsstne/engine/NNDataSet.h:1059-1073 | the local offsets are a CSR layout: start[0] == 0, start[j] == end[j-1], and end[j] - start[j] is the number of in-range entries of example j |
| ModelShard.ShardExample | src/amazon/dsstne/engine/NNDataSet.h:1059-1073 | example j's slice of the local index array is exactly its kept, re-based list |
| ModelShard.ShardIndicesInSlice | src/amazon/dsstne/engine/NNDataSet.h:1066 | every local feature id lies in [0, xmax - xmin) |
| ModelShard.CoordinatorNeedsNoRebase | src/amazon/dsstne/engine/NNDataSet.h:1099-1114 | worker 0's slice starts at 0, so its unshifted filter equals the re-based kept list |
| ModelShard.ShardsReassemble | src/amazon/dsstne/engine/NNDataSet.h:1059-1114 | adding each worker's origin back and merging all P shards gives back the same multiset of entries as the example holds when every id is below width |
| ModelShard.SliceDense | src/amazon/dsstne/engine/NNDataSet.h:1161-1169 | the dense slicing loops produce DenseRows: per example, columns [xmin, xmax) of its width-long row |
| ModelShard.FillDense | src/amazon/dsstne/engine/NNDataSet.h:1165-1169 | the copy loops leave the local array equal to DenseRows of all examples |
| ModelShard.DenseRowsAt | src/amazon/dsstne/engine/NNDataSet.h:1165-1167 | local[j*slice + k] == data[j*width + xmin + k] for every example j and k < slice |
| ModelShard.DenseRowsLength | src/amazon/dsstne/engine/NNDataSet.h:1164 | the dense model shard holds examples * slice values |
| Engine.DataSet.ShardByFeature | src/amazon/dsstne/engine/NNDataSet.h:1040-1203 | sets [minX, maxX) to worker rank's slice and replaces the arrays by the sparse or dense model shard; a dense array too short for examples*width is outside storage |
| DataShard.LocalExamplesSum | src/amazon/dsstne/engine/NNDataSet.h:1213-1215 | the per-worker counts E/P + (E%P > i) add up to E |
| DataShard.RoundRobinCount | src/amazon/dsstne/engine/NNDataSet.h:1213-1228 | worker i's k-th row i + k*P exists exactly when k < its local example count |
| DataShard.ExampleOwner | src/amazon/dsstne/engine/NNDataSet.h:1223-1228 | row x is dealt to worker i exactly when x < E and x % P == i |
| DataShard.GatherRows | src/amazon/dsstne/engine/NNDataSet.h:1218-1229 | the dealing loop copies rows i, i+P, i+2P, ... in increasing order as whole stride-long blocks, LocalExamples*stride values in all |
| DataShard.ShardsPartitionExamples | src/amazon/dsstne/engine/NNDataSet.h:1213-1240 | row j lives on worker j % P only, as block j / P of that worker's shard |
| DataShard.CoordinatorShardAsWritten | src/amazon/dsstne/engine/NNDataSet.h:1239-1240 | the coordinator's own shard as written: its array truncated to LocalExamples(0) * stride |
| DataShard.CoordinatorAsWrittenLosesExample | src/amazon/dsstne/engine/NNDataSet.h:1239-1240 | with 4 examples on 2 workers the truncation keeps rows 0 and 1, so row 2 is on no worker and row 1 on two |
| Engine.DataSet.ShardByExample | src/amazon/dsstne/engine/NNDataSet.h:1208-1256 | records LocalExamples of the rank and replaces the dense array by the rank's round-robin rows; rank 0 too keeps its round-robin rows (the corrected shard), not the truncation of line 1240 |
| Engine.DataSet.UnShard | src/amazon/dsstne/engine/NNDataSet.h:1021 | always ends with sharding None |
| Engine.DataSet.Shard | src/amazon/dsstne/engine/NNDataSet.h:1030-1260 | a no-op returning true when already in the target state; otherwise unshard then shard, after which sharding is the target and the arrays are the model shard (sparse offsets, index and values, or dense rows) or the data shard; a dense shard faults with outside storage exactly when the array is too short for it; arrays the branch does not touch, and the dense array on a fault, are unchanged |
| Engine.DataSet.Reshard | src/amazon/dsstne/engine/NNDataSet.h:1039-1257 | from the unsharded state, the Model and Data branches record the target and build that shard (the whole sparse model shard or the dense rows, or the round-robin rows), faulting on dense data exactly when the array is too short for the shard; arrays the branch does not touch are unchanged |
| Header.CheckHeader | src/amazon/dsstne/engine/NNDataSet.h:365-560 | accepts exactly the headers with every required field present, examples > 0, dimensions in [1,3], positive extents (height and length 1 below 2 and 3 dimensions), a nonzero sparse count and the sparse variables for sparse data, and the data dimension for dense data; each rejection names the first failed check |
| Expansion.Expand | src/amazon/dsstne/engine/NNDataSet.h:563-572 | the expansion loop yields the zeroed array with one written at i*size + hot[i] per example, or runs outside storage |
| Expansion.OneHot | src/amazon/dsstne/engine/NNDataSet.h:563-572 | with every stored id below the block size, position x of example j's block is one exactly when x is j's id |
| Dispatch.ErrorKernel | src/amazon/dsstne/engine/NNDataSet.h:1584-1726 | the data-scaled-marginal error is fatal on dense or Boolean data and every other combination picks a kernel; the kernel reads only arrays the dataset has; it gets the ignore-zero flag exactly on sparse non-multinomial costs |
| Dispatch.DeltaKernelAsWritten | src/amazon/dsstne/engine/NNDataSet.h:1728-1805 | the delta choices as written: the data-scaled delta is fatal on dense data and dereferences the unallocated value buffer on sparse Boolean data |
| Dispatch.DataScaledDeltaAsWrittenReadsMissingValues | src/amazon/dsstne/engine/NNDataSet.h:1790-1798 | on sparse Boolean data the data-scaled delta reads the value buffer a Boolean dataset never loads, while the matching error member rejects that data |
| Dispatch.DeltaKernel | src/amazon/dsstne/engine/NNDataSet.h:1728-1805 | the corrected delta choice: fatal only for the data-scaled delta on dense or Boolean data, and every chosen kernel reads arrays the dataset has |
| Dispatch.DeltaMatchesError | src/amazon/dsstne/engine/NNDataSet.h:1702-1805 | a delta member is available exactly where its error member is, and differs from the as-written table only on sparse Boolean data-scaled |
| Dispatch.MpiDataType | src/amazon/dsstne/engine/NNDataSet.h:775-805 | each element type maps to the MPI type of the same width, signedness and kind |
| Dispatch.NetCdfDataType | src/amazon/dsstne/engine/NNDataSet.h:807-830 | each element type maps to the NetCDF type of the same width, signedness and kind |
| Dispatch.TypeTagsAgree | src/amazon/dsstne/engine/NNDataSet.h:775-830 | both maps are injective and agree on the element they carry |
| Denoising.SetDenoisingAsWritten | src/amazon/dsstne/engine/NNDataSet.h:736-759 | false and no change on dense data; turning on allocates one random per stored entry but leaves the flag clear |
| Denoising.AsWrittenNeverEnables | src/amazon/dsstne/engine/NNDataSet.h:752-757 | from a cleared flag, no sequence of calls ever sets it |
| Denoising.SetDenoising | src/amazon/dsstne/engine/NNDataSet.h:736-759 | the corrected member: succeeds exactly on sparse data and then leaves the flag equal to the request, with a fresh buffer when turned on |
| Denoising.EnableDisable | src/amazon/dsstne/engine/NNDataSet.h:736-759 | with the correction, enabling then disabling returns to a disabled state without a buffer, and enabling twice equals enabling once |
| Denoising.GenerateDenoisingData | src/amazon/dsstne/engine/NNDataSet.h:761-773 | false on dense data; on sparse data it needs the buffer SetDenoising allocated, and dereferences NULL otherwise |
| Engine.DataSet.SetDenoising | src/amazon/dsstne/engine/NNDataSet.h:736-759 | the dataset's denoising state follows the corrected transition; the call succeeds exactly on sparse data |

## Left out

- MPI traffic is not modelled: `MPI_Bcast`, `MPI_Send`/`MPI_Recv`, `MPI_Allreduce` and `MPI_Allgather`. A worker's shard is a function of the whole dataset, its rank and the worker count. The cross-worker maximum of `_maxSparseDatapoints` (line 664) is left out, so the model's maximum is the local one.
- GPU buffers (`GpuBuffer` allocation, `Upload`, `Download`, `Copy`) and every `k*` kernel (lines 1481-1805) are foreign CUDA code. The dispatcher is modelled only as the choice of kernel and of the arrays it reads. The transposed scatter, `CalculateSparseTransposedMatrix` and the input-loading members are left out.
- `curandGenerateUniform` (line 771) is randomness. `GenerateDenoisingData` models only the guard and the buffer it needs.
- NetCDF file I/O is not modelled: the reading in the constructor, `SaveNetCDF` and `WriteNetCDF`. The header checks are a pure function of the fields read. A save/load round trip is not stated, because `WriteNetCDF` writes nothing for dense data (lines 1443-1446).
- The 32-bit and 64-bit encodings of `sparseStart`/`sparseEnd` (lines 514-533) are file decoding. They are not part of this model.
- `_sparseDensity` (line 677) is double-precision division.
- `getMemoryUsage` is an MPI gather. It is not part of this model.
- Engine.DataSet.UnShard: the merge of the shards back onto the coordinator (lines 832-1020) is not modelled. The method only resets the sharding state and leaves the arrays as they are. The source's merge subtracts `xmin` instead of adding it (lines 858-859). It copies from the target position instead of the source position (lines 890-895) and resets the peer read cursor for every example (lines 921-933). Its Data branch is empty (lines 1017-1020). So `Shard` followed by `UnShard` is not claimed to be the identity. `ModelShard.ShardsReassemble` states what a correct merge would have to rebuild.
- Engine.DataSet.Shard: the postcondition speaks of the arrays the method finds, not of a reassembled dataset, because UnShard does not reassemble.
- Engine.DataSet.ShardByExample: on sparse data the source's Data branch touches only `_vData`, and so does the model. Sparse arrays are not distributed by example.
- Engine.DataSet.CalculateSparseDatapointCounts: `width*height*length` is computed without the 32-bit wrap of the source's `uint32_t` product.
- Engine.DataSet.GetDataPoint: the position `n*stride + x + width*(y + z*height)` (line 156) is taken without the 32-bit wrap of the source's `uint32_t` arithmetic, so the block bound holds only while the product fits in 32 bits.
- Engine.DataSet.SetDataPoint: the same position (line 194) is taken without the 32-bit wrap.
- Engine.DataSet.Rebucket: `NData` and `NLayer` (lines 699 and 702) are taken without the 32-bit wrap of their `uint32_t` products.
- Engine.DataSet.ShardByFeature: `_examples * slice` (line 1164) is taken without the 32-bit wrap.
- Engine.DataSet.ShardByExample: `localExamples * _stride` and `_localExamples * _stride` (lines 1223 and 1240) are taken without the 32-bit wrap.
- Engine.DataSet.ShardByExample: rank 0 is given its round-robin rows, the corrected shard. The truncation of line 1240 is modelled apart, by `DataShard.CoordinatorShardAsWritten`.
- Engine.DataSet.Load: the loader does not check that `sparseStart[j] <= sparseEnd[j] <= |sparseIndex|` (lines 514-534); a file that breaks it makes the accessors read outside the index array. The model refuses such a layout at load with `Err(OutsideStorage)` and keeps it as the class invariant. The loader's own defaults for the members it does not set belong to the base class, which is not part of this model; the constructor takes them as empty or zero (including the local example count, which only data sharding sets, at line 1215), dirty, unsharded and denoising off.
- Expansion.Expand: the stored ids have the element type `T` in the source (lines 569-571); the model takes them as naturals, so a negative or fractional stored id is not modelled.
- ModelShard.DenseRows: the dense model shard uses `_width` as the row pitch, as lines 1169 and 1188 write it, not `_stride`. For dense data with a height or length above 1 this slices cells of the wrong rows; the model reproduces the source and claims no correct slice of 2-D or 3-D data.
- `printf`/`cout` diagnostics are left out, including the attribute-printing loop with `ffs` (lines 394-402). So is the warning when the maximum exceeds the fast-kernel limit (lines 667-674).
- `Rename`, the destructor and `getNetCDFDataType`'s use in the writer are not modelled. The type map itself is in `Dispatch.NetCdfDataType`.

## Findings

| source | as written | input that shows it | evidently intended | confidence | as-written member | corrected member |
|---|---|---|---|---|---|---|
| src/amazon/dsstne/engine/NNDataSet.h:1239-1240 | the coordinator keeps its first `_localExamples` rows after dealing rows i, i+P, ... to the other workers | 4 examples, 2 workers: the coordinator keeps rows 0 and 1 and worker 1 gets rows 1 and 3, so row 2 is lost and row 1 duplicated | the coordinator keeps rows 0, P, 2P, ... like every other worker | high, not executed | DataShard.CoordinatorAsWrittenLosesExample | DataShard.ShardsPartitionExamples |
| src/amazon/dsstne/engine/NNDataSet.h:262-346 | `SetSparseIndex`, `GetSparseDataPoint` and `SetSparseDataPoint` check the kind and the example but not `i < end[n] - start[n]` | starts [0, 1], ends [1, 2], n = 0, i = 1: the slot is example 1's entry | the local-index check that `GetSparseIndex` makes (lines 248-256) | medium, not executed | Layout.SlotAsWrittenEscapesExample | Engine.DataSet.SetSparseIndex |
| src/amazon/dsstne/engine/NNDataSet.h:752-757 | turning denoising on allocates the buffer but never sets `_bDenoising` | any sparse dataset, `SetDenoising(true)` then `SetDenoising(false)`: the buffer is not freed and the flag stays clear | `_bDenoising = true` when turned on | high, not executed | Denoising.AsWrittenNeverEnables | Denoising.EnableDisable |
| src/amazon/dsstne/engine/NNDataSet.h:1790-1798 | the data-scaled delta on sparse data always passes `_pbSparseData`, which a Boolean dataset never allocates | a sparse Boolean dataset: the pointer dereferenced is NULL | reject sparse Boolean data as the error member does (lines 1706-1711) | medium, not executed | Dispatch.DataScaledDeltaAsWrittenReadsMissingValues | Dispatch.DeltaMatchesError |
