/** The choice of device kernel behind the Calculate*Error and Calculate*OutputDelta
    members, and the element type tags used for MPI messages and NetCDF variables. The
    kernels themselves are not part of this model; only which one is chosen, and which of
    the dataset's arrays it reads. */
module Dispatch {
  import opened Common

  datatype Cost =
    | L1 | L2 | CrossEntropy | ScaledMarginalCrossEntropy
    | MultinomialCrossEntropy | MultinomialScaledMarginalCrossEntropy
    | DataScaledMarginalCrossEntropy

  /** The output-delta members: one per supported cost, plus the generic OutputDelta. */
  datatype Delta =
    | L1Delta | CrossEntropyDelta | ScaledMarginalCrossEntropyDelta | OutputDelta
    | DataScaledMarginalCrossEntropyDelta

  /** Which arrays a kernel reads: the dense data, the sparse start/end/index arrays only,
      or those and the sparse values. */
  datatype Input = DenseData | SparseIndices | SparseValues

  /** A chosen kernel: the input it reads and whether it is handed the SparseIgnoreZero
      flag (only the sparse kernels that take that parameter are). */
  datatype Kernel = Kernel(input: Input, passesIgnoreZero: bool)

  /** The arrays a dataset with these attributes has loaded: dense data, or sparse
      indices, and sparse values only when the data is not Boolean. */
  predicate Loaded(a: Attributes, input: Input)
  {
    match input
    case DenseData => !a.sparse
    case SparseIndices => a.sparse
    case SparseValues => a.sparse && !a.boolean
  }

  function SparseKernel(a: Attributes, analog: bool, ignoreZero: bool): Kernel
  {
    Kernel(if analog then SparseValues else SparseIndices, ignoreZero)
  }

  /** The kernel each Calculate*Error member selects. */
  function ErrorKernel(c: Cost, a: Attributes): (r: Outcome<Kernel>)
    ensures r.Err? <==> c == DataScaledMarginalCrossEntropy && (!a.sparse || a.boolean)
    ensures r.Err? ==> r.fault == UnsupportedCost
    ensures r.Ok? ==> Loaded(a, r.value.input)
    ensures r.Ok? ==> (r.value.input == DenseData <==> !a.sparse)
    ensures r.Ok? && a.sparse && !a.boolean && c != CrossEntropy && c != ScaledMarginalCrossEntropy
            ==> r.value.input == SparseValues
    ensures r.Ok? ==> (r.value.passesIgnoreZero <==>
              a.sparse && c != MultinomialCrossEntropy && c != MultinomialScaledMarginalCrossEntropy)
  {
    if !a.sparse then
      if c == DataScaledMarginalCrossEntropy then Err(UnsupportedCost) else Ok(Kernel(DenseData, false))
    else
      match c
      case L1 | L2 => Ok(SparseKernel(a, !a.boolean, true))
      case CrossEntropy | ScaledMarginalCrossEntropy => Ok(SparseKernel(a, false, true))
      case MultinomialCrossEntropy | MultinomialScaledMarginalCrossEntropy => Ok(SparseKernel(a, !a.boolean, false))
      case DataScaledMarginalCrossEntropy =>
        if a.boolean then Err(UnsupportedCost) else Ok(SparseKernel(a, true, true))
  }

  /** The kernel each Calculate*OutputDelta member selects, as written: the
      data-scaled delta on sparse data always reads the sparse values, which a Boolean
      dataset never loads, so its buffer pointer is still NULL. */
  function DeltaKernelAsWritten(d: Delta, a: Attributes): (r: Outcome<Kernel>)
    ensures r.Err? <==> d == DataScaledMarginalCrossEntropyDelta && (!a.sparse || a.boolean)
    ensures r == Err(NullBuffer) <==> d == DataScaledMarginalCrossEntropyDelta && a.sparse && a.boolean
  {
    if !a.sparse then
      if d == DataScaledMarginalCrossEntropyDelta then Err(UnsupportedCost) else Ok(Kernel(DenseData, false))
    else
      match d
      case L1Delta | CrossEntropyDelta | ScaledMarginalCrossEntropyDelta => Ok(SparseKernel(a, false, true))
      case OutputDelta => Ok(SparseKernel(a, !a.boolean, true))
      case DataScaledMarginalCrossEntropyDelta =>
        if a.boolean then Err(NullBuffer) else Ok(SparseKernel(a, true, true))
  }

  /** On a sparse Boolean dataset the data-scaled delta dereferences the unallocated
      sparse-value buffer, where the matching error member stops with a message. */
  lemma DataScaledDeltaAsWrittenReadsMissingValues()
    ensures var a := Attributes(true, true, false);
      && DeltaKernelAsWritten(DataScaledMarginalCrossEntropyDelta, a) == Err(NullBuffer)
      && !Loaded(a, SparseValues)
      && ErrorKernel(DataScaledMarginalCrossEntropy, a) == Err(UnsupportedCost)
  {
  }

  /** The delta kernel with the data-scaled case on sparse Boolean data rejected like the
      error member rejects it. */
  function DeltaKernel(d: Delta, a: Attributes): (r: Outcome<Kernel>)
    ensures r.Err? <==> d == DataScaledMarginalCrossEntropyDelta && (!a.sparse || a.boolean)
    ensures r.Err? ==> r.fault == UnsupportedCost
    ensures r.Ok? ==> Loaded(a, r.value.input)
    ensures r.Ok? ==> (r.value.input == DenseData <==> !a.sparse)
    ensures r.Ok? ==> (r.value.passesIgnoreZero <==> a.sparse)
  {
    var w := DeltaKernelAsWritten(d, a);
    if w == Err(NullBuffer) then Err(UnsupportedCost) else w
  }

  /** The cost whose error member matches each dedicated delta member. */
  function ErrorOf(d: Delta): Cost
  {
    match d
    case L1Delta => L1
    case CrossEntropyDelta => CrossEntropy
    case ScaledMarginalCrossEntropyDelta => ScaledMarginalCrossEntropy
    case OutputDelta => L2
    case DataScaledMarginalCrossEntropyDelta => DataScaledMarginalCrossEntropy
  }

  /** With the correction, a delta member is available exactly on the data its error
      member accepts, and both differ from the as-written table only on that one case. */
  lemma DeltaMatchesError(d: Delta, a: Attributes)
    ensures DeltaKernel(d, a).Ok? <==> ErrorKernel(ErrorOf(d), a).Ok?
    ensures DeltaKernel(d, a) != DeltaKernelAsWritten(d, a) <==>
              d == DataScaledMarginalCrossEntropyDelta && a.sparse && a.boolean
  {
  }

  // ---------------------------------------------------------------- element types

  datatype DataType = UInt | Int | ULLInt | LLInt | Float | Double

  datatype MpiType = MpiUInt32 | MpiInt32 | MpiUInt64 | MpiInt64 | MpiFloat | MpiDouble

  datatype NcType = NcUint | NcInt | NcUint64 | NcInt64 | NcFloat | NcDouble

  /** The shape of an element: its width in bits, and whether it is signed or floating point. */
  datatype Element = Element(bits: nat, signed: bool, floating: bool)

  function ElementOf(t: DataType): Element
  {
    match t
    case UInt => Element(32, false, false)
    case Int => Element(32, true, false)
    case ULLInt => Element(64, false, false)
    case LLInt => Element(64, true, false)
    case Float => Element(32, true, true)
    case Double => Element(64, true, true)
  }

  function MpiElement(t: MpiType): Element
  {
    match t
    case MpiUInt32 => Element(32, false, false)
    case MpiInt32 => Element(32, true, false)
    case MpiUInt64 => Element(64, false, false)
    case MpiInt64 => Element(64, true, false)
    case MpiFloat => Element(32, true, true)
    case MpiDouble => Element(64, true, true)
  }

  function NcElement(t: NcType): Element
  {
    match t
    case NcUint => Element(32, false, false)
    case NcInt => Element(32, true, false)
    case NcUint64 => Element(64, false, false)
    case NcInt64 => Element(64, true, false)
    case NcFloat => Element(32, true, true)
    case NcDouble => Element(64, true, true)
  }

  /** The MPI datatype used when shards of a dataset are sent. */
  function MpiDataType(t: DataType): (r: MpiType)
    ensures MpiElement(r) == ElementOf(t)
  {
    match t
    case UInt => MpiUInt32
    case Int => MpiInt32
    case ULLInt => MpiUInt64
    case LLInt => MpiInt64
    case Float => MpiFloat
    case Double => MpiDouble
  }

  /** The NetCDF type of a dataset's data variable. */
  function NetCdfDataType(t: DataType): (r: NcType)
    ensures NcElement(r) == ElementOf(t)
  {
    match t
    case UInt => NcUint
    case Int => NcInt
    case ULLInt => NcUint64
    case LLInt => NcInt64
    case Float => NcFloat
    case Double => NcDouble
  }

  /** Distinct element types get distinct tags, and a message and a file agree on the
      element they carry. */
  lemma TypeTagsAgree(t: DataType, u: DataType)
    ensures MpiElement(MpiDataType(t)) == NcElement(NetCdfDataType(t))
    ensures MpiDataType(t) == MpiDataType(u) ==> t == u
    ensures NetCdfDataType(t) == NetCdfDataType(u) ==> t == u
  {
  }
}
