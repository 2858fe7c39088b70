/** The checks the loader applies to the header of one dataset in a NetCDF file, as a
    pure function of the header fields that were found (reading the file is not part of
    this model). A missing attribute, dimension or variable is None; any failed check
    throws inside the loader, which makes every process exit. */
module Header {
  import opened Common

  /** What the loader looks up for dataset n, already decoded. */
  datatype Fields = Fields(
    name: Maybe<string>,
    dataType: Maybe<int>,
    attributes: Maybe<Attributes>,
    examples: Maybe<nat>,
    dimensions: Maybe<nat>,
    width: Maybe<nat>,
    height: Maybe<nat>,
    length: Maybe<nat>,
    sparseDataSize: Maybe<nat>,
    hasSparseStart: bool,
    hasSparseEnd: bool,
    hasSparseIndex: bool,
    hasSparseData: bool,
    dataSize: Maybe<nat>)

  /** The failed check, in the order the loader makes them. */
  datatype HeaderError =
    | NoName | NoDataType | NoAttributes | NoExamples | ZeroExamples
    | NoDimensions | BadDimensions | NoWidth | NoHeight | NoLength | ZeroExtent
    | NoSparseDataSize | EmptySparseData | NoSparseStart | NoSparseEnd | NoSparseIndex
    | NoSparseData | NoDataSize

  /** The shape of an accepted dataset; height and length default to 1 below 2 and 3 dimensions. */
  datatype Shape = Shape(attributes: Attributes, examples: nat, dimensions: nat,
                         width: nat, height: nat, length: nat)

  /** The extent the loader uses for the height (or length): read only when the dataset
      has more than `below` dimensions, and 1 otherwise. */
  function Extent(dimensions: nat, below: nat, field: Maybe<nat>): Maybe<nat>
  {
    if dimensions > below then field else Found(1)
  }

  /** Every required field is present and every value within range. */
  predicate Acceptable(h: Fields)
  {
    && h.name.Found? && h.dataType.Found? && h.attributes.Found?
    && h.examples.Found? && h.examples.value > 0
    && h.dimensions.Found? && 1 <= h.dimensions.value <= 3
    && h.width.Found? && h.width.value > 0
    && Extent(h.dimensions.value, 1, h.height).Found? && Extent(h.dimensions.value, 1, h.height).value > 0
    && Extent(h.dimensions.value, 2, h.length).Found? && Extent(h.dimensions.value, 2, h.length).value > 0
    && (h.attributes.value.sparse ==>
          && h.sparseDataSize.Found? && h.sparseDataSize.value > 0
          && h.hasSparseStart && h.hasSparseEnd && h.hasSparseIndex
          && (!h.attributes.value.boolean ==> h.hasSparseData))
    && (!h.attributes.value.sparse ==> h.dataSize.Found?)
  }

  /** The header checks of the loader, in order. */
  function CheckHeader(h: Fields): (r: Result)
    ensures r.Accepted? <==> Acceptable(h)
    ensures r.Accepted? ==> r.shape == Shape(h.attributes.value, h.examples.value, h.dimensions.value,
                                             h.width.value, Extent(h.dimensions.value, 1, h.height).value,
                                             Extent(h.dimensions.value, 2, h.length).value)
    ensures r.Accepted? ==> r.shape.width >= 1 && r.shape.height >= 1 && r.shape.length >= 1
    ensures r.Accepted? && r.shape.dimensions < 3 ==> r.shape.length == 1
    ensures r.Accepted? && r.shape.dimensions < 2 ==> r.shape.height == 1
    ensures r == Rejected(ZeroExamples) <==> h.name.Found? && h.dataType.Found? && h.attributes.Found? && h.examples == Found(0)
    ensures r == Rejected(BadDimensions) ==> h.dimensions.Found? && (h.dimensions.value < 1 || h.dimensions.value > 3)
    ensures r == Rejected(ZeroExtent) ==> h.width.Found? && (h.width.value == 0 || h.height == Found(0) || h.length == Found(0))
    ensures r == Rejected(EmptySparseData) ==> h.attributes.Found? && h.attributes.value.sparse && h.sparseDataSize == Found(0)
    ensures r == Rejected(NoSparseData) ==> h.attributes.Found? && h.attributes.value.sparse && !h.attributes.value.boolean && !h.hasSparseData
    ensures r == Rejected(NoDataSize) ==> h.attributes.Found? && !h.attributes.value.sparse && h.dataSize.Missing?
  {
    if h.name.Missing? then Rejected(NoName)
    else if h.dataType.Missing? then Rejected(NoDataType)
    else if h.attributes.Missing? then Rejected(NoAttributes)
    else if h.examples.Missing? then Rejected(NoExamples)
    else if h.examples.value == 0 then Rejected(ZeroExamples)
    else if h.dimensions.Missing? then Rejected(NoDimensions)
    else if h.dimensions.value < 1 || h.dimensions.value > 3 then Rejected(BadDimensions)
    else if h.width.Missing? then Rejected(NoWidth)
    else if h.dimensions.value > 1 && h.height.Missing? then Rejected(NoHeight)
    else if h.dimensions.value > 2 && h.length.Missing? then Rejected(NoLength)
    else
      var height := Extent(h.dimensions.value, 1, h.height).value;
      var length := Extent(h.dimensions.value, 2, h.length).value;
      if h.width.value == 0 || height == 0 || length == 0 then Rejected(ZeroExtent)
      else if h.attributes.value.sparse then
        if h.sparseDataSize.Missing? then Rejected(NoSparseDataSize)
        else if h.sparseDataSize.value == 0 then Rejected(EmptySparseData)
        else if !h.hasSparseStart then Rejected(NoSparseStart)
        else if !h.hasSparseEnd then Rejected(NoSparseEnd)
        else if !h.hasSparseIndex then Rejected(NoSparseIndex)
        else if !h.attributes.value.boolean && !h.hasSparseData then Rejected(NoSparseData)
        else Accepted(Shape(h.attributes.value, h.examples.value, h.dimensions.value, h.width.value, height, length))
      else if h.dataSize.Missing? then Rejected(NoDataSize)
      else Accepted(Shape(h.attributes.value, h.examples.value, h.dimensions.value, h.width.value, height, length))
  }

  datatype Result = Accepted(shape: Shape) | Rejected(error: HeaderError)
}
