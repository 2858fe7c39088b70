/** Shared vocabulary of the dataset engine: the outcome of an operation that can abort
    the job, the attribute flags of a dataset and its sharding state. */
module Common {

  /** Why an operation aborted. Every constructor except OutsideStorage and NullBuffer is a check the
      source makes before printing a message and calling exit; OutsideStorage marks an
      access the source does not guard, which would fall outside its vector (undefined
      behaviour in C++), and NullBuffer a dereference of a buffer pointer that is still
      NULL; in both cases the model stops there instead of inventing a value. */
  datatype Fault =
    | WrongKind               // dense accessor on a sparse dataset or vice versa
    | IllegalExample          // example index n >= examples
    | IllegalCoordinates      // x >= width, y >= height or z >= length
    | SparseIndexOutOfRange   // local sparse index i >= end[n] - start[n]
    | FeatureOutOfRange       // a stored feature id >= width when counting
    | UnsupportedCost         // cost function not defined for this kind of data
    | OutsideStorage          // unguarded access past the end of a vector
    | NullBuffer              // unguarded use of a device buffer that was never allocated

  datatype Outcome<T> = Ok(value: T) | Err(fault: Fault)

  /** A value that may be absent: a header field not found, a buffer not allocated. */
  datatype Maybe<T> = Missing | Found(value: T)

  /** The attribute bits of a dataset that this core tests. */
  datatype Attributes = Attributes(sparse: bool, boolean: bool, sparseIgnoreZero: bool)

  /** How the dataset is currently distributed over the workers. */
  datatype Sharding = None | Data | Model

  function Min(a: nat, b: nat): nat { if a < b then a else b }

  function Max(a: nat, b: nat): nat { if a < b then b else a }
}
