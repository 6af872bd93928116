/** Failure-compatible result types, and the Python exceptions the modelled code can raise. */
module Wrappers {

  datatype Option<+T> = None | Some(value: T)

  datatype Result<+T, +E> = Success(value: T) | Failure(error: E)

  /** The exceptions of the modelled code that the model keeps. */
  datatype Error =
    | ParseError(path: string)   // `Phylo.read` could not read a tree file
    | IndexError(key: string)    // `key.split("-")[1]` on a key without a '-'
    | ZeroDivisionError          // a count divided by a zero total
    | ValueError(tree0: string, tree1: string)  // `pearsonr` rejected the value lists of two tree files
}
