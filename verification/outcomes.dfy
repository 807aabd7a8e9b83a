/** Failure-carrying results for the routines of the clustering statistics module.
    Every error the modelled code can raise is one variant of `Error`, so that a
    caller can tell "bad option" from "bad index" from "empty reduction". */
module Outcomes {

  /** The exceptions the modelled routines raise. */
  datatype Error =
    | UnsupportedMethod   // ValueError('Method type unsupported.')
    | UnsupportedLink     // ValueError('Link type not supported.')
    | EmptyReduction      // ValueError from min()/max() over an empty sequence
    | IndexOutOfRange     // IndexError from indexing past the end of a list or array
    | UnsupportedDistance // ValueError for a distance kind the distance module does not know
    | UnboundResult       // UnboundLocalError: a distance routine reached its return with no value
    | ShapeMismatch       // ValueError when numpy cannot broadcast two arrays together
    | NoDimensions        // a multi-valued centroid with no dimensions at all

  datatype Result<+T> = Success(value: T) | Failure(error: Error)

  datatype Option<+T> = None | Some(value: T)
}
