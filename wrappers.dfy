/** Result types shared by every scanner of the model. */
module Wrappers {

  datatype Option<+T> = None | Some(value: T)

  /** The value of an option as a sequence: one element, or none. */
  function ToSeq<T>(o: Option<T>): (s: seq<T>)
    ensures |s| == if o.Some? then 1 else 0
    ensures o.Some? ==> s[0] == o.value
  {
    if o.Some? then [o.value] else []
  }

  /**
   * Why a scan stopped early. The syntax errors carry the offset the source
   * reports in its message; Python's own failures (an IndexError from reading
   * past the end, a ValueError from `str.index` or `float`, `pop` on an empty
   * list) are collapsed into RuntimeFailure.
   */
  datatype Failure =
    | UnexpectedComma(at: nat)
    | UnmatchedClosedBrace(at: nat)
    | MissingEdgeLength(at: nat)
    | MissingLabel(at: nat)
    | InvalidEdgeLength(at: nat)
    | InternalAssertion
    | RuntimeFailure(at: nat)
    | Diverges(at: nat)

  datatype Result<+T> = Ok(value: T) | Err(error: Failure)
}
