/** Failure-carrying results for the retrieval pipeline, and the Python
    sequence semantics (negative indices, clamped slices) its code relies on. */
module Outcomes {

  datatype Option<+T> = None | Some(value: T)

  /** The exceptions the pipeline can raise; inside `answer_question` each one
      is caught and turned into an "Error: ..." reply. */
  datatype Failure =
    | ZeroStep                    // `range(0, n, 0)`: ValueError
    | MissingColumn(name: string) // selecting a column the table lacks: KeyError
    | IndexOutOfRange(index: int) // list or `iloc` indexing outside the sequence: IndexError
    | UnboundDataset              // mode names no domain, so the dataset variables are unbound
    | TooFewResults               // fewer than three recommendations to describe: IndexError
    | FrameNotList                // row-wise `apply` on a frame with columns but no rows returns a frame: AttributeError on `tolist`

  datatype Result<+T> = Ok(value: T) | Err(failure: Failure)

  function Min(a: int, b: int): int { if a <= b then a else b }

  /** Python's `s[i]`: a negative index counts from the end, anything outside
      `-|s| .. |s|-1` raises. */
  function PyIndex<T>(s: seq<T>, i: int): Option<T>
  {
    if 0 <= i < |s| then Some(s[i])
    else if -|s| <= i < 0 then Some(s[|s| + i])
    else None
  }

  /** Python's `s[lo:hi]` for non-negative bounds: both ends are clamped to `|s|`. */
  function PySlice<T>(s: seq<T>, lo: nat, hi: nat): seq<T>
  {
    var a := Min(lo, |s|);
    var b := Min(hi, |s|);
    if a <= b then s[a..b] else []
  }
}
