/** Optional values (Python's `None` versus a present value) and small sequence helpers. */
module Wrappers {

  datatype Option<+T> = None | Some(value: T) {

    /** The value, or `default` when absent (pandas' `fillna(default)` on one cell). */
    function GetOr(default: T): T {
      match this
      case Some(v) => v
      case None => default
    }
  }

  /** The second component of every pair, in order (one column of a two-column frame). */
  function Seconds<A, B>(pairs: seq<(A, B)>): (s: seq<B>)
    ensures |s| == |pairs| && forall k :: 0 <= k < |pairs| ==> s[k] == pairs[k].1
  {
    seq(|pairs|, k requires 0 <= k < |pairs| => pairs[k].1)
  }

  function Min(a: int, b: int): int {
    if a <= b then a else b
  }
}
