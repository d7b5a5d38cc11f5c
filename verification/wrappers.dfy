/** Failure-compatible wrapper used wherever the modelled code would panic
    (an `unwrap` on a failed parse, an out-of-range index). */
module Wrappers {

  datatype Option<+T> = None | Some(value: T)

  /** `f` applied to every element, in order; `None` as soon as one
      application fails, as a loop of `unwrap`s would panic. */
  function MapAll<T, U>(xs: seq<T>, f: T -> Option<U>): (r: Option<seq<U>>)
    ensures r.Some? ==> |r.value| == |xs|
    ensures r.Some? ==> forall i :: 0 <= i < |xs| ==> f(xs[i]) == Some(r.value[i])
    ensures r.None? ==> exists i :: 0 <= i < |xs| && f(xs[i]).None?
  {
    if |xs| == 0 then Some([])
    else
      match f(xs[0])
      case None => None
      case Some(y) =>
        match MapAll(xs[1..], f)
        case None => None
        case Some(ys) =>
          assert forall i :: 1 <= i < |xs| ==> xs[i] == xs[1..][i - 1];
          Some([y] + ys)
  }
}
