/** Small wrappers shared by every module: an optional value and a result
    that is either a value or the error the Python code would raise. */
module Common {

  datatype Option<+T> = None | Some(value: T)

  datatype Result<+T, +E> = Ok(value: T) | Err(error: E)

  /** The positions of `s` whose element satisfies `p`, in increasing
      order: every such position once, and no other. */
  function Positions<T>(s: seq<T>, p: T -> bool): (r: seq<nat>)
    ensures forall k :: 0 <= k < |r| ==> r[k] < |s| && p(s[r[k]])
    ensures forall k, l :: 0 <= k < l < |r| ==> r[k] < r[l]
    ensures forall i :: 0 <= i < |s| && p(s[i]) ==> i in r
    decreases |s|
  {
    if s == [] then []
    else
      var n := |s| - 1;
      var prev := Positions(s[..n], p);
      assert forall k :: 0 <= k < |prev| ==> s[..n][prev[k]] == s[prev[k]];
      prev + (if p(s[n]) then [n] else [])
  }
}
