/** Types shared by the models. */
module Prelude {

  /** A value that may be absent: Python's `None` and missing dictionary keys. */
  datatype Option<+T> = None | Some(value: T) {
    function GetOr(default: T): T {
      if Some? then value else default
    }
  }

  /** `s[-n:]` on a list, for every integer `n`: note that `n == 0` keeps everything. */
  function PySuffix<T>(s: seq<T>, n: int): seq<T> {
    if n == 0 then s
    else if n > 0 then (if |s| <= n then s else s[|s| - n..])
    else if |s| <= -n then [] else s[-n..]
  }

  /** Clamps a slice bound to the list, as Python does for non-negative bounds. */
  function Clamp<T>(s: seq<T>, n: nat): (k: nat)
    ensures k <= |s|
  {
    if n <= |s| then n else |s|
  }

  /** Ascending positions below `n`. */
  predicate AscendingBelow(idx: seq<nat>, n: nat) {
    && (forall i :: 0 <= i < |idx| ==> idx[i] < n)
    && (forall i, j :: 0 <= i < j < |idx| ==> idx[i] < idx[j])
  }

  /** Positions in a list, as positions with one more element in front. */
  function Shifted(idx: seq<nat>): (r: seq<nat>)
    ensures |r| == |idx| && forall i :: 0 <= i < |idx| ==> r[i] == idx[i] + 1
  {
    seq(|idx|, i requires 0 <= i < |idx| => idx[i] + 1)
  }
}
