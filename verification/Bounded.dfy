/** Lists trimmed to their newest entries: the span ring and the event history. */
module Bounded {
  import opened Prelude

  /** Append, then `if len(s) > limit: s = s[-limit:]`. */
  function Kept<T>(s: seq<T>, batch: seq<T>, limit: int): seq<T> {
    if |s + batch| > limit then PySuffix(s + batch, limit) else s + batch
  }

  function Flatten<T>(batches: seq<seq<T>>): seq<T> {
    if batches == [] then [] else Flatten(batches[..|batches| - 1]) + batches[|batches| - 1]
  }

  /** The buffer after a run of appends. */
  function KeptAfter<T>(batches: seq<seq<T>>, limit: int): seq<T> {
    if batches == [] then []
    else Kept(KeptAfter(batches[..|batches| - 1], limit), batches[|batches| - 1], limit)
  }

  lemma KeptStep<T>(all: seq<T>, batch: seq<T>, limit: int)
    requires limit >= 1
    ensures Kept(PySuffix(all, limit), batch, limit) == PySuffix(all + batch, limit)
  {
    var drop := if |all| <= limit then 0 else |all| - limit;
    assert PySuffix(all, limit) == all[drop..];
    assert all[drop..] + batch == (all + batch)[drop..];
  }

  /** With a positive limit the buffer always holds the newest `limit` entries of everything
      ever appended, in order. */
  lemma {:induction false} KeepsNewest<T>(batches: seq<seq<T>>, limit: int)
    requires limit >= 1
    ensures KeptAfter(batches, limit) == PySuffix(Flatten(batches), limit)
    ensures NewestOf(KeptAfter(batches, limit), Flatten(batches), limit)
  {
    SuffixIsNewest(Flatten(batches), limit);
    if batches != [] {
      KeepsNewest(batches[..|batches| - 1], limit);
      KeptStep(Flatten(batches[..|batches| - 1]), batches[|batches| - 1], limit);
    }
  }

  /** A limit of zero does not bound anything: `s[-0:]` is the whole list. */
  lemma {:induction false} ZeroLimitKeepsAll<T>(batches: seq<seq<T>>)
    ensures KeptAfter(batches, 0) == Flatten(batches)
  {
    if batches != [] {
      ZeroLimitKeepsAll(batches[..|batches| - 1]);
    }
  }

  /** `r` are the last elements of `all`, as many as the limit admits. */
  ghost predicate NewestOf<T>(r: seq<T>, all: seq<T>, limit: int) {
    && |r| == (if |all| < limit then |all| else limit)
    && forall j :: 0 <= j < |r| ==> r[j] == all[|all| - |r| + j]
  }

  /** What a suffix is, position by position. */
  lemma SuffixIsNewest<T>(s: seq<T>, limit: int)
    requires limit >= 1
    ensures NewestOf(PySuffix(s, limit), s, limit)
  {
  }
}
