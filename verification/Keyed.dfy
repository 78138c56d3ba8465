/** Lists used as dictionaries: the first element with a key, and insertion or replacement. */
module Keyed {

  /** The first position with the key; the size when there is none. */
  function IndexBy<T>(key: T -> string, s: seq<T>, k: string): (i: nat)
    ensures i <= |s|
    ensures i < |s| ==> key(s[i]) == k
    ensures forall j :: 0 <= j < i ==> key(s[j]) != k
  {
    if s == [] || key(s[0]) == k then 0 else 1 + IndexBy(key, s[1..], k)
  }

  /** An element with a known key takes the place of the old one, any other goes to the end. */
  function UpsertBy<T>(key: T -> string, s: seq<T>, x: T): seq<T> {
    var i := IndexBy(key, s, key(x));
    if i < |s| then s[i := x] else s + [x]
  }

  /** Insertion or replacement, position by position: only the first element with the key changes,
      and a new key goes to the end. */
  lemma UpsertExact<T>(key: T -> string, s: seq<T>, x: T, i: nat)
    ensures (exists j :: 0 <= j < |s| && key(s[j]) == key(x)) ==> |UpsertBy(key, s, x)| == |s|
    ensures (forall j :: 0 <= j < |s| ==> key(s[j]) != key(x)) ==> UpsertBy(key, s, x) == s + [x]
    ensures i < |s| && key(s[i]) == key(x) && (forall j :: 0 <= j < i ==> key(s[j]) != key(x)) ==>
              UpsertBy(key, s, x)[i] == x
    ensures i < |s| && (key(s[i]) != key(x) || exists j :: 0 <= j < i && key(s[j]) == key(x)) ==>
              UpsertBy(key, s, x)[i] == s[i]
  {
  }
}
