/** Searching sequences in order, as JavaScript's `Array.prototype.find` does. */
module Seqs {
  import opened Options

  /** The position of the first element of `s` that satisfies `p`, if any. */
  function FirstIndex<T>(s: seq<T>, p: T -> bool): (r: Option<nat>)
    ensures r.Some? ==> r.value < |s| && p(s[r.value])
    ensures r.Some? ==> forall j :: 0 <= j < r.value ==> !p(s[j])
    ensures r.None? ==> forall j :: 0 <= j < |s| ==> !p(s[j])
  {
    if |s| == 0 then None
    else if p(s[0]) then Some(0)
    else match FirstIndex(s[1..], p)
      case None => None
      case Some(k) => Some(k + 1)
  }

  /** The first satisfying position is determined by the elements alone. */
  lemma FirstIndexIsFirst<T>(s: seq<T>, p: T -> bool, i: nat)
    requires i < |s| && p(s[i])
    requires forall j :: 0 <= j < i ==> !p(s[j])
    ensures FirstIndex(s, p) == Some(i)
  {
  }

  /** Nothing is found exactly when no element satisfies the predicate. */
  lemma FirstIndexNone<T>(s: seq<T>, p: T -> bool)
    ensures FirstIndex(s, p).None? <==> forall j :: 0 <= j < |s| ==> !p(s[j])
  {
  }
}
