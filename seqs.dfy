/** Searching a sequence in order, as the source's first-match loops do. */
module Seqs {

  /**
   * The index of the first element that satisfies p, or |s| when none does:
   * the position where a left-to-right scan that stops at the first hit stops.
   */
  function FirstIndex<T>(s: seq<T>, p: T -> bool): (k: nat)
    ensures k <= |s|
    ensures forall j :: 0 <= j < k ==> !p(s[j])
    ensures k < |s| ==> p(s[k])
    decreases |s|
  {
    if s == [] then 0
    else if p(s[0]) then 0
    else 1 + FirstIndex(s[1..], p)
  }

  /** The scan stops at k exactly when everything before k misses and k hits (or is the end). */
  lemma FirstIndexUnique<T>(s: seq<T>, p: T -> bool, k: nat)
    requires k <= |s|
    requires forall j :: 0 <= j < k ==> !p(s[j])
    requires k < |s| ==> p(s[k])
    ensures FirstIndex(s, p) == k
  {
  }
}
