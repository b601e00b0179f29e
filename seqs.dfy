/** Searching a sequence of replies for the first one that settles a loop.
    attach.go's attach and detach mode loops both stop at the first reply
    that meets their own test; this module states that search once. */
module Seqs {
  import opened Base

  /** The index of the first element of `s` that satisfies `p`, if any. */
  function FirstIndex<T>(s: seq<T>, p: T -> bool): (r: Option<nat>)
    ensures r.Some? ==> r.value < |s| && p(s[r.value])
    ensures r.Some? ==> forall j :: 0 <= j < r.value ==> !p(s[j])
    ensures r.None? <==> forall j :: 0 <= j < |s| ==> !p(s[j])
  {
    if s == [] then None
    else if p(s[0]) then Some(0)
    else
      match FirstIndex(s[1..], p)
      case None => None
      case Some(k) => Some(k + 1)
  }

  /** Appending one element to a sequence with no match: the new element is
      the first match exactly when it satisfies the test. This is the step of
      every loop that stops at the first matching reply. */
  lemma {:induction false} FirstIndexSnoc<T>(s: seq<T>, x: T, p: T -> bool)
    requires FirstIndex(s, p).None?
    ensures FirstIndex(s + [x], p) == if p(x) then Some(|s|) else None
  {
    if s == [] {
      assert s + [x] == [x];
    } else {
      assert (s + [x])[1..] == s[1..] + [x];
      assert !p(s[0]);
      assert FirstIndex(s[1..], p).None? by {
        forall j | 0 <= j < |s[1..]| ensures !p(s[1..][j]) {
          assert s[1..][j] == s[j + 1];
        }
      }
      FirstIndexSnoc(s[1..], x, p);
    }
  }
}
