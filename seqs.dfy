/** Linear search over a sequence of records, the shared shape of Rust's
    `iter().find`, `iter_mut().find`, a cursor's first document and
    `rows.get(0)` after a filter. */
module Seqs {
  import opened Wrappers

  /** The index of the first element satisfying `p`, if any. */
  function FirstWhere<T>(s: seq<T>, p: T -> bool): (r: Option<nat>)
    ensures r.Some? ==> r.value < |s| && p(s[r.value])
    ensures r.Some? ==> forall j :: 0 <= j < r.value ==> !p(s[j])
    ensures r.None? <==> forall j :: 0 <= j < |s| ==> !p(s[j])
  {
    if s == [] then None
    else if p(s[0]) then Some(0)
    else match FirstWhere(s[1..], p)
      case None => None
      case Some(k) => Some(k + 1)
  }

  /** The first element satisfying `p`, if any. */
  function FindWhere<T>(s: seq<T>, p: T -> bool): (r: Option<T>)
    ensures r.Some? ==> r.value in s && p(r.value)
    ensures r.Some? ==> exists k :: (0 <= k < |s| && s[k] == r.value &&
                                     forall j :: 0 <= j < k ==> !p(s[j]))
    ensures r.None? <==> forall j :: 0 <= j < |s| ==> !p(s[j])
  {
    match FirstWhere(s, p)
    case None => None
    case Some(k) => Some(s[k])
  }

  /** Appending an element never changes an earlier match, and it is found
      exactly when nothing before it matched and it matches itself. */
  lemma FirstWhereAppend<T>(s: seq<T>, x: T, p: T -> bool)
    ensures FirstWhere(s, p).Some? ==> FirstWhere(s + [x], p) == FirstWhere(s, p)
    ensures FirstWhere(s, p).None? ==>
      FirstWhere(s + [x], p) == if p(x) then Some(|s|) else None
  {
    var t := s + [x];
    assert forall j :: 0 <= j < |s| ==> t[j] == s[j];
    match FirstWhere(s, p)
    case Some(k) =>
      FirstWhereIs(t, p, k);
    case None =>
      if p(x) {
        FirstWhereIs(t, p, |s|);
      }
  }

  /** The first match is characterised by its two properties. */
  lemma FirstWhereIs<T>(s: seq<T>, p: T -> bool, k: nat)
    requires k < |s| && p(s[k])
    requires forall j :: 0 <= j < k ==> !p(s[j])
    ensures FirstWhere(s, p) == Some(k)
  {
  }
}
