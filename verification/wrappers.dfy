/** Optional values and first-match search: every lookup the page code
    makes (getElementById, querySelector, Array.prototype.find-like scans in
    document order) yields the first matching element or nothing. */
module Wrappers {

  datatype Option<+T> = None | Some(value: T)

  /** The index of the first element of xs at or after `from` satisfying p. */
  function FindFrom<T>(xs: seq<T>, p: T -> bool, from: nat): (r: Option<nat>)
    ensures r.Some? ==> from <= r.value < |xs|
    decreases |xs| - from
  {
    if from >= |xs| then None
    else if p(xs[from]) then Some(from)
    else FindFrom(xs, p, from + 1)
  }

  /** The index of the first element of xs satisfying p, if any. */
  function FindFirst<T>(xs: seq<T>, p: T -> bool): (r: Option<nat>)
    ensures r.Some? ==> r.value < |xs|
  {
    FindFrom(xs, p, 0)
  }

  /** FindFrom finds a match with none before it, or there is no match. */
  lemma {:induction false} FindFromSpec<T>(xs: seq<T>, p: T -> bool, from: nat)
    ensures var r := FindFrom(xs, p, from);
            && (r.Some? ==> p(xs[r.value]) && forall k :: from <= k < r.value ==> !p(xs[k]))
            && (r.None? ==> forall k :: from <= k < |xs| ==> !p(xs[k]))
    decreases |xs| - from
  {
    if from < |xs| && !p(xs[from]) {
      FindFromSpec(xs, p, from + 1);
    }
  }

  /** FindFirst yields the first match, or there is none. */
  lemma FindFirstSpec<T>(xs: seq<T>, p: T -> bool)
    ensures var r := FindFirst(xs, p);
            && (r.Some? ==> p(xs[r.value]) && forall k :: 0 <= k < r.value ==> !p(xs[k]))
            && (r.None? ==> forall k :: 0 <= k < |xs| ==> !p(xs[k]))
  {
    FindFromSpec(xs, p, 0);
  }

  lemma {:induction false} FindFromAgrees<T, U>(xs: seq<T>, p: T -> bool, ys: seq<U>, q: U -> bool, from: nat)
    requires |xs| == |ys|
    requires forall k :: from <= k < |xs| ==> (p(xs[k]) <==> q(ys[k]))
    ensures FindFrom(xs, p, from) == FindFrom(ys, q, from)
    decreases |xs| - from
  {
    if from < |xs| {
      FindFromAgrees(xs, p, ys, q, from + 1);
    }
  }

  /** Searches of two equally long sequences agree when the two predicates
      agree position by position. */
  lemma FindFirstAgrees<T, U>(xs: seq<T>, p: T -> bool, ys: seq<U>, q: U -> bool)
    requires |xs| == |ys|
    requires forall k :: 0 <= k < |xs| ==> (p(xs[k]) <==> q(ys[k]))
    ensures FindFirst(xs, p) == FindFirst(ys, q)
  {
    FindFromAgrees(xs, p, ys, q, 0);
  }
}
