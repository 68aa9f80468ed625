/** Generic sequence searches the components rely on: first-match lookup
    (JavaScript's `Array.prototype.find` and `indexOf`) and order-preserving
    filtering (`Array.prototype.filter`). */
module Seqs {
  import opened Wrappers

  /** Position of the first element of `s` that satisfies `p`, if any. */
  function FindFirst<T>(s: seq<T>, p: T -> bool): (r: Option<nat>)
    ensures r.Some? ==> r.value < |s| && p(s[r.value])
    ensures r.Some? ==> forall j :: 0 <= j < r.value ==> !p(s[j])
    ensures r.None? ==> forall j :: 0 <= j < |s| ==> !p(s[j])
  {
    if |s| == 0 then None
    else if p(s[0]) then Some(0)
    else match FindFirst(s[1..], p)
      case None => None
      case Some(i) => Some(i + 1)
  }

  /** The elements of `s` that satisfy `p`, in their original order. Defined
      from the end of `s` so that positions of the prefix never shift; the
      result is the same as a left-to-right scan. */
  function Filter<T>(s: seq<T>, p: T -> bool): (r: seq<T>)
    ensures |r| <= |s|
    ensures forall k :: 0 <= k < |r| ==> p(r[k])
  {
    if |s| == 0 then []
    else
      var n := |s| - 1;
      Filter(s[..n], p) + (if p(s[n]) then [s[n]] else [])
  }

  /** `idx` lists, in increasing order, exactly the positions of `s` whose
      element satisfies `p`, and `r` holds those elements in that order. */
  ghost predicate SelectsExactly<T>(r: seq<T>, s: seq<T>, p: T -> bool, idx: seq<nat>)
  {
    && |idx| == |r|
    && (forall k :: 0 <= k < |idx| ==> idx[k] < |s| && r[k] == s[idx[k]])
    && (forall k, l :: 0 <= k < l < |idx| ==> idx[k] < idx[l])
    && (forall i :: 0 <= i < |s| ==> (p(s[i]) <==> i in idx))
  }

  /** Filter keeps every satisfying element and drops every other one,
      preserving order. */
  lemma {:induction false} FilterSelectsExactly<T>(s: seq<T>, p: T -> bool) returns (idx: seq<nat>)
    ensures SelectsExactly(Filter(s, p), s, p, idx)
  {
    if |s| == 0 {
      idx := [];
    } else {
      var n := |s| - 1;
      var prefix := s[..n];
      var idx0 := FilterSelectsExactly(prefix, p);
      assert forall i :: 0 <= i < n ==> prefix[i] == s[i];
      if p(s[n]) {
        idx := idx0 + [n];
      } else {
        idx := idx0;
        assert forall k :: 0 <= k < |idx0| ==> idx0[k] < n;
      }
    }
  }

  /** When every element satisfies `p`, Filter returns its input unchanged. */
  lemma {:induction false} FilterKeepsAll<T>(s: seq<T>, p: T -> bool)
    requires forall i :: 0 <= i < |s| ==> p(s[i])
    ensures Filter(s, p) == s
  {
    if |s| > 0 {
      var n := |s| - 1;
      FilterKeepsAll(s[..n], p);
      assert s[..n] + [s[n]] == s;
    }
  }

  /** Filter depends only on the values the predicate takes on `s`. */
  lemma {:induction false} FilterCongruent<T>(s: seq<T>, p: T -> bool, q: T -> bool)
    requires forall i :: 0 <= i < |s| ==> p(s[i]) == q(s[i])
    ensures Filter(s, p) == Filter(s, q)
  {
    if |s| > 0 {
      var n := |s| - 1;
      FilterCongruent(s[..n], p, q);
    }
  }
}
