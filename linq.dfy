/**
 * The System.Linq operators the repositories use over a table's rows:
 * `FirstOrDefault` (as the index of the first match), `Where` and `Any`.
 */
module Linq {
  import opened Wrappers

  /** The index of the first element satisfying `p`, if any. */
  function IndexWhere<X>(s: seq<X>, p: X -> bool): (r: Option<nat>)
    ensures r.Some? ==> r.value < |s| && p(s[r.value]) && forall j :: 0 <= j < r.value ==> !p(s[j])
    ensures r.None? <==> forall j :: 0 <= j < |s| ==> !p(s[j])
  {
    if s == [] then None
    else if p(s[0]) then Some(0)
    else
      var rest := IndexWhere(s[1..], p);
      if rest.Some? then Some(rest.value + 1) else None
  }

  /** `Where`: the elements satisfying `p`, in their original order. */
  function Where<X>(s: seq<X>, p: X -> bool): (r: seq<X>)
    ensures |r| <= |s|
    ensures forall i :: 0 <= i < |r| ==> p(r[i]) && r[i] in s
    ensures forall i :: 0 <= i < |s| && p(s[i]) ==> s[i] in r
  {
    if s == [] then []
    else (if p(s[0]) then [s[0]] else []) + Where(s[1..], p)
  }

  /** `Where` keeps the order: filtering a concatenation concatenates the filtered parts. */
  lemma {:induction false} WhereConcat<X>(a: seq<X>, b: seq<X>, p: X -> bool)
    ensures Where(a + b, p) == Where(a, p) + Where(b, p)
  {
    if a == [] {
      assert a + b == b;
    } else {
      assert (a + b)[1..] == a[1..] + b;
      WhereConcat(a[1..], b, p);
    }
  }

  /** `Where` with a predicate every element satisfies changes nothing. */
  lemma {:induction false} WhereAll<X>(s: seq<X>, p: X -> bool)
    requires forall i :: 0 <= i < |s| ==> p(s[i])
    ensures Where(s, p) == s
  {
    if s != [] {
      WhereAll(s[1..], p);
    }
  }

  /** `Any`: some element satisfies `p`. */
  predicate Any<X>(s: seq<X>, p: X -> bool) {
    exists i :: 0 <= i < |s| && p(s[i])
  }

  /** `Any` holds exactly when `FirstOrDefault` finds something, and when `Where` is non-empty. */
  lemma AnyAgreesWithSearches<X>(s: seq<X>, p: X -> bool)
    ensures Any(s, p) <==> IndexWhere(s, p).Some?
    ensures Any(s, p) <==> Where(s, p) != []
  {
    if Any(s, p) {
      var i :| 0 <= i < |s| && p(s[i]);
      assert s[i] in Where(s, p);
    }
  }
}
