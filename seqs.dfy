/**
 * Order-preserving selection of the elements of a sequence that pass a test,
 * the shape shared by every "copy a line only if ..." loop of the script.
 */
module Seqs {

  /** The elements of s that satisfy p, unchanged and in their original order. */
  function Filter<T>(s: seq<T>, p: T -> bool): seq<T>
  {
    if s == [] then []
    else Filter(s[..|s| - 1], p) + (if p(s[|s| - 1]) then [s[|s| - 1]] else [])
  }

  /** Filtering one more element appends it exactly when it passes. */
  lemma FilterSnoc<T>(s: seq<T>, x: T, p: T -> bool)
    ensures Filter(s + [x], p) == Filter(s, p) + (if p(x) then [x] else [])
  {
    assert (s + [x])[..|s|] == s;
  }

  /** The positions of s whose elements satisfy p, in increasing order. */
  function FilterIndices<T>(s: seq<T>, p: T -> bool): seq<nat>
  {
    if s == [] then []
    else FilterIndices(s[..|s| - 1], p) + (if p(s[|s| - 1]) then [|s| - 1] else [])
  }

  /**
   * t consists of the elements of s at positions idx, idx is strictly
   * increasing, and a position of s is in idx exactly when its element
   * satisfies p: t keeps exactly the passing elements, unchanged, in order.
   */
  ghost predicate Selection<T>(idx: seq<nat>, t: seq<T>, s: seq<T>, p: T -> bool)
  {
    && |idx| == |t|
    && (forall j :: 0 <= j < |idx| ==> idx[j] < |s| && t[j] == s[idx[j]])
    && (forall j, k :: 0 <= j < k < |idx| ==> idx[j] < idx[k])
    && (forall i :: 0 <= i < |s| ==> (p(s[i]) <==> i in idx))
  }

  lemma {:induction false} FilterIsSelection<T>(s: seq<T>, p: T -> bool)
    ensures Selection(FilterIndices(s, p), Filter(s, p), s, p)
  {
    if s != [] {
      var n := |s| - 1;
      var s' := s[..n];
      FilterIsSelection(s', p);
      var idx', t' := FilterIndices(s', p), Filter(s', p);
      var idx, t := FilterIndices(s, p), Filter(s, p);
      assert forall i :: 0 <= i < n ==> s[i] == s'[i];
      if p(s[n]) {
        assert idx == idx' + [n] && t == t' + [s[n]];
        assert forall j :: 0 <= j < |idx'| ==> idx[j] == idx'[j] && t[j] == t'[j];
        forall i | 0 <= i < |s| ensures p(s[i]) <==> i in idx {
          if i < n {
            assert i in idx' <==> i in idx;
          }
        }
      } else {
        assert idx == idx' && t == t';
        assert forall i :: 0 <= i < |s| && i in idx ==> i < n;
      }
    }
  }

  /** An element is kept exactly when it occurs in s and passes p. */
  lemma {:induction false} FilterMembers<T>(s: seq<T>, p: T -> bool)
    ensures forall x :: x in Filter(s, p) ==> x in s && p(x)
    ensures forall x :: x in s && p(x) ==> x in Filter(s, p)
  {
    if s != [] {
      var s' := s[..|s| - 1];
      FilterMembers(s', p);
      assert s == s' + [s[|s| - 1]];
    }
  }

  /** When every element passes, nothing is dropped. */
  lemma {:induction false} FilterKeepsAll<T>(s: seq<T>, p: T -> bool)
    requires forall i :: 0 <= i < |s| ==> p(s[i])
    ensures Filter(s, p) == s
  {
    if s != [] {
      var s' := s[..|s| - 1];
      FilterKeepsAll(s', p);
      assert s == s' + [s[|s| - 1]];
    }
  }

  /** When no element passes, the result is empty. */
  lemma {:induction false} FilterDropsAll<T>(s: seq<T>, p: T -> bool)
    requires forall i :: 0 <= i < |s| ==> !p(s[i])
    ensures Filter(s, p) == []
  {
    if s != [] {
      FilterDropsAll(s[..|s| - 1], p);
    }
  }

  /** Filtering a second time with the same test changes nothing. */
  lemma FilterIdempotent<T>(s: seq<T>, p: T -> bool)
    ensures Filter(Filter(s, p), p) == Filter(s, p)
  {
    var t := Filter(s, p);
    FilterMembers(s, p);
    forall i | 0 <= i < |t| ensures p(t[i]) {
      var x := t[i];
      assert x in Filter(s, p);
    }
    FilterKeepsAll(t, p);
  }

  /** Filtering twice filters by both tests. */
  lemma {:induction false} FilterFilter<T>(s: seq<T>, p: T -> bool, q: T -> bool, pq: T -> bool)
    requires forall x :: pq(x) == (p(x) && q(x))
    ensures Filter(Filter(s, p), q) == Filter(s, pq)
  {
    if s != [] {
      var s' := s[..|s| - 1];
      var x := s[|s| - 1];
      FilterFilter(s', p, q, pq);
      var t' := Filter(s', p);
      if p(x) {
        assert Filter(s, p) == t' + [x];
        assert (t' + [x])[..|t' + [x]| - 1] == t';
        assert Filter(t' + [x], q) == Filter(t', q) + (if q(x) then [x] else []);
      } else {
        assert Filter(s, p) == t';
      }
    }
  }
}
