/** The container idiom `v.erase(std::remove_if(begin(v), end(v), pred), end(v))`
    that delaunay.h uses three times: it keeps, in their original order, exactly
    the elements the predicate rejects. Here it is stated once, positively, as
    Filter(s, keep), and its three promises (membership, order, count) are proved
    once for every use. */
module SeqFilter {

  /** The elements of s satisfying keep, in the order they occur in s. */
  function Filter<T>(s: seq<T>, keep: T -> bool): (r: seq<T>)
    ensures |r| <= |s|
    ensures forall k :: 0 <= k < |r| ==> r[k] in s && keep(r[k])
    ensures forall i :: 0 <= i < |s| && keep(s[i]) ==> s[i] in r
  {
    if s == [] then []
    else Filter(s[..|s| - 1], keep) + (if keep(s[|s| - 1]) then [s[|s| - 1]] else [])
  }

  /** The positions of s whose element keep accepts, in increasing order. */
  function KeptPositions<T>(s: seq<T>, keep: T -> bool): (idx: seq<int>)
  {
    if s == [] then []
    else KeptPositions(s[..|s| - 1], keep) + (if keep(s[|s| - 1]) then [|s| - 1] else [])
  }

  /** One more element at the back adds at most itself at the back of the result:
      the step a left-to-right loop over s takes. */
  lemma FilterSnoc<T>(s: seq<T>, x: T, keep: T -> bool)
    ensures Filter(s + [x], keep) == Filter(s, keep) + (if keep(x) then [x] else [])
  {
    assert (s + [x])[..|s + [x]| - 1] == s;
  }

  /** The kept positions are in range and strictly increasing. */
  lemma {:induction false} KeptPositionsIncreasing<T>(s: seq<T>, keep: T -> bool)
    ensures forall k :: 0 <= k < |KeptPositions(s, keep)| ==> 0 <= KeptPositions(s, keep)[k] < |s|
    ensures forall k, l :: 0 <= k < l < |KeptPositions(s, keep)| ==>
      KeptPositions(s, keep)[k] < KeptPositions(s, keep)[l]
  {
    if s != [] {
      var n := |s| - 1;
      KeptPositionsIncreasing(s[..n], keep);
      var idx0, idx := KeptPositions(s[..n], keep), KeptPositions(s, keep);
      assert |s[..n]| == n;
      assert forall k :: 0 <= k < |idx0| ==> idx0[k] < n;
      assert idx == idx0 + (if keep(s[n]) then [n] else []);
    }
  }

  /** A position is kept exactly when its element is accepted. */
  lemma {:induction false} KeptPositionsExact<T>(s: seq<T>, keep: T -> bool)
    ensures forall i :: 0 <= i < |s| ==> (i in KeptPositions(s, keep) <==> keep(s[i]))
  {
    if s != [] {
      var n := |s| - 1;
      var init := s[..n];
      KeptPositionsExact(init, keep);
      KeptPositionsIncreasing(init, keep);
      var idx0 := KeptPositions(init, keep);
      assert |init| == n;
      assert forall k :: 0 <= k < |idx0| ==> idx0[k] < n;
      assert n !in idx0;
      assert KeptPositions(s, keep) == idx0 + (if keep(s[n]) then [n] else []);
      forall i | 0 <= i < n
        ensures i in KeptPositions(s, keep) <==> keep(s[i])
      {
        assert s[i] == init[i];
      }
    }
  }

  /** The result of Filter is s read at the kept positions. */
  lemma {:induction false} FilterReadsKeptPositions<T>(s: seq<T>, keep: T -> bool)
    ensures |KeptPositions(s, keep)| == |Filter(s, keep)|
    ensures forall k :: 0 <= k < |KeptPositions(s, keep)| ==>
      0 <= KeptPositions(s, keep)[k] < |s| && Filter(s, keep)[k] == s[KeptPositions(s, keep)[k]]
  {
    KeptPositionsIncreasing(s, keep);
    if s != [] {
      var n := |s| - 1;
      var init := s[..n];
      FilterReadsKeptPositions(init, keep);
      var r0, idx0 := Filter(init, keep), KeptPositions(init, keep);
      assert Filter(s, keep) == r0 + (if keep(s[n]) then [s[n]] else []);
      assert KeptPositions(s, keep) == idx0 + (if keep(s[n]) then [n] else []);
      assert forall k :: 0 <= k < |idx0| ==> s[idx0[k]] == init[idx0[k]];
    }
  }

  /** Filter keeps every element it should, drops every other one, and preserves
      the relative order: the result is s read at the strictly increasing
      positions KeptPositions(s, keep), which are exactly the positions whose
      element is accepted. */
  lemma FilterIsOrderedSelection<T>(s: seq<T>, keep: T -> bool)
    ensures |KeptPositions(s, keep)| == |Filter(s, keep)|
    ensures forall k :: 0 <= k < |KeptPositions(s, keep)| ==>
      0 <= KeptPositions(s, keep)[k] < |s| && Filter(s, keep)[k] == s[KeptPositions(s, keep)[k]]
    ensures forall k, l :: 0 <= k < l < |KeptPositions(s, keep)| ==>
      KeptPositions(s, keep)[k] < KeptPositions(s, keep)[l]
    ensures forall i :: 0 <= i < |s| ==> (i in KeptPositions(s, keep) <==> keep(s[i]))
  {
    KeptPositionsIncreasing(s, keep);
    KeptPositionsExact(s, keep);
    FilterReadsKeptPositions(s, keep);
  }

  /** Count bookkeeping: what is kept plus what is removed is all of s. */
  lemma {:induction false} FilterSplitsLength<T>(s: seq<T>, keep: T -> bool)
    ensures |Filter(s, keep)| + |Filter(s, Negation(keep))| == |s|
  {
    if s != [] {
      FilterSplitsLength(s[..|s| - 1], keep);
    }
  }

  /** The predicate that accepts exactly what keep rejects. */
  function Negation<T>(keep: T -> bool): (T -> bool)
  {
    x => !keep(x)
  }

  /** A predicate that accepts at least what another accepts keeps at least as
      many elements. */
  lemma {:induction false} FilterMonotone<T>(s: seq<T>, keep1: T -> bool, keep2: T -> bool)
    requires forall i :: 0 <= i < |s| && keep1(s[i]) ==> keep2(s[i])
    ensures |Filter(s, keep1)| <= |Filter(s, keep2)|
  {
    if s != [] {
      FilterMonotone(s[..|s| - 1], keep1, keep2);
    }
  }
}
