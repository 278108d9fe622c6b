/** Order-preserving selections from a sequence. */
module Sequences {

  /** `r` is `s` with some elements left out and the rest kept in order. */
  predicate IsSubsequence<T(==)>(r: seq<T>, s: seq<T>)
    decreases |s|
  {
    if r == [] then true
    else if s == [] then false
    else (r[|r| - 1] == s[|s| - 1] && IsSubsequence(r[..|r| - 1], s[..|s| - 1]))
         || IsSubsequence(r, s[..|s| - 1])
  }

  lemma SubsequenceSkip<T>(r: seq<T>, s: seq<T>, x: T)
    requires IsSubsequence(r, s)
    ensures IsSubsequence(r, s + [x])
  {
    if r != [] {
      assert (s + [x])[..|s|] == s;
    }
  }

  lemma SubsequenceKeep<T>(r: seq<T>, s: seq<T>, x: T)
    requires IsSubsequence(r, s)
    ensures IsSubsequence(r + [x], s + [x])
  {
    assert (r + [x])[..|r|] == r;
    assert (s + [x])[..|s|] == s;
  }

  /** Everything kept comes from the original. */
  lemma {:induction false} SubsequenceMembers<T>(r: seq<T>, s: seq<T>)
    requires IsSubsequence(r, s)
    ensures forall x :: x in r ==> x in s
    decreases |s|
  {
    if r != [] {
      var r', s' := r[..|r| - 1], s[..|s| - 1];
      if r[|r| - 1] == s[|s| - 1] && IsSubsequence(r', s') {
        SubsequenceMembers(r', s');
        assert r == r' + [r[|r| - 1]];
        assert s == s' + [s[|s| - 1]];
      } else {
        SubsequenceMembers(r, s');
        assert s == s' + [s[|s| - 1]];
      }
    }
  }

  /** A selection is never longer than the original. */
  lemma {:induction false} SubsequenceShorter<T>(r: seq<T>, s: seq<T>)
    requires IsSubsequence(r, s)
    ensures |r| <= |s|
    decreases |s|
  {
    if r != [] {
      var r', s' := r[..|r| - 1], s[..|s| - 1];
      if r[|r| - 1] == s[|s| - 1] && IsSubsequence(r', s') {
        SubsequenceShorter(r', s');
      } else {
        SubsequenceShorter(r, s');
      }
    }
  }

  /** `s.filter(keep)`: the elements `keep` accepts, in order. */
  function Filter<T>(s: seq<T>, keep: T -> bool): (r: seq<T>)
    ensures IsSubsequence(r, s)
    ensures forall i :: 0 <= i < |r| ==> keep(r[i])
    ensures forall x :: x in s && keep(x) ==> x in r
    decreases |s|
  {
    if s == [] then []
    else
      var init, x := s[..|s| - 1], s[|s| - 1];
      var r0 := Filter(init, keep);
      assert s == init + [x];
      if keep(x) then
        SubsequenceKeep(r0, init, x);
        r0 + [x]
      else
        SubsequenceSkip(r0, init, x);
        r0
  }

  /** The filter keeps every accepted element as often as it occurs, and no other. */
  lemma {:induction false} FilterMultiset<T>(s: seq<T>, keep: T -> bool)
    ensures forall x :: x in s ==> multiset(Filter(s, keep))[x] == if keep(x) then multiset(s)[x] else 0
    decreases |s|
  {
    if s != [] {
      var init, x := s[..|s| - 1], s[|s| - 1];
      FilterMultiset(init, keep);
      assert s == init + [x];
      var r0 := Filter(init, keep);
      assert Filter(s, keep) == if keep(x) then r0 + [x] else r0;
      forall y | y in s
        ensures multiset(Filter(s, keep))[y] == if keep(y) then multiset(s)[y] else 0
      {
        if y !in init {
          assert multiset(init)[y] == 0;
          assert multiset(r0)[y] == 0 by {
            if multiset(r0)[y] > 0 {
              SubsequenceMembers(r0, init);
            }
          }
        }
      }
    }
  }

  /** A filter that accepts every element keeps the sequence whole. */
  lemma {:induction false} FilterAll<T>(s: seq<T>, keep: T -> bool)
    requires forall i :: 0 <= i < |s| ==> keep(s[i])
    ensures Filter(s, keep) == s
    decreases |s|
  {
    if s != [] {
      var init := s[..|s| - 1];
      assert forall i :: 0 <= i < |init| ==> init[i] == s[i];
      FilterAll(init, keep);
      assert s == init + [s[|s| - 1]];
    }
  }
}
