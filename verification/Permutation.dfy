/** Rearranging a stretch of a sequence. */
module Permutation {
  /** `t` is `s` with the elements from `lo` to `hi` rearranged. */
  ghost predicate Permuted<T>(s: seq<T>, t: seq<T>, lo: nat, hi: nat) {
    && |s| == |t| && lo <= hi <= |s|
    && (forall i :: 0 <= i < lo ==> t[i] == s[i]) && (forall i :: hi <= i < |s| ==> t[i] == s[i])
    && multiset(t[lo..hi]) == multiset(s[lo..hi])
  }

  lemma PermutedSelf<T>(s: seq<T>, lo: nat, hi: nat)
    requires lo <= hi <= |s|
    ensures Permuted(s, s, lo, hi)
  {}

  lemma PermutedTwice<T>(s: seq<T>, t: seq<T>, u: seq<T>, lo: nat, hi: nat)
    requires Permuted(s, t, lo, hi) && Permuted(t, u, lo, hi)
    ensures Permuted(s, u, lo, hi)
  {}

  lemma PermutedWider<T>(s: seq<T>, t: seq<T>, lo: nat, hi: nat, lo': nat, hi': nat)
    requires Permuted(s, t, lo, hi) && lo' <= lo && hi <= hi' <= |s|
    ensures Permuted(s, t, lo', hi')
  {
    assert s[lo'..hi'] == s[lo'..lo] + s[lo..hi] + s[hi..hi'];
    assert t[lo'..hi'] == t[lo'..lo] + t[lo..hi] + t[hi..hi'];
    assert s[lo'..lo] == t[lo'..lo] && s[hi..hi'] == t[hi..hi'];
  }

  /** A sequence with two elements exchanged. */
  function Swapped<T>(s: seq<T>, i: nat, j: nat): (t: seq<T>)
    requires i < |s| && j < |s|
    ensures |t| == |s| && t[i] == s[j] && t[j] == s[i]
    ensures forall k :: 0 <= k < |s| && k != i && k != j ==> t[k] == s[k]
  {
    s[i := s[j]][j := s[i]]
  }

  lemma SwapPermutes<T>(s: seq<T>, i: nat, j: nat, lo: nat, hi: nat)
    requires lo <= i < hi <= |s| && lo <= j < hi
    ensures Permuted(s, Swapped(s, i, j), lo, hi)
  {
    var u, t := s[lo..hi], Swapped(s, i, j)[lo..hi];
    var i', j' := i - lo, j - lo;
    assert t == u[i' := u[j']][j' := u[i']];
    UpdateCount(u, i', u[j']);
    UpdateCount(u[i' := u[j']], j', u[i']);
  }

  lemma UpdateCount<T>(u: seq<T>, i: nat, x: T)
    requires i < |u|
    ensures multiset(u[i := x]) == multiset(u) - multiset{u[i]} + multiset{x}
  {
    assert u == u[..i] + [u[i]] + u[i + 1..];
    assert u[i := x] == u[..i] + [x] + u[i + 1..];
  }

  /** Every element of the rearranged stretch was in it before. */
  lemma FromStretch<T>(s: seq<T>, t: seq<T>, lo: nat, hi: nat, i: nat) returns (j: nat)
    requires Permuted(s, t, lo, hi) && lo <= i < hi
    ensures lo <= j < hi && t[i] == s[j]
  {
    assert t[i] == t[lo..hi][i - lo];
    assert t[i] in multiset(t[lo..hi]);
    assert t[i] in s[lo..hi];
    var k :| 0 <= k < hi - lo && s[lo..hi][k] == t[i];
    j := lo + k;
  }
}
