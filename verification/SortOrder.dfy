/** Orders, heaps and partitions of sequences, as the sort of src/cutils.c builds them. */
module SortOrder {
  import opened Permutation

  /**
    * A comparator is asked many times and may answer differently each time: `cmp(t, x, y)` is its answer at
    * the `t`-th question. `Le` is its first opinion.
    */
  ghost predicate Le<T>(cmp: (nat, T, T) -> int, x: T, y: T) {
    cmp(0, x, y) <= 0
  }

  /** A consistent comparator: one total preorder, whenever it is asked. */
  ghost predicate Preorder<T(!new)>(cmp: (nat, T, T) -> int) {
    && (forall t: nat, x, y :: cmp(t, x, y) <= 0 <==> Le(cmp, x, y))
    && (forall t: nat, x, y :: cmp(t, x, y) >= 0 <==> Le(cmp, y, x))
    && (forall x, y, z :: Le(cmp, x, y) && Le(cmp, y, z) ==> Le(cmp, x, z))
  }

  lemma LeAnswers<T(!new)>(cmp: (nat, T, T) -> int, t: nat, x: T, y: T)
    requires Preorder(cmp)
    ensures cmp(t, x, y) <= 0 <==> Le(cmp, x, y)
    ensures cmp(t, x, y) >= 0 <==> Le(cmp, y, x)
  {}

  lemma LeTransitive<T(!new)>(cmp: (nat, T, T) -> int, x: T, y: T, z: T)
    requires Preorder(cmp) && Le(cmp, x, y) && Le(cmp, y, z)
    ensures Le(cmp, x, z)
  {}

  lemma LeReflexive<T(!new)>(cmp: (nat, T, T) -> int, x: T)
    requires Preorder(cmp)
    ensures Le(cmp, x, x)
  {
    hide Le;
    LeAnswers(cmp, 0, x, x);
  }

  ghost predicate SortedRange<T>(cmp: (nat, T, T) -> int, s: seq<T>, lo: nat, hi: nat)
    requires hi <= |s|
  {
    forall i, j :: lo <= i < j < hi ==> Le(cmp, s[i], s[j])
  }

  // ----- the insertion step -----

  /** Sorted but for the element at `p`, which may belong further left. */
  ghost predicate AlmostSorted<T>(cmp: (nat, T, T) -> int, s: seq<T>, lo: nat, hi: nat, p: nat)
    requires hi <= |s|
  {
    forall i, j :: lo <= i < j < hi && j != p ==> Le(cmp, s[i], s[j])
  }

  lemma InsertStep<T(!new)>(cmp: (nat, T, T) -> int, s: seq<T>, lo: nat, hi: nat, p: nat)
    requires Preorder(cmp) && lo < p < hi <= |s| && AlmostSorted(cmp, s, lo, hi, p) && Le(cmp, s[p], s[p - 1])
    ensures AlmostSorted(cmp, Swapped(s, p, p - 1), lo, hi, p - 1)
  {
    hide Le, Preorder;
  }

  lemma InsertDone<T(!new)>(cmp: (nat, T, T) -> int, s: seq<T>, lo: nat, hi: nat, p: nat)
    requires Preorder(cmp) && lo <= p < hi <= |s| && AlmostSorted(cmp, s, lo, hi, p)
    requires p == lo || Le(cmp, s[p - 1], s[p])
    ensures SortedRange(cmp, s, lo, hi)
  {
    hide Le, Preorder;
    forall i, j | lo <= i < j < hi ensures Le(cmp, s[i], s[j]) {
      if j == p && i < p - 1 { LeTransitive(cmp, s[i], s[p - 1], s[p]); }
    }
  }

  // ----- heaps -----

  function Parent(k: nat): (p: nat)
    requires k > 0
    ensures p < k
  {
    (k - 1) / 2
  }

  /** From position `from` on, no child is greater than its parent; positions count from `lo`. */
  ghost predicate Heap<T>(cmp: (nat, T, T) -> int, s: seq<T>, lo: nat, from: nat, n: nat)
    requires lo + n <= |s|
  {
    forall k :: 0 < k < n && from <= Parent(k) ==> Le(cmp, s[lo + k], s[lo + Parent(k)])
  }

  /** As Heap, but the element at `r` may be too small; its children are still no greater than its parent. */
  ghost predicate HeapBut<T>(cmp: (nat, T, T) -> int, s: seq<T>, lo: nat, from: nat, n: nat, r: nat)
    requires lo + n <= |s|
  {
    && (forall k :: 0 < k < n && from <= Parent(k) && Parent(k) != r ==> Le(cmp, s[lo + k], s[lo + Parent(k)]))
    && (forall k :: 0 < k < n && Parent(k) == r && r > from && from <= Parent(r) ==>
          Le(cmp, s[lo + k], s[lo + Parent(r)]))
  }

  /** Moving the greatest child up. */
  lemma SiftStep<T(!new)>(cmp: (nat, T, T) -> int, s: seq<T>, lo: nat, from: nat, n: nat, r: nat, c: nat)
    requires Preorder(cmp) && lo + n <= |s| && from <= r < c < n && Parent(c) == r && HeapBut(cmp, s, lo, from, n, r)
    requires forall k :: 0 < k < n && Parent(k) == r ==> Le(cmp, s[lo + k], s[lo + c])
    requires Le(cmp, s[lo + r], s[lo + c])
    ensures HeapBut(cmp, Swapped(s, lo + r, lo + c), lo, from, n, c)
  {
    hide Le, Preorder;
    var t := Swapped(s, lo + r, lo + c);
    forall k | 0 < k < n && from <= Parent(k) && Parent(k) != c
      ensures Le(cmp, t[lo + k], t[lo + Parent(k)])
    {
      if k == r {
        assert t[lo + k] == s[lo + c];
      }
    }
  }

  lemma SiftDone<T(!new)>(cmp: (nat, T, T) -> int, s: seq<T>, lo: nat, from: nat, n: nat, r: nat)
    requires lo + n <= |s| && HeapBut(cmp, s, lo, from, n, r)
    requires forall k :: 0 < k < n && Parent(k) == r ==> Le(cmp, s[lo + k], s[lo + r])
    ensures Heap(cmp, s, lo, from, n)
  {}

  /** The root of a heap is its greatest element. */
  lemma {:induction false} RootGreatest<T(!new)>(cmp: (nat, T, T) -> int, s: seq<T>, lo: nat, n: nat, k: nat)
    requires Preorder(cmp) && lo + n <= |s| && k < n && Heap(cmp, s, lo, 0, n)
    ensures Le(cmp, s[lo + k], s[lo])
    decreases k
  {
    hide Le, Preorder;
    if k == 0 {
      LeReflexive(cmp, s[lo]);
    } else {
      RootGreatest(cmp, s, lo, n, Parent(k));
      LeTransitive(cmp, s[lo + k], s[lo + Parent(k)], s[lo]);
    }
  }

  /** Every element is at most every later one that lies beyond position `i`. */
  ghost predicate Tail<T>(cmp: (nat, T, T) -> int, s: seq<T>, lo: nat, i: nat, n: nat)
    requires lo + n <= |s|
  {
    forall x, y :: lo <= x < y < lo + n && y > lo + i ==> Le(cmp, s[x], s[y])
  }

  /** Exchanging the root with the last element of the heap extends the tail. */
  lemma ExtractStep<T(!new)>(cmp: (nat, T, T) -> int, s: seq<T>, lo: nat, i: nat, n: nat)
    requires Preorder(cmp) && lo + n <= |s| && 0 < i < n && Heap(cmp, s, lo, 0, i + 1) && Tail(cmp, s, lo, i, n)
    ensures
      var t := Swapped(s, lo, lo + i);
      Tail(cmp, t, lo, i - 1, n) && HeapBut(cmp, t, lo, 0, i, 0)
  {
    hide Le, Preorder;
    var t := Swapped(s, lo, lo + i);
    forall x, y | lo <= x < y < lo + n && y > lo + i - 1 ensures Le(cmp, t[x], t[y]) {
      if y == lo + i {
        RootGreatest(cmp, s, lo, i + 1, if x == lo then i else x - lo);
      }
    }
  }

  /** Rearranging the heap part leaves the tail a tail. */
  lemma TailKept<T>(cmp: (nat, T, T) -> int, s: seq<T>, t: seq<T>, lo: nat, i: nat, n: nat)
    requires lo + n <= |s| && 0 < i < n && Tail(cmp, s, lo, i - 1, n) && Permuted(s, t, lo, lo + i)
    ensures Tail(cmp, t, lo, i - 1, n)
  {
    hide Le;
    forall x, y | lo <= x < y < lo + n && y > lo + i - 1 ensures Le(cmp, t[x], t[y]) {
      if x < lo + i {
        var x' := FromStretch(s, t, lo, lo + i, x);
        assert Le(cmp, s[x'], s[y]);
      }
    }
  }

  /** The empty tail, and the tail that is everything. */
  lemma TailEnds<T>(cmp: (nat, T, T) -> int, s: seq<T>, lo: nat, n: nat)
    requires 0 < n && lo + n <= |s|
    ensures Tail(cmp, s, lo, n - 1, n)
    ensures Tail(cmp, s, lo, 0, n) ==> SortedRange(cmp, s, lo, lo + n)
  {
    hide Le;
  }

  // ----- partitions -----

  /** Elements up to the pivot `v`. */
  ghost predicate AtMost<T>(cmp: (nat, T, T) -> int, s: seq<T>, from: nat, to: nat, v: T)
    requires to <= |s|
  {
    forall k :: from <= k < to ==> Le(cmp, s[k], v)
  }

  ghost predicate AtLeast<T>(cmp: (nat, T, T) -> int, s: seq<T>, from: nat, to: nat, v: T)
    requires to <= |s|
  {
    forall k :: from <= k < to ==> Le(cmp, v, s[k])
  }

  /** The pivot at `lo`, equal elements at both ends, smaller and greater ones inside them, the rest unseen. */
  ghost predicate Zones<T>(cmp: (nat, T, T) -> int, s: seq<T>, v: T, lo: nat, plt: nat, pi: nat, pj: nat, pgt: nat,
                           hi: nat)
  {
    && lo < plt <= pi <= pj <= pgt <= hi <= |s| && s[lo] == v
    && AtMost(cmp, s, lo, pi, v) && AtLeast(cmp, s, lo, plt, v)
    && AtLeast(cmp, s, pj, hi, v) && AtMost(cmp, s, pgt, hi, v)
  }

  /** Everything before `p2` is at most `v`, everything from `p1` on at least `v`. */
  ghost predicate Split<T>(cmp: (nat, T, T) -> int, s: seq<T>, v: T, lo: nat, p1: nat, p2: nat, hi: nat) {
    && lo <= p1 <= p2 <= hi <= |s| && AtMost(cmp, s, lo, p2, v) && AtLeast(cmp, s, p1, hi, v)
  }

  /** Where the element at `k` was before two stretches of `n` elements were exchanged. */
  function Origin(k: int, x: int, y: int, n: int): int {
    if x <= k < x + n then k - x + y else if y <= k < y + n then k - y + x else k
  }

  /** A sequence with two stretches of equal length exchanged. */
  ghost predicate BlocksSwapped<T>(s: seq<T>, t: seq<T>, x: nat, y: nat, n: nat) {
    && |s| == |t| && x + n <= y && y + n <= |s|
    && (forall k :: 0 <= k < |s| ==> t[k] == s[Origin(k, x, y, n)])
  }

  /** Exchanging the ends brings the elements equal to the pivot to the middle. */
  lemma GatherLeft<T>(cmp: (nat, T, T) -> int, s: seq<T>, t: seq<T>, v: T, lo: nat, plt: nat, pi: nat, pgt: nat,
                      hi: nat, n: nat)
    requires Zones(cmp, s, v, lo, plt, pi, pi, pgt, hi)
    requires n == (if plt - lo > pi - plt then pi - plt else plt - lo) && BlocksSwapped(s, t, lo, pi - n, n)
    ensures AtMost(cmp, t, lo, pi, v) && AtLeast(cmp, t, lo + (pi - plt), hi, v) && AtMost(cmp, t, pgt, hi, v)
  {
    hide Le;
    forall k | lo <= k < pi ensures Le(cmp, t[k], v) { assert t[k] == s[Origin(k, lo, pi - n, n)]; }
    forall k | lo + (pi - plt) <= k < hi ensures Le(cmp, v, t[k]) { assert t[k] == s[Origin(k, lo, pi - n, n)]; }
    forall k | pgt <= k < hi ensures Le(cmp, t[k], v) { assert t[k] == s[Origin(k, lo, pi - n, n)]; }
  }

  lemma GatherRight<T>(cmp: (nat, T, T) -> int, s: seq<T>, t: seq<T>, v: T, lo: nat, p1: nat, pi: nat, pgt: nat,
                       hi: nat, n: nat)
    requires lo <= p1 <= pi <= pgt <= hi <= |s|
    requires AtMost(cmp, s, lo, pi, v) && AtLeast(cmp, s, p1, hi, v) && AtMost(cmp, s, pgt, hi, v)
    requires n == (if hi - pgt > pgt - pi then pgt - pi else hi - pgt) && BlocksSwapped(s, t, pi, hi - n, n)
    ensures Split(cmp, t, v, lo, p1, hi - (pgt - pi), hi)
  {
    hide Le;
    forall k | lo <= k < hi - (pgt - pi) ensures Le(cmp, t[k], v) { assert t[k] == s[Origin(k, pi, hi - n, n)]; }
    forall k | p1 <= k < hi ensures Le(cmp, v, t[k]) { assert t[k] == s[Origin(k, pi, hi - n, n)]; }
  }

  lemma GreatestChild<T(!new)>(cmp: (nat, T, T) -> int, s: seq<T>, lo: nat, n: nat, r: nat, c: nat)
    requires Preorder(cmp) && lo + n <= |s| && c < n && (c == 2 * r + 1 || c == 2 * r + 2)
    requires c == 2 * r + 1 && c < n - 1 ==> Le(cmp, s[lo + c + 1], s[lo + c])
    requires c == 2 * r + 2 ==> Le(cmp, s[lo + c - 1], s[lo + c])
    ensures forall k :: 0 < k < n && Parent(k) == r ==> Le(cmp, s[lo + k], s[lo + c])
  {
    hide Le, Preorder;
    LeReflexive(cmp, s[lo + c]);
    forall k | 0 < k < n && Parent(k) == r ensures Le(cmp, s[lo + k], s[lo + c]) {
      assert k == 2 * r + 1 || k == 2 * r + 2;
    }
  }

  lemma SiftStop<T(!new)>(cmp: (nat, T, T) -> int, s: seq<T>, lo: nat, from: nat, n: nat, r: nat, c: nat)
    requires Preorder(cmp) && lo + n <= |s| && r < c < n && HeapBut(cmp, s, lo, from, n, r)
    requires forall k :: 0 < k < n && Parent(k) == r ==> Le(cmp, s[lo + k], s[lo + c])
    requires Le(cmp, s[lo + c], s[lo + r])
    ensures Heap(cmp, s, lo, from, n)
  {
    hide Le, Preorder;
    forall k | 0 < k < n && Parent(k) == r ensures Le(cmp, s[lo + k], s[lo + r]) {
      LeTransitive(cmp, s[lo + k], s[lo + c], s[lo + r]);
    }
    SiftDone(cmp, s, lo, from, n, r);
  }

  lemma NoParents<T>(cmp: (nat, T, T) -> int, s: seq<T>, lo: nat, n: nat)
    requires lo + n <= |s|
    ensures Heap(cmp, s, lo, n / 2, n)
  {}

  lemma HeapFrom<T>(cmp: (nat, T, T) -> int, s: seq<T>, lo: nat, i: nat, n: nat)
    requires lo + n <= |s| && Heap(cmp, s, lo, i + 1, n)
    ensures HeapBut(cmp, s, lo, i, n, i)
  {
    hide Le;
  }

  // ----- steps of the partition -----

  lemma PivotIs<T>(cmp: (nat, T, T) -> int, s: seq<T>, v: T, lo: nat, plt: nat, pi: nat, pj: nat, pgt: nat, hi: nat)
    requires Zones(cmp, s, v, lo, plt, pi, pj, pgt, hi)
    ensures lo < |s| && s[lo] == v
  {}

  lemma EqualLeft<T>(cmp: (nat, T, T) -> int, s: seq<T>, v: T, lo: nat, plt: nat, pi: nat, pj: nat, pgt: nat, hi: nat)
    requires Zones(cmp, s, v, lo, plt, pi, pj, pgt, hi) && pi < pj && Le(cmp, s[pi], v) && Le(cmp, v, s[pi])
    ensures Zones(cmp, Swapped(s, plt, pi), v, lo, plt + 1, pi + 1, pj, pgt, hi)
  {
    hide Le;
  }

  lemma LessLeft<T>(cmp: (nat, T, T) -> int, s: seq<T>, v: T, lo: nat, plt: nat, pi: nat, pj: nat, pgt: nat, hi: nat)
    requires Zones(cmp, s, v, lo, plt, pi, pj, pgt, hi) && pi < pj && Le(cmp, s[pi], v)
    ensures Zones(cmp, s, v, lo, plt, pi + 1, pj, pgt, hi)
  {
    hide Le;
  }

  lemma EqualRight<T>(cmp: (nat, T, T) -> int, s: seq<T>, v: T, lo: nat, plt: nat, pi: nat, pj: nat, pgt: nat, hi: nat)
    requires Zones(cmp, s, v, lo, plt, pi, pj + 1, pgt, hi) && pi < pj && Le(cmp, s[pj], v) && Le(cmp, v, s[pj])
    ensures Zones(cmp, Swapped(s, pgt - 1, pj), v, lo, plt, pi, pj, pgt - 1, hi)
    ensures Swapped(s, pgt - 1, pj)[pi] == s[pi]
  {
    hide Le;
  }

  lemma GreaterRight<T>(cmp: (nat, T, T) -> int, s: seq<T>, v: T, lo: nat, plt: nat, pi: nat, pj: nat, pgt: nat,
                        hi: nat)
    requires Zones(cmp, s, v, lo, plt, pi, pj + 1, pgt, hi) && pi < pj && Le(cmp, v, s[pj])
    ensures Zones(cmp, s, v, lo, plt, pi, pj, pgt, hi)
  {
    hide Le;
  }

  lemma MeetRight<T>(cmp: (nat, T, T) -> int, s: seq<T>, v: T, lo: nat, plt: nat, pi: nat, pgt: nat, hi: nat)
    requires Zones(cmp, s, v, lo, plt, pi, pi + 1, pgt, hi) && Le(cmp, v, s[pi])
    ensures Zones(cmp, s, v, lo, plt, pi, pi, pgt, hi)
  {
    hide Le;
  }

  lemma ZonesStart<T(!new)>(cmp: (nat, T, T) -> int, s: seq<T>, v: T, lo: nat, hi: nat)
    requires Preorder(cmp) && lo < hi <= |s| && s[lo] == v
    ensures Zones(cmp, s, v, lo, lo + 1, lo + 1, hi, hi, hi)
  {
    hide Le, Preorder;
    LeReflexive(cmp, v);
  }

  lemma Exchange<T>(cmp: (nat, T, T) -> int, s: seq<T>, v: T, lo: nat, plt: nat, pi: nat, pj: nat, pgt: nat, hi: nat)
    requires Zones(cmp, s, v, lo, plt, pi, pj + 1, pgt, hi) && pi < pj && Le(cmp, v, s[pi]) && Le(cmp, s[pj], v)
    ensures Zones(cmp, Swapped(s, pi, pj), v, lo, plt, pi + 1, pj, pgt, hi)
  {
    hide Le;
  }

  lemma OneMore<T>(s: seq<T>, t: seq<T>, x: nat, y: nat, k: nat)
    requires BlocksSwapped(s, t, x, y, k) && x + k < y && y + k < |s|
    ensures BlocksSwapped(s, Swapped(t, x + k, y + k), x, y, k + 1)
  {
    var u := Swapped(t, x + k, y + k);
    forall i | 0 <= i < |s| ensures u[i] == s[Origin(i, x, y, k + 1)] {
      assert t[i] == s[Origin(i, x, y, k)];
    }
  }
}
