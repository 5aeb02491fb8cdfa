/** The stack of ranges still to be sorted in rqsort of src/cutils.c. */
module Pending {
  import opened Permutation
  import opened SortOrder

  /** A stack entry of rqsort. */
  datatype Frame = Frame(base: nat, count: nat, depth: int)

  ghost predicate Covers(f: Frame, i: int, j: int) {
    f.base <= i && j < f.base + f.count
  }

  /** Some frame holds both positions. */
  ghost predicate Together(frames: seq<Frame>, i: int, j: int) {
    exists k :: 0 <= k < |frames| && Covers(frames[k], i, j)
  }

  /** Any two elements are in order, unless they lie in one pending frame. */
  ghost predicate InOrderBut<T>(cmp: (nat, T, T) -> int, s: seq<T>, frames: seq<Frame>) {
    forall i, j :: 0 <= i < j < |s| ==> Le(cmp, s[i], s[j]) || Together(frames, i, j)
  }

  predicate Apart(f: Frame, g: Frame) {
    f.base + f.count <= g.base || g.base + g.count <= f.base
  }

  /** Frames within `n` positions that do not overlap. */
  ghost predicate Disjoint(frames: seq<Frame>, n: nat) {
    && (forall k :: 0 <= k < |frames| ==> frames[k].base + frames[k].count <= n)
    && (forall k, l :: 0 <= k < l < |frames| ==> Apart(frames[k], frames[l]))
  }

  /** A measure that splitting a frame decreases. */
  function Weight(frames: seq<Frame>): (w: nat) {
    if frames == [] then 0 else Weight(frames[..|frames| - 1]) + 2 * frames[|frames| - 1].count + 1
  }

  lemma WeightPush(frames: seq<Frame>, f: Frame)
    ensures Weight(frames + [f]) == Weight(frames) + 2 * f.count + 1
  {
    assert (frames + [f])[..|frames|] == frames;
  }

  /** Depths grow up the stack, from at least one at the bottom to at most fifty: fifty entries are enough. */
  ghost predicate Climbing(frames: seq<Frame>) {
    && (forall k :: 0 <= k < |frames| ==> k + 1 <= frames[k].depth <= 50)
    && (forall k, l :: 0 <= k < l < |frames| ==> frames[k].depth < frames[l].depth)
  }

  lemma ClimbingPush(frames: seq<Frame>, f: Frame)
    requires Climbing(frames) && 1 <= f.depth <= 50 && (frames != [] ==> frames[|frames| - 1].depth < f.depth)
    ensures Climbing(frames + [f]) && |frames| < 50
  {
    var t := frames + [f];
    if frames != [] { assert frames[|frames| - 1].depth >= |frames|; }
    forall k, l | 0 <= k < l < |t| ensures t[k].depth < t[l].depth {
      if l == |frames| && k < |frames| - 1 { assert frames[k].depth < frames[|frames| - 1].depth; }
    }
  }

  // ----- rearranging and splitting the last frame -----

  /** No frame reaches from inside the last frame to outside it. */
  lemma Outside(frames: seq<Frame>, f: Frame, n: nat, i: int, j: int)
    requires Disjoint(frames + [f], n)
    requires (f.base <= i < f.base + f.count <= j) || (i < f.base <= j < f.base + f.count)
    ensures !Together(frames + [f], i, j)
  {
    var all := frames + [f];
    assert all[|frames|] == f;
    forall k | 0 <= k < |all| ensures !Covers(all[k], i, j) {
      if k < |frames| { assert Apart(all[k], all[|frames|]); }
    }
  }

  /** Rearranging within a pending frame keeps the order outside it. */
  lemma RearrangeKeeps<T>(cmp: (nat, T, T) -> int, s: seq<T>, t: seq<T>, frames: seq<Frame>, f: Frame)
    requires Disjoint(frames + [f], |s|) && InOrderBut(cmp, s, frames + [f])
    requires Permuted(s, t, f.base, f.base + f.count)
    ensures InOrderBut(cmp, t, frames + [f])
  {
    hide Le, Together, Disjoint;
    var lo, hi := f.base, f.base + f.count;
    forall i, j | 0 <= i < j < |t| && !Together(frames + [f], i, j) ensures Le(cmp, t[i], t[j]) {
      if lo <= i < hi {
        CoverBoth(frames, f, i, j);
        var i' := FromStretch(s, t, lo, hi, i);
        Outside(frames, f, |s|, i', j);
      } else if lo <= j < hi {
        var j' := FromStretch(s, t, lo, hi, j);
        Outside(frames, f, |s|, i, j');
      }
    }
  }

  lemma CoverBoth(frames: seq<Frame>, f: Frame, i: int, j: int)
    requires !Together(frames + [f], i, j) && f.base <= i
    ensures j >= f.base + f.count
  {
    assert (frames + [f])[|frames|] == f;
    assert !Covers(f, i, j);
  }

  /** A sorted frame is no longer pending. */
  lemma Settle<T>(cmp: (nat, T, T) -> int, s: seq<T>, frames: seq<Frame>, f: Frame)
    requires InOrderBut(cmp, s, frames + [f]) && f.base + f.count <= |s|
    requires SortedRange(cmp, s, f.base, f.base + f.count)
    ensures InOrderBut(cmp, s, frames)
  {
    hide Le;
    forall i, j | 0 <= i < j < |s| ensures Le(cmp, s[i], s[j]) || Together(frames, i, j) {
      if Together(frames + [f], i, j) && !Together(frames, i, j) {
        var k :| 0 <= k < |frames + [f]| && Covers((frames + [f])[k], i, j);
        if k < |frames| { assert Covers(frames[k], i, j); }
      }
    }
  }

  /** A frame split around a pivot leaves its two ends pending. */
  lemma SplitKeeps<T(!new)>(cmp: (nat, T, T) -> int, s: seq<T>, frames: seq<Frame>, f: Frame, v: T, p1: nat, p2: nat,
                            g: Frame, h: Frame)
    requires Preorder(cmp) && InOrderBut(cmp, s, frames + [f]) && f.base + f.count <= |s|
    requires Split(cmp, s, v, f.base, p1, p2, f.base + f.count)
    requires IsEnds(f, p1, p2, g, h) || IsEnds(f, p1, p2, h, g)
    ensures InOrderBut(cmp, s, (frames + [g]) + [h])
  {
    hide Le, Preorder;
    var all, new_ := frames + [f], (frames + [g]) + [h];
    forall i, j | 0 <= i < j < |s| ensures Le(cmp, s[i], s[j]) || Together(new_, i, j) {
      assert new_[|frames|] == g && new_[|frames| + 1] == h;
      if Covers(f, i, j) {
        if !Covers(g, i, j) && !Covers(h, i, j) { LeTransitive(cmp, s[i], v, s[j]); }
      } else if Together(all, i, j) {
        var k :| 0 <= k < |all| && Covers(all[k], i, j);
        assert Covers(new_[k], i, j);
      }
    }
  }

  /** The ends of a split frame. */
  ghost predicate IsEnds(f: Frame, p1: nat, p2: nat, g: Frame, h: Frame) {
    && f.base <= p1 < p2 <= f.base + f.count
    && g.base == f.base && g.count == p1 - f.base && h.base == p2 && h.count == f.base + f.count - p2
  }

  lemma SplitDisjoint(frames: seq<Frame>, f: Frame, n: nat, p1: nat, p2: nat, g: Frame, h: Frame)
    requires Disjoint(frames + [f], n) && (IsEnds(f, p1, p2, g, h) || IsEnds(f, p1, p2, h, g))
    ensures Disjoint((frames + [g]) + [h], n) && g.count + h.count < f.count
  {
    var all, new_ := frames + [f], (frames + [g]) + [h];
    assert all[|frames|] == f;
    forall k, l | 0 <= k < l < |new_| ensures Apart(new_[k], new_[l]) {
      if k < |frames| {
        assert new_[k] == all[k];
        assert Apart(all[k], all[|frames|]);
        if l < |frames| { assert Apart(all[k], all[l]); }
      }
    }
    forall k | 0 <= k < |new_| ensures new_[k].base + new_[k].count <= n {
      if k < |frames| { assert all[k].base + all[k].count <= n; }
    }
  }

  lemma DisjointPop(frames: seq<Frame>, f: Frame, n: nat)
    requires Disjoint(frames + [f], n)
    ensures Disjoint(frames, n) && f.base + f.count <= n
  {
    var all := frames + [f];
    assert all[|frames|] == f;
    forall k | 0 <= k < |frames| ensures frames[k].base + frames[k].count <= n { assert all[k] == frames[k]; }
    forall k, l | 0 <= k < l < |frames| ensures Apart(frames[k], frames[l]) { assert Apart(all[k], all[l]); }
  }

  /** With nothing pending all is in order. */
  lemma NothingPending<T>(cmp: (nat, T, T) -> int, s: seq<T>)
    requires InOrderBut(cmp, s, [])
    ensures SortedRange(cmp, s, 0, |s|)
  {
    hide Le;
  }

  lemma AllPending<T>(cmp: (nat, T, T) -> int, s: seq<T>, f: Frame)
    requires f.base == 0 && f.count == |s|
    ensures InOrderBut(cmp, s, [f]) && Disjoint([f], |s|)
  {
    hide Le;
    forall i, j | 0 <= i < j < |s| ensures Together([f], i, j) { assert Covers([f][0], i, j); }
  }

  lemma ClimbingNone()
    ensures Climbing([])
  {}

  lemma ClimbingPop(frames: seq<Frame>, f: Frame)
    requires Climbing(frames + [f])
    ensures Climbing(frames) && 1 <= f.depth <= 50 && (frames != [] ==> frames[|frames| - 1].depth < f.depth)
  {
    var all := frames + [f];
    assert all[|frames|] == f;
    forall k | 0 <= k < |frames| ensures k + 1 <= frames[k].depth <= 50 { assert all[k] == frames[k]; }
    forall k, l | 0 <= k < l < |frames| ensures frames[k].depth < frames[l].depth {
      assert all[k].depth < all[l].depth;
    }
    if frames != [] { assert all[|frames| - 1].depth < all[|frames|].depth; }
  }
}
