/** The in-place sort of src/cutils.c: heapsortx, med3 and rqsort. */
module Sort {
  import opened Permutation
  import opened SortOrder
  import opened Pending

  class Sorter<T(!new)> {
    const a: array<T>
    const cmp: (nat, T, T) -> int
    /** The number of questions asked so far. */
    var clock: nat

    constructor (a: array<T>, cmp: (nat, T, T) -> int)
      ensures this.a == a && this.cmp == cmp
    {
      this.a := a;
      this.cmp := cmp;
      clock := 0;
    }

    method Compare(i: nat, j: nat) returns (c: int)
      requires i < a.Length && j < a.Length
      modifies this
      ensures Preorder(cmp) ==> (c <= 0 <==> Le(cmp, a[i], a[j])) && (c >= 0 <==> Le(cmp, a[j], a[i]))
    {
      c := cmp(clock, a[i], a[j]);
      if Preorder(cmp) { LeAnswers(cmp, clock, a[i], a[j]); }
      clock := clock + 1;
    }

    method Swap(i: nat, j: nat)
      requires i < a.Length && j < a.Length
      modifies a
      ensures a[..] == Swapped(old(a[..]), i, j)
    {
      a[i], a[j] := a[j], a[i];
    }

    /** The insertion sort at the end of rqsort. */
    method InsertionSort(lo: nat, hi: nat)
      requires lo <= hi <= a.Length
      modifies this, a
      ensures Permuted(old(a[..]), a[..], lo, hi)
      ensures Preorder(cmp) ==> SortedRange(cmp, a[..], lo, hi)
    {
      hide Preorder, Le, Permuted, Swapped;
      ghost var s0 := a[..];
      PermutedSelf(s0, lo, hi);
      var pi := lo + 1;
      while pi < hi
        invariant lo + 1 <= pi && Permuted(s0, a[..], lo, hi)
        invariant Preorder(cmp) ==> SortedRange(cmp, a[..], lo, if pi <= hi then pi else hi)
      {
        var pj := pi;
        while true
          invariant lo <= pj <= pi && Permuted(s0, a[..], lo, hi)
          invariant Preorder(cmp) ==> AlmostSorted(cmp, a[..], lo, pi + 1, pj)
          decreases pj
        {
          if pj <= lo {
            break;
          }
          ghost var s := a[..];
          var c := Compare(pj - 1, pj);
          assert a[..] == s;
          if c <= 0 {
            break;
          }
          Swap(pj, pj - 1);
          SwapPermutes(s, pj, pj - 1, lo, hi);
          PermutedTwice(s0, s, a[..], lo, hi);
          if Preorder(cmp) { InsertStep(cmp, s, lo, pi + 1, pj); }
          pj := pj - 1;
        }
        if Preorder(cmp) { InsertDone(cmp, a[..], lo, pi + 1, pj); }
        pi := pi + 1;
      }
    }

    // ----- heapsortx -----

    /** The child that moves up. */
    method Child(lo: nat, r: nat, n: nat) returns (c: nat)
      requires lo + n <= a.Length && r * 2 + 1 < n
      modifies this
      ensures r < c < n && Parent(c) == r
      ensures Preorder(cmp) ==> forall k :: 0 < k < n && Parent(k) == r ==> Le(cmp, a[..][lo + k], a[..][lo + c])
    {
      hide Preorder, Le;
      c := r * 2 + 1;
      if c < n - 1 {
        var d := Compare(lo + c, lo + c + 1);
        if d <= 0 {
          c := c + 1;
        }
      }
      if Preorder(cmp) { GreatestChild(cmp, a[..], lo, n, r, c); }
    }

    /** One sift-down of heapsortx, from position `r0` in a heap of `n` elements. */
    method Sift(lo: nat, r0: nat, n: nat, ghost from: nat)
      requires lo + n <= a.Length && from <= r0
      modifies this, a
      ensures Permuted(old(a[..]), a[..], lo, lo + n)
      ensures Preorder(cmp) && old(HeapBut(cmp, a[..], lo, from, n, r0)) ==> Heap(cmp, a[..], lo, from, n)
    {
      hide Preorder, Le, Permuted, Swapped, HeapBut, Heap;
      ghost var s0 := a[..];
      ghost var good := Preorder(cmp) && HeapBut(cmp, a[..], lo, from, n, r0);
      PermutedSelf(s0, lo, lo + n);
      var r := r0;
      while true
        invariant r0 <= r && Permuted(s0, a[..], lo, lo + n)
        invariant good ==> HeapBut(cmp, a[..], lo, from, n, r)
        decreases if r < n then n - r else 0
      {
        ghost var s := a[..];
        if r * 2 + 1 >= n {
          if good { SiftDone(cmp, s, lo, from, n, r); }
          break;
        }
        var c := Child(lo, r, n);
        var d := Compare(lo + r, lo + c);
        assert a[..] == s;
        if d > 0 {
          if good { SiftStop(cmp, s, lo, from, n, r, c); }
          break;
        }
        Swap(lo + r, lo + c);
        SwapPermutes(s, lo + r, lo + c, lo, lo + n);
        PermutedTwice(s0, s, a[..], lo, lo + n);
        if good { SiftStep(cmp, s, lo, from, n, r, c); }
        r := c;
      }
    }

    /** The first loop of heapsortx. */
    method BuildHeap(lo: nat, n: nat)
      requires lo + n <= a.Length
      modifies this, a
      ensures Permuted(old(a[..]), a[..], lo, lo + n)
      ensures Preorder(cmp) ==> Heap(cmp, a[..], lo, 0, n)
    {
      hide Preorder, Le, Permuted, Swapped, Heap, HeapBut;
      ghost var s0 := a[..];
      PermutedSelf(s0, lo, lo + n);
      var i := n / 2;
      NoParents(cmp, a[..], lo, n);
      while i > 0
        invariant 0 <= i <= n / 2 && Permuted(s0, a[..], lo, lo + n)
        invariant Preorder(cmp) ==> Heap(cmp, a[..], lo, i, n)
      {
        i := i - 1;
        ghost var s := a[..];
        if Preorder(cmp) { HeapFrom(cmp, s, lo, i, n); }
        Sift(lo, i, n, i);
        PermutedTwice(s0, s, a[..], lo, lo + n);
      }
    }

    /** One step of the second loop of heapsortx: the root goes to the end, its place is refilled. */
    method Extract(lo: nat, i: nat, n: nat)
      requires lo + n <= a.Length && 0 < i < n
      modifies this, a
      ensures Permuted(old(a[..]), a[..], lo, lo + n)
      ensures Preorder(cmp) && old(Heap(cmp, a[..], lo, 0, i + 1) && Tail(cmp, a[..], lo, i, n)) ==>
        Heap(cmp, a[..], lo, 0, i) && Tail(cmp, a[..], lo, i - 1, n)
    {
      hide Preorder, Le, Permuted, Swapped, Heap, HeapBut, Tail;
      ghost var s := a[..];
      ghost var good := Preorder(cmp) && Heap(cmp, s, lo, 0, i + 1) && Tail(cmp, s, lo, i, n);
      Swap(lo, lo + i);
      ghost var t := a[..];
      SwapPermutes(s, lo, lo + i, lo, lo + n);
      if good { ExtractStep(cmp, s, lo, i, n); }
      Sift(lo, 0, i, 0);
      ghost var u := a[..];
      PermutedWider(t, u, lo, lo + i, lo, lo + n);
      PermutedTwice(s, t, u, lo, lo + n);
      if good { TailKept(cmp, t, u, lo, i, n); }
    }

    /** heapsortx on `n` elements from `lo`. */
    method HeapSort(lo: nat, n: nat)
      requires lo + n <= a.Length
      modifies this, a
      ensures Permuted(old(a[..]), a[..], lo, lo + n)
      ensures Preorder(cmp) ==> SortedRange(cmp, a[..], lo, lo + n)
    {
      hide Preorder, Le, Permuted, Heap, Tail;
      ghost var s0 := a[..];
      PermutedSelf(s0, lo, lo + n);
      if n <= 1 {
        return;
      }
      BuildHeap(lo, n);
      var i := n - 1;
      TailEnds(cmp, a[..], lo, n);
      while i > 0
        invariant 0 <= i < n && Permuted(s0, a[..], lo, lo + n)
        invariant Preorder(cmp) ==> Heap(cmp, a[..], lo, 0, i + 1) && Tail(cmp, a[..], lo, i, n)
      {
        ghost var s := a[..];
        Extract(lo, i, n);
        PermutedTwice(s0, s, a[..], lo, lo + n);
        i := i - 1;
      }
      TailEnds(cmp, a[..], lo, n);
    }

    // ----- rqsort -----

    /** med3: one of three positions; for a consistent comparator its element lies between the others. */
    method Med3(i: nat, j: nat, k: nat) returns (m: nat)
      requires i < a.Length && j < a.Length && k < a.Length
      modifies this
      ensures m == i || m == j || m == k
      ensures Preorder(cmp) ==>
        || (Le(cmp, a[i], a[m]) && Le(cmp, a[m], a[j])) || (Le(cmp, a[j], a[m]) && Le(cmp, a[m], a[i]))
        || (Le(cmp, a[i], a[m]) && Le(cmp, a[m], a[k])) || (Le(cmp, a[k], a[m]) && Le(cmp, a[m], a[i]))
        || (Le(cmp, a[j], a[m]) && Le(cmp, a[m], a[k])) || (Le(cmp, a[k], a[m]) && Le(cmp, a[m], a[j]))
    {
      hide Preorder, Le;
      var ij := Compare(i, j);
      var jk := Compare(j, k);
      if ij < 0 {
        if jk < 0 {
          m := j;
        } else {
          var ik := Compare(i, k);
          m := if ik < 0 then k else i;
        }
      } else if jk > 0 {
        m := j;
      } else {
        var ik := Compare(i, k);
        m := if ik < 0 then i else k;
      }
    }

    /** The scan from the left: smaller elements are passed, equal ones moved to the left end. */
    method ScanLeft(lo: nat, plt0: nat, pi0: nat, pj: nat, pgt: nat, hi: nat, ghost v: T) returns (plt: nat, pi: nat)
      requires lo < plt0 <= pi0 <= pj <= pgt <= hi <= a.Length
      modifies this, a
      ensures Permuted(old(a[..]), a[..], lo, hi) && plt0 <= plt <= pi && pi0 <= pi <= pj
      ensures Preorder(cmp) && old(Zones(cmp, a[..], v, lo, plt0, pi0, pj, pgt, hi)) ==>
        Zones(cmp, a[..], v, lo, plt, pi, pj, pgt, hi) && (pi < pj ==> Le(cmp, v, a[pi]))
    {
      hide Preorder, Le, Permuted, Swapped, Zones;
      ghost var s0 := a[..];
      ghost var good := Preorder(cmp) && Zones(cmp, a[..], v, lo, plt0, pi0, pj, pgt, hi);
      PermutedSelf(s0, lo, hi);
      plt, pi := plt0, pi0;
      while pi < pj
        invariant plt0 <= plt <= pi && pi0 <= pi <= pj && Permuted(s0, a[..], lo, hi)
        invariant good ==> Zones(cmp, a[..], v, lo, plt, pi, pj, pgt, hi)
      {
        ghost var s := a[..];
        var c := Compare(lo, pi);
        assert a[..] == s;
        if good { PivotIs(cmp, s, v, lo, plt, pi, pj, pgt, hi); }
        if c < 0 {
          return;
        }
        if c == 0 {
          Swap(plt, pi);
          SwapPermutes(s, plt, pi, lo, hi);
          PermutedTwice(s0, s, a[..], lo, hi);
          if good { EqualLeft(cmp, s, v, lo, plt, pi, pj, pgt, hi); }
          plt := plt + 1;
        } else {
          if good { LessLeft(cmp, s, v, lo, plt, pi, pj, pgt, hi); }
        }
        pi := pi + 1;
      }
    }

    /** The scan from the right, which stops on an element smaller than the pivot or where the scans meet. */
    method ScanRight(lo: nat, plt: nat, pi: nat, pj0: nat, pgt0: nat, hi: nat, ghost v: T) returns (pj: int, pgt: nat)
      requires lo < plt <= pi <= pj0 <= pgt0 <= hi <= a.Length
      modifies this, a
      ensures Permuted(old(a[..]), a[..], lo, hi) && pi - 1 <= pj < pj0 && pi <= pgt <= pgt0 && pj <= pgt
      ensures pj > pi ==> pj < pgt
      ensures
        && Preorder(cmp)
        && old(Zones(cmp, a[..], v, lo, plt, pi, pj0, pgt0, hi) && (pi < pj0 ==> Le(cmp, v, a[pi]))) ==>
        && (pj > pi ==> Zones(cmp, a[..], v, lo, plt, pi, pj + 1, pgt, hi) && Le(cmp, v, a[pi]) && Le(cmp, a[pj], v))
        && (pj <= pi ==> Zones(cmp, a[..], v, lo, plt, pi, pi, pgt, hi))
    {
      hide Preorder, Le, Permuted, Swapped, Zones;
      ghost var s0 := a[..];
      ghost var good :=
        Preorder(cmp) && Zones(cmp, a[..], v, lo, plt, pi, pj0, pgt0, hi) && (pi < pj0 ==> Le(cmp, v, a[pi]));
      PermutedSelf(s0, lo, hi);
      pj, pgt := pj0, pgt0;
      while true
        invariant pi <= pj <= pj0 && pj <= pgt <= pgt0 && Permuted(s0, a[..], lo, hi)
        invariant good ==> Zones(cmp, a[..], v, lo, plt, pi, pj, pgt, hi) && (pi < pj ==> Le(cmp, v, a[pi]))
        decreases pj
      {
        ghost var s := a[..];
        pj := pj - 1;
        if pi >= pj {
          if good && pi == pj { MeetRight(cmp, s, v, lo, plt, pi, pgt, hi); }
          break;
        }
        var c := Compare(lo, pj);
        assert a[..] == s;
        if good { PivotIs(cmp, s, v, lo, plt, pi, pj + 1, pgt, hi); }
        if c > 0 {
          break;
        }
        if c == 0 {
          pgt := pgt - 1;
          Swap(pgt, pj);
          SwapPermutes(s, pgt, pj, lo, hi);
          PermutedTwice(s0, s, a[..], lo, hi);
          if good { EqualRight(cmp, s, v, lo, plt, pi, pj, pgt + 1, hi); }
        } else {
          if good { GreaterRight(cmp, s, v, lo, plt, pi, pj, pgt, hi); }
        }
      }
    }

    /** Both scans and the exchange between them, until they meet. */
    method ScanBoth(lo: nat, hi: nat, ghost v: T) returns (plt: nat, pi: nat, pgt: nat)
      requires lo < hi <= a.Length && a[lo] == v
      modifies this, a
      ensures Permuted(old(a[..]), a[..], lo, hi) && lo < plt <= pi <= pgt <= hi
      ensures Preorder(cmp) ==> Zones(cmp, a[..], v, lo, plt, pi, pi, pgt, hi)
    {
      hide Preorder, Le, Permuted, Swapped, Zones;
      ghost var s0 := a[..];
      PermutedSelf(s0, lo, hi);
      plt, pi, pgt := lo + 1, lo + 1, hi;
      var pj: int := hi;
      if Preorder(cmp) { ZonesStart(cmp, s0, v, lo, hi); }
      while true
        invariant lo < plt <= pi <= pj <= pgt <= hi && Permuted(s0, a[..], lo, hi)
        invariant Preorder(cmp) ==> Zones(cmp, a[..], v, lo, plt, pi, pj, pgt, hi)
        decreases pj - pi
      {
        ghost var s := a[..];
        plt, pi := ScanLeft(lo, plt, pi, pj, pgt, hi, v);
        PermutedTwice(s0, s, a[..], lo, hi);
        s := a[..];
        pj, pgt := ScanRight(lo, plt, pi, pj, pgt, hi, v);
        PermutedTwice(s0, s, a[..], lo, hi);
        s := a[..];
        if pi >= pj {
          break;
        }
        Swap(pi, pj);
        SwapPermutes(s, pi, pj, lo, hi);
        PermutedTwice(s0, s, a[..], lo, hi);
        if Preorder(cmp) { Exchange(cmp, s, v, lo, plt, pi, pj, pgt, hi); }
        pi := pi + 1;
      }
    }

    /** swap_block: two stretches that do not overlap, element by element. */
    method SwapBlock(x: nat, y: nat, n: nat, ghost lo: nat, ghost hi: nat)
      requires lo <= x && x + n <= y && y + n <= hi <= a.Length
      modifies a
      ensures BlocksSwapped(old(a[..]), a[..], x, y, n) && Permuted(old(a[..]), a[..], lo, hi)
    {
      hide Permuted, Swapped;
      ghost var s0 := a[..];
      PermutedSelf(s0, lo, hi);
      var k := 0;
      while k < n
        invariant 0 <= k <= n && Permuted(s0, a[..], lo, hi)
        invariant BlocksSwapped(s0, a[..], x, y, k)
      {
        ghost var s := a[..];
        Swap(x + k, y + k);
        SwapPermutes(s, x + k, y + k, lo, hi);
        PermutedTwice(s0, s, a[..], lo, hi);
        OneMore(s0, s, x, y, k);
        k := k + 1;
      }
    }

    /** One partition of rqsort around a median of three. */
    method Partition(lo: nat, n: nat) returns (p1: nat, p2: nat, ghost v: T)
      requires n > 6 && lo + n <= a.Length
      modifies this, a
      ensures Permuted(old(a[..]), a[..], lo, lo + n) && lo <= p1 < p2 <= lo + n
      ensures Preorder(cmp) ==> Split(cmp, a[..], v, lo, p1, p2, lo + n)
    {
      hide Preorder, Le, Permuted, Swapped, Zones, Split, BlocksSwapped, AtMost, AtLeast;
      ghost var s0 := a[..];
      var hi := lo + n;
      var m4 := n / 4;
      var m := Med3(lo + m4, lo + 2 * m4, lo + 3 * m4);
      assert a[..] == s0;
      Swap(lo, m);
      ghost var s := a[..];
      SwapPermutes(s0, lo, m, lo, hi);
      v := a[lo];
      var plt, pi, pgt := ScanBoth(lo, hi, v);
      PermutedTwice(s0, s, a[..], lo, hi);
      s := a[..];
      Gather(lo, plt, pi, pgt, hi, v);
      PermutedTwice(s0, s, a[..], lo, hi);
      p1, p2 := lo + (pi - plt), hi - (pgt - pi);
    }

    /** The elements equal to the pivot, brought from both ends to the middle. */
    method Gather(lo: nat, plt: nat, pi: nat, pgt: nat, hi: nat, ghost v: T)
      requires lo < plt <= pi <= pgt <= hi <= a.Length
      modifies a
      ensures Permuted(old(a[..]), a[..], lo, hi)
      ensures old(Zones(cmp, a[..], v, lo, plt, pi, pi, pgt, hi)) ==>
        Split(cmp, a[..], v, lo, lo + (pi - plt), hi - (pgt - pi), hi)
    {
      hide Le, Permuted, Swapped, Zones, Split, BlocksSwapped, AtMost, AtLeast;
      ghost var s := a[..];
      ghost var good := Zones(cmp, s, v, lo, plt, pi, pi, pgt, hi);
      var span := if plt - lo > pi - plt then pi - plt else plt - lo;
      SwapBlock(lo, pi - span, span, lo, hi);
      ghost var t := a[..];
      if good { GatherLeft(cmp, s, t, v, lo, plt, pi, pgt, hi, span); }
      span := if hi - pgt > pgt - pi then pgt - pi else hi - pgt;
      SwapBlock(pi, hi - span, span, lo, hi);
      PermutedTwice(s, t, a[..], lo, hi);
      if good { GatherRight(cmp, t, a[..], v, lo, lo + (pi - plt), pi, pgt, hi, span); }
    }

    /** The stack below `sp`, with the current range on top. */
    ghost predicate Sorting(stack: array<Frame>, sp: nat, f: Frame, s0: seq<T>)
      reads stack, a
    {
      && (stack as object) != (a as object) && stack.Length == 50 && sp <= 50
      && Permuted(s0, a[..], 0, a.Length) && Disjoint(stack[..sp] + [f], a.Length) && Climbing(stack[..sp])
      && (Preorder(cmp) ==> InOrderBut(cmp, a[..], stack[..sp] + [f]))
      && 0 <= f.depth && (sp > 0 ==> stack[sp - 1].depth <= f.depth)
    }

    /** One turn of the splitting loop: the larger end goes on the stack, the smaller is left. */
    method SplitRange(stack: array<Frame>, sp0: nat, f: Frame, ghost s0: seq<T>) returns (sp: nat, g: Frame)
      requires Sorting(stack, sp0, f, s0) && f.count > 6 && f.depth < 50
      modifies this, a, stack
      ensures Sorting(stack, sp, g, s0) && g.count < f.count && g.depth == f.depth + 1
      ensures Weight(stack[..sp] + [g]) < Weight(old(stack[..sp0]) + [f])
    {
      hide Preorder, Le, Permuted, InOrderBut, Disjoint, Weight, Climbing, Split;
      ghost var s, below := a[..], stack[..sp0];
      DisjointPop(below, f, a.Length);
      var ptr, nmemb, depth := f.base, f.count, f.depth + 1;
      var p1, p2, v := Partition(ptr, nmemb);
      ghost var t := a[..];
      PermutedWider(s, t, ptr, ptr + nmemb, 0, a.Length);
      PermutedTwice(s0, s, t, 0, a.Length);
      var left, right := Frame(ptr, p1 - ptr, depth), Frame(p2, ptr + nmemb - p2, depth);
      var h: Frame;
      if left.count > right.count {
        h, g := left, right;
      } else {
        h, g := right, left;
      }
      ClimbingPush(below, h);
      stack[sp0] := h;
      sp := sp0 + 1;
      assert stack[..sp] == below + [h];
      SplitDisjoint(below, f, a.Length, p1, p2, h, g);
      WeightPush(below, f);
      WeightPush(below, h);
      WeightPush(below + [h], g);
      if Preorder(cmp) {
        RearrangeKeeps(cmp, s, t, below, f);
        SplitKeeps(cmp, t, below, f, v, p1, p2, h, g);
      }
    }

    /** What rqsort does with an entry it takes off the stack: too deep a range is left to heapsortx. */
    method SortFrame(stack: array<Frame>, sp0: nat, f: Frame, ghost s0: seq<T>) returns (sp: nat)
      requires Sorting(stack, sp0, f, s0) && f.depth <= 50
      modifies this, a, stack
      ensures sp <= 50 && Permuted(s0, a[..], 0, a.Length) && Disjoint(stack[..sp], a.Length) && Climbing(stack[..sp])
      ensures Preorder(cmp) ==> InOrderBut(cmp, a[..], stack[..sp])
      ensures Weight(stack[..sp]) < Weight(old(stack[..sp0]) + [f])
    {
      hide Preorder, Le, Permuted, InOrderBut, Disjoint, Weight, Climbing;
      ghost var w := Weight(stack[..sp0] + [f]);
      var g := f;
      sp := sp0;
      while g.count > 6
        invariant Sorting(stack, sp, g, s0) && Weight(stack[..sp] + [g]) <= w && g.depth <= 50
        decreases g.count
      {
        if g.depth + 1 > 50 {
          break;
        }
        sp, g := SplitRange(stack, sp, g, s0);
      }
      ghost var s, below := a[..], stack[..sp];
      DisjointPop(below, g, a.Length);
      WeightPush(below, g);
      if g.count > 6 {
        HeapSort(g.base, g.count);
      } else {
        InsertionSort(g.base, g.base + g.count);
      }
      PermutedWider(s, a[..], g.base, g.base + g.count, 0, a.Length);
      PermutedTwice(s0, s, a[..], 0, a.Length);
      if Preorder(cmp) {
        RearrangeKeeps(cmp, s, a[..], below, g);
        Settle(cmp, a[..], below, g);
      }
    }

    /**
      * rqsort. For any comparator at all it ends, only rearranges the elements, stays within the array and within
      * its fifty stack entries; for a consistent one the array ends up sorted.
      */
    method Rqsort()
      modifies this, a
      ensures Permuted(old(a[..]), a[..], 0, a.Length)
      ensures Preorder(cmp) ==> SortedRange(cmp, a[..], 0, a.Length)
    {
      hide Preorder, Le, Permuted, InOrderBut, Disjoint, Weight, Climbing;
      ghost var s0 := a[..];
      ghost var n := a.Length;
      PermutedSelf(s0, 0, n);
      if a.Length < 2 {
        return;
      }
      var stack := new Frame[50];
      stack[0] := Frame(0, a.Length, 0);
      var sp := 1;
      assert stack[..1] == [Frame(0, n, 0)];
      AllPending(cmp, a[..], stack[0]);
      ghost var first := true;
      ClimbingNone();
      while sp > 0
        invariant 0 <= sp <= 50 && Permuted(s0, a[..], 0, n) && Disjoint(stack[..sp], n)
        invariant Preorder(cmp) ==> InOrderBut(cmp, a[..], stack[..sp])
        invariant if first then sp == 1 && stack[0].depth == 0 else Climbing(stack[..sp])
        decreases Weight(stack[..sp])
      {
        sp := sp - 1;
        var f := stack[sp];
        ghost var below := stack[..sp];
        assert stack[..sp + 1] == below + [f];
        if !first { ClimbingPop(below, f); }
        first := false;
        sp := SortFrame(stack, sp, f, s0);
      }
      if Preorder(cmp) { NothingPending(cmp, a[..]); }
    }
  }
}
