/**
  * uaio_reap_closes_before_accepts of src/dyna-aio-uring.c: two passes over the completion queue, which may grow
  * while it is read. A completion is told by the low three bits of its word; 0 is an accept, and also every
  * word that is a tagged address.
  */
module UringReap {
  import opened UringRecv

  predicate IsAccept(ud: nat) {
    UnpackOp(ud) == 0
  }

  /** Where the words of one kind stand, in order. */
  function Places(cq: seq<nat>, accept: bool): (p: seq<nat>)
    ensures forall i :: 0 <= i < |p| ==> p[i] < |cq| && IsAccept(cq[p[i]]) == accept
    ensures forall i, j :: 0 <= i < j < |p| ==> p[i] < p[j]
  {
    if cq == [] then []
    else
      var k := |cq| - 1;
      var p := Places(cq[..k], accept);
      assert forall i :: 0 <= i < |p| ==> cq[..k][p[i]] == cq[p[i]];
      p + if IsAccept(cq[k]) == accept then [k] else []
  }

  /** The words of one kind, in order. */
  function Only(cq: seq<nat>, accept: bool): (r: seq<nat>)
    ensures |r| == |Places(cq, accept)| && forall i :: 0 <= i < |r| ==> r[i] == cq[Places(cq, accept)[i]]
  {
    var p := Places(cq, accept);
    seq(|p|, i requires 0 <= i < |p| => cq[p[i]])
  }

  lemma OnlyStep(cq: seq<nat>, i: nat, accept: bool)
    requires i < |cq|
    ensures Only(cq[..i + 1], accept) == Only(cq[..i], accept) + if IsAccept(cq[i]) == accept then [cq[i]] else []
  {
    assert cq[..i + 1][..i] == cq[..i];
  }

  lemma {:induction false} EachKind(cq: seq<nat>, i: nat)
    requires i <= |cq|
    ensures |Only(cq[..i], false)| + |Only(cq[..i], true)| == i
    decreases i
  {
    hide Only, IsAccept;
    OnlyNone();
    if i > 0 {
      EachKind(cq, i - 1);
      OnlyStep(cq, i - 1, false);
      OnlyStep(cq, i - 1, true);
    } else {
      assert cq[..0] == [];
    }
  }

  lemma OnlyNone()
    ensures Only([], false) == [] && Only([], true) == []
  {}

  /** What has come, in order of arrival. */
  function Concat(arrivals: seq<seq<nat>>): (r: seq<nat>) {
    if arrivals == [] then [] else Concat(arrivals[..|arrivals| - 1]) + arrivals[|arrivals| - 1]
  }

  /** A queue that got one batch of arrivals after each word that was read, for as long as there were any. */
  predicate Grown(cq0: seq<nat>, arrivals: seq<seq<nat>>, read: nat, cq: seq<nat>) {
    cq == cq0 + Concat(arrivals[..if read < |arrivals| then read else |arrivals|])
  }

  lemma GrownStep(cq0: seq<nat>, arrivals: seq<seq<nat>>, read: nat, cq: seq<nat>)
    requires Grown(cq0, arrivals, read, cq)
    ensures Grown(cq0, arrivals, read + 1, if read < |arrivals| then cq + arrivals[read] else cq)
  {
    if read < |arrivals| {
      assert arrivals[..read + 1][..read] == arrivals[..read];
      assert (cq0 + Concat(arrivals[..read])) + arrivals[read] == cq0 + (Concat(arrivals[..read]) + arrivals[read]);
    }
  }

  lemma GrownNone(cq0: seq<nat>, arrivals: seq<seq<nat>>)
    ensures Grown(cq0, arrivals, 0, cq0)
  {
    assert arrivals[..0] == [];
  }

  /** The first pass: all but the accepts, while the kernel adds completions. */
  method FirstPass(cq0: seq<nat>, arrivals: seq<seq<nat>>) returns (cq: seq<nat>, order: seq<nat>, accepts: nat)
    ensures Grown(cq0, arrivals, |cq|, cq) && order == Only(cq, false) && accepts == |Only(cq, true)|
  {
    hide Only, IsAccept, Grown;
    GrownNone(cq0, arrivals);
    cq, order, accepts := cq0, [], 0;
    var head, budget := 0, 0;
    OnlyNone();
    assert cq[..0] == [];
    while head < |cq|
      invariant 0 <= head <= |cq| && budget == (if head < |arrivals| then head else |arrivals|)
      invariant Grown(cq0, arrivals, head, cq)
      invariant order == Only(cq[..head], false) && accepts == |Only(cq[..head], true)|
      decreases |arrivals| - budget, |cq| - head
    {
      OnlyStep(cq, head, false);
      OnlyStep(cq, head, true);
      if IsAccept(cq[head]) {
        accepts := accepts + 1;
      } else {
        order := order + [cq[head]];
      }
      ghost var was := cq;
      GrownStep(cq0, arrivals, head, cq);
      head := head + 1;
      if budget < |arrivals| {
        cq := cq + arrivals[budget];
        budget := budget + 1;
      }
      assert cq[..head] == was[..head];
    }
    assert cq[..|cq|] == cq;
  }

  /** The second pass: the accepts among the first `n`, whatever has come since. */
  method SecondPass(cq: seq<nat>, n: nat) returns (order: seq<nat>)
    requires n <= |cq|
    ensures order == Only(cq[..n], true)
  {
    hide Only, IsAccept;
    order := [];
    var i := 0;
    OnlyNone();
    assert cq[..0] == [];
    while i < |cq|
      invariant 0 <= i <= n && order == Only(cq[..i], true)
      decreases |cq| - i
    {
      if i == n {
        break;
      }
      OnlyStep(cq, i, true);
      if IsAccept(cq[i]) {
        order := order + [cq[i]];
      }
      i := i + 1;
    }
  }

  /**
    * The order of the two passes: the completion dispatched at `i` stood at `places[i]`. All are dispatched, each once,
    * the accepts after all others, and those of one kind in the order in which they stood.
    */
  ghost predicate Order(seen: seq<nat>, order: seq<nat>, places: seq<nat>) {
    && |places| == |order| == |seen|
    && (forall i :: 0 <= i < |places| ==> places[i] < |seen| && order[i] == seen[places[i]])
    && (forall i, j :: 0 <= i < j < |order| ==> places[i] != places[j])
    && (forall i, j :: 0 <= i < j < |order| && IsAccept(order[i]) ==> IsAccept(order[j]))
    && (forall i, j :: 0 <= i < j < |order| && IsAccept(order[i]) == IsAccept(order[j]) ==> places[i] < places[j])
  }

  lemma InOrder(seen: seq<nat>)
    ensures Order(seen, Only(seen, false) + Only(seen, true), Places(seen, false) + Places(seen, true))
  {
    hide IsAccept, Only;
    assert seen[..|seen|] == seen;
    EachKind(seen, |seen|);
    var a, b := Places(seen, false), Places(seen, true);
    var order := Only(seen, false) + Only(seen, true);
    assert forall i :: 0 <= i < |order| ==> (IsAccept(order[i]) <==> i >= |a|);
  }

  /**
    * Every completion that was there, or came while the first pass ran, is dispatched exactly once: first everything
    * that is not an accept, then the accepts, each in queue order. Later arrivals stay in the queue.
    */
  method Reap(cq0: seq<nat>, arrivals: seq<seq<nat>>, later: seq<nat>)
    returns (order: seq<nat>, seen: seq<nat>, left: seq<nat>, ghost places: seq<nat>)
    ensures Grown(cq0, arrivals, |seen|, seen) && left == later && Order(seen, order, places)
  {
    hide Only, IsAccept, Order, Places, Grown;
    var accepts;
    seen, order, accepts := FirstPass(cq0, arrivals);
    InOrder(seen);
    places := Places(seen, false) + Places(seen, true);
    var cq := seen + later;
    assert cq[..|seen|] == seen;
    if accepts > 0 {
      var more := SecondPass(cq, |seen|);
      order := order + more;
    } else {
      assert order + Only(seen, true) == order;
    }
    left := cq[|seen|..];
  }
}
