/**
  * A row of attempts at a socket, as aio_send_raw and aio_sendfile_step of src/dyna-aio.c and uaio_send_raw of
  * src/dyna-aio-uring.c make it: how far it gets and how it ends, told by the loop and told by positions in the row.
  */
module Attempts {
  const EIO: int := 5

  type Errno = x: int | x > 0 witness 1

  /** The answers of a socket to one attempt. */
  datatype Answer = Sent(n: nat) | Interrupted | WouldBlock | Failure(errno: Errno)

  // ----- the loop -----

  /** The bytes one attempt moves when `rest` are left; a socket that takes any takes at least one. */
  function Taken(n: nat, rest: nat): (k: nat)
    ensures k <= rest && (rest > 0 ==> k > 0)
  {
    if n > rest || rest == 0 then rest else if n == 0 then 1 else n
  }

  /** How far a row of attempts gets, from `off` towards `end`. */
  function Reach(off: nat, end: nat, answers: seq<Answer>): (r: nat)
    requires off <= end
    ensures off <= r <= end
    decreases |answers|
  {
    if answers == [] || off == end then off
    else match answers[0]
      case Sent(n) => Reach(off + Taken(n, end - off), end, answers[1..])
      case Interrupted => Reach(off, end, answers[1..])
      case _ => off
  }

  /** The error a row of attempts at `len` bytes ends with, of which only `end` are there; 0 for none. */
  function Stop(off: nat, end: nat, len: nat, answers: seq<Answer>): (error: int)
    requires off <= end <= len
    ensures error <= 0 && (error < 0 ==> Reach(off, end, answers) < len)
    decreases |answers|
  {
    if answers == [] || off == len then 0
    else match answers[0]
      case Sent(n) => if off == end then -EIO else Stop(off + Taken(n, end - off), end, len, answers[1..])
      case Interrupted => Stop(off, end, len, answers[1..])
      case WouldBlock => 0
      case Failure(errno) => -(errno as int)
  }

  /** One turn of the loop, at answer `i`. */
  lemma RowStep(off: nat, end: nat, len: nat, answers: seq<Answer>, i: nat)
    requires i < |answers| && off <= end <= len && off < len
    ensures
      var r, error := Reach(off, end, answers[i..]), Stop(off, end, len, answers[i..]);
      match answers[i]
      case Sent(n) =>
        if off == end then r == off && error == -EIO
        else
          var off' := off + Taken(n, end - off);
          r == Reach(off', end, answers[i + 1..]) && error == Stop(off', end, len, answers[i + 1..])
      case Interrupted => r == Reach(off, end, answers[i + 1..]) && error == Stop(off, end, len, answers[i + 1..])
      case WouldBlock => r == off && error == 0
      case Failure(errno) => r == off && error == -(errno as int)
  {
    assert answers[i..][0] == answers[i] && answers[i..][1..] == answers[i + 1..];
    AtEnd(end, answers[i + 1..]);
  }

  lemma RowEnd(off: nat, end: nat, len: nat, answers: seq<Answer>)
    requires off <= end <= len
    ensures answers == [] ==> Reach(off, end, answers) == off && Stop(off, end, len, answers) == 0
    ensures off == len ==> Reach(off, end, answers) == off && Stop(off, end, len, answers) == 0
  {}

  // ----- positions in the row -----

  /** What an answer takes when it is offered enough. */
  function Offer(a: Answer): (n: nat) {
    match a case Sent(n) => if n == 0 then 1 else n case _ => 0
  }

  function Offered(answers: seq<Answer>): (n: nat) {
    if answers == [] then 0 else Offer(answers[0]) + Offered(answers[1..])
  }

  /** Where the row stands before its answer `i`, if it gets there. */
  function Position(off: nat, end: nat, answers: seq<Answer>, i: nat): (p: nat)
    requires i <= |answers|
  {
    var p := off + Offered(answers[..i]);
    if p < end then p else end
  }

  /** The row gets past its first `i` answers: each is an interruption, or takes bytes while there are some. */
  predicate Passes(off: nat, end: nat, answers: seq<Answer>, i: nat) {
    && i <= |answers|
    && forall j :: 0 <= j < i ==>
         answers[j].Interrupted? || (answers[j].Sent? && Position(off, end, answers, j) < end)
  }

  /** The row ends with an error at its answer `i`: the socket's own, or EIO when there is nothing left to send. */
  predicate FailsAt(off: nat, end: nat, len: nat, answers: seq<Answer>, i: nat, error: int) {
    && i < |answers| && Passes(off, end, answers, i) && Position(off, end, answers, i) < len
    && match answers[i]
       case Failure(errno) => error == -(errno as int)
       case Sent(_) => Position(off, end, answers, i) == end && error == -EIO
       case _ => false
  }

  /** The row ends in peace before its answer `i`: there is none, all is sent, or the socket blocks. */
  predicate RestsAt(off: nat, end: nat, len: nat, answers: seq<Answer>, i: nat) {
    && i <= |answers| && Passes(off, end, answers, i)
    && (i == |answers| || Position(off, end, answers, i) == len || answers[i].WouldBlock?)
  }

  /** The end of a row by positions: how far it got and with what error. */
  ghost predicate Outcome(off: nat, end: nat, len: nat, answers: seq<Answer>, r: nat, error: int) {
    if error == 0 then
      exists i {:trigger RestsAt(off, end, len, answers, i)} ::
        RestsAt(off, end, len, answers, i) && r == Position(off, end, answers, i)
    else
      exists i {:trigger FailsAt(off, end, len, answers, i, error)} ::
        FailsAt(off, end, len, answers, i, error) && r == Position(off, end, answers, i)
  }

  // ----- both agree -----

  lemma PositionStart(off: nat, end: nat, answers: seq<Answer>)
    requires off <= end
    ensures Position(off, end, answers, 0) == off
  {
    assert answers[..0] == [];
  }

  /** One answer further on, seen from the rest of the row. */
  lemma PositionStep(off: nat, end: nat, answers: seq<Answer>, i: nat)
    requires off <= end && answers != [] && i < |answers| && Passes(off, end, answers, 1)
    ensures
      var off' := if answers[0].Sent? then off + Taken(answers[0].n, end - off) else off;
      Position(off, end, answers, i + 1) == Position(off', end, answers[1..], i)
  {
    PositionStart(off, end, answers);
    assert answers[..i + 1][0] == answers[0] && answers[..i + 1][1..] == answers[1..][..i];
  }

  lemma PassesStep(off: nat, end: nat, answers: seq<Answer>, i: nat)
    requires off <= end && answers != [] && i < |answers|
    requires answers[0].Interrupted? || (answers[0].Sent? && off < end)
    ensures
      var off' := if answers[0].Sent? then off + Taken(answers[0].n, end - off) else off;
      Passes(off', end, answers[1..], i) ==> Passes(off, end, answers, i + 1)
  {
    hide Position;
    PositionStart(off, end, answers);
    var off' := if answers[0].Sent? then off + Taken(answers[0].n, end - off) else off;
    if Passes(off', end, answers[1..], i) {
      forall j | 0 <= j < i + 1
        ensures answers[j].Interrupted? || (answers[j].Sent? && Position(off, end, answers, j) < end)
      {
        if j > 0 {
          PositionStep(off, end, answers, j - 1);
          assert answers[j] == answers[1..][j - 1];
        }
      }
    }
  }

  /** The answer at which the loop ends, and that it ends there as the positions say. */
  lemma {:induction false} LoopEnds(off: nat, end: nat, len: nat, answers: seq<Answer>) returns (i: nat)
    requires off <= end <= len
    ensures
      var r, error := Reach(off, end, answers), Stop(off, end, len, answers);
      && i <= |answers| && r == Position(off, end, answers, i)
      && if error == 0 then RestsAt(off, end, len, answers, i) else FailsAt(off, end, len, answers, i, error)
    decreases |answers|
  {
    hide Position, Passes;
    i := 0;
    PositionStart(off, end, answers);
    assert Passes(off, end, answers, 0) by { PassesNone(off, end, answers); }
    if answers != [] && off < len && (answers[0].Interrupted? || (answers[0].Sent? && off < end)) {
      var off' := if answers[0].Sent? then off + Taken(answers[0].n, end - off) else off;
      var k := LoopEnds(off', end, len, answers[1..]);
      LoopStep(off, end, len, answers, off');
      PassesStep(off, end, answers, k);
      PassesNext(off, end, answers);
      PositionStep(off, end, answers, k);
      i := k + 1;
      if i < |answers| { assert answers[i] == answers[1..][k]; }
    } else {
      ReachStays(off, end, len, answers);
    }
  }

  lemma PassesNone(off: nat, end: nat, answers: seq<Answer>)
    ensures Passes(off, end, answers, 0)
  {}

  lemma PassesNext(off: nat, end: nat, answers: seq<Answer>)
    requires off <= end && answers != [] && (answers[0].Interrupted? || (answers[0].Sent? && off < end))
    ensures Passes(off, end, answers, 1)
  {
    PositionStart(off, end, answers);
  }

  lemma LoopStep(off: nat, end: nat, len: nat, answers: seq<Answer>, off': nat)
    requires off <= end <= len && answers != [] && off < len
    requires answers[0].Interrupted? || (answers[0].Sent? && off < end)
    requires off' == if answers[0].Sent? then off + Taken(answers[0].n, end - off) else off
    ensures Stop(off, end, len, answers) == Stop(off', end, len, answers[1..])
    ensures Reach(off, end, answers) == Reach(off', end, answers[1..])
  {
    if off == end { AtEnd(end, answers[1..]); }
  }

  lemma AtEnd(end: nat, answers: seq<Answer>)
    ensures Reach(end, end, answers) == end
  {}

  lemma ReachStays(off: nat, end: nat, len: nat, answers: seq<Answer>)
    requires off <= end <= len
    requires
      || answers == [] || off == len || answers[0].WouldBlock? || answers[0].Failure?
      || (answers[0].Sent? && off == end)
    ensures Reach(off, end, answers) == off
    ensures
      Stop(off, end, len, answers)
        == if answers == [] || off == len || answers[0].WouldBlock? then 0
           else if answers[0].Failure? then -(answers[0].errno as int) else -EIO
  {}

  /** The loop gets as far, and ends with the error, that the positions say. */
  lemma LoopOutcome(off: nat, end: nat, len: nat, answers: seq<Answer>)
    requires off <= end <= len
    ensures Outcome(off, end, len, answers, Reach(off, end, answers), Stop(off, end, len, answers))
  {
    hide RestsAt, FailsAt, Position;
    var i := LoopEnds(off, end, len, answers);
  }

  /** A row ends at one answer only. */
  lemma OneEnd(off: nat, end: nat, len: nat, answers: seq<Answer>, i: nat, j: nat, error: int)
    requires end <= len && FailsAt(off, end, len, answers, i, error)
    ensures RestsAt(off, end, len, answers, j) ==> false
    ensures forall e :: FailsAt(off, end, len, answers, j, e) ==> j == i && e == error
  {
    hide Offered;
    if j < i { PositionGrows(off, end, answers, j, i); }
  }

  lemma PositionGrows(off: nat, end: nat, answers: seq<Answer>, j: nat, i: nat)
    requires j <= i <= |answers|
    ensures Position(off, end, answers, j) <= Position(off, end, answers, i)
  {
    assert answers[..i] == answers[..j] + answers[j..i];
    OfferedConcat(answers[..j], answers[j..i]);
  }

  lemma {:induction false} OfferedConcat(a: seq<Answer>, b: seq<Answer>)
    ensures Offered(a + b) == Offered(a) + Offered(b)
    decreases |a|
  {
    if a == [] {
      assert a + b == b;
    } else {
      assert (a + b)[1..] == a[1..] + b;
      OfferedConcat(a[1..], b);
    }
  }

  /** The end is determined by the positions: a row fails with an error if and only if some answer makes it fail so. */
  lemma StopIs(off: nat, end: nat, len: nat, answers: seq<Answer>, error: int)
    requires off <= end <= len && error != 0
    ensures Stop(off, end, len, answers) == error <==> exists i :: FailsAt(off, end, len, answers, i, error)
  {
    hide RestsAt, FailsAt, Position;
    var k := LoopEnds(off, end, len, answers);
    if i :| FailsAt(off, end, len, answers, i, error) { OneEnd(off, end, len, answers, i, k, error); }
  }

  /** A row ends without an error if and only if the answers run out, all is sent, or the socket blocks. */
  lemma RestIs(off: nat, end: nat, len: nat, answers: seq<Answer>)
    requires off <= end <= len
    ensures Stop(off, end, len, answers) == 0 <==> exists i :: RestsAt(off, end, len, answers, i)
  {
    hide RestsAt, FailsAt, Position;
    var k := LoopEnds(off, end, len, answers);
    if i :| RestsAt(off, end, len, answers, i) {
      if Stop(off, end, len, answers) != 0 { OneEnd(off, end, len, answers, k, i, Stop(off, end, len, answers)); }
    }
  }

  // ----- closed forms -----

  /** The answers before the first that blocks or fails. */
  function Passed(answers: seq<Answer>): (k: nat)
    ensures k <= |answers| && (k < |answers| ==> answers[k].WouldBlock? || answers[k].Failure?)
    ensures forall j :: 0 <= j < k ==> answers[j].Sent? || answers[j].Interrupted?
  {
    if answers == [] || answers[0].WouldBlock? || answers[0].Failure? then 0
    else
      var k := Passed(answers[1..]);
      assert forall j :: 1 <= j <= k ==> answers[j] == answers[1..][j - 1];
      k + 1
  }

  /** A row gets as far as the answers before the first that blocks or fails take it, and never past the end. */
  lemma {:induction false} ReachIs(off: nat, end: nat, answers: seq<Answer>)
    requires off <= end
    ensures Reach(off, end, answers) == Position(off, end, answers, Passed(answers))
    decreases |answers|
  {
    hide Position, Passed;
    PositionStart(off, end, answers);
    if off == end {
      PositionEnd(end, answers, Passed(answers));
    } else if answers != [] && (answers[0].Sent? || answers[0].Interrupted?) {
      var off' := if answers[0].Sent? then off + Taken(answers[0].n, end - off) else off;
      ReachIs(off', end, answers[1..]);
      PassedStep(answers);
      PassesNext(off, end, answers);
      PositionStep(off, end, answers, Passed(answers[1..]));
    } else {
      PassedStep(answers);
    }
  }

  lemma PositionEnd(end: nat, answers: seq<Answer>, i: nat)
    requires i <= |answers|
    ensures Position(end, end, answers, i) == end
  {}

  lemma PassedStep(answers: seq<Answer>)
    ensures answers == [] || answers[0].WouldBlock? || answers[0].Failure? ==> Passed(answers) == 0
    ensures answers != [] && (answers[0].Sent? || answers[0].Interrupted?) ==>
      Passed(answers) == 1 + Passed(answers[1..])
  {}

  /** A send of `len` bytes fails at answer `i`: the first that does not pass, with bytes left to send before it. */
  predicate RefusedAt(len: nat, answers: seq<Answer>, i: nat) {
    && i < |answers| && answers[i].Failure? && Offered(answers[..i]) < len
    && forall j :: 0 <= j < i ==> answers[j].Sent? || answers[j].Interrupted?
  }

  /** A direct send is refused if and only if some answer refuses it. */
  lemma SendRefused(len: nat, answers: seq<Answer>)
    ensures Stop(0, len, len, answers) != 0 <==> exists i: nat :: RefusedAt(len, answers, i)
  {
    hide RefusedAt, FailsAt, RestsAt, Position;
    if Stop(0, len, len, answers) != 0 {
      var k := LoopEnds(0, len, len, answers);
      RefusedMeans(len, answers, k, Stop(0, len, len, answers));
    }
    if i: nat :| RefusedAt(len, answers, i) { RefusedWith(len, answers, i); }
  }

  /** It is refused with the error of that answer. */
  lemma RefusedWith(len: nat, answers: seq<Answer>, i: nat)
    requires RefusedAt(len, answers, i)
    ensures Stop(0, len, len, answers) == -(answers[i].errno as int) < 0
  {
    RefusedFails(len, answers, i);
    StopIs(0, len, len, answers, -(answers[i].errno as int));
  }

  lemma RefusedMeans(len: nat, answers: seq<Answer>, i: nat, error: int)
    requires FailsAt(0, len, len, answers, i, error)
    ensures RefusedAt(len, answers, i)
  {}

  lemma RefusedFails(len: nat, answers: seq<Answer>, i: nat)
    requires RefusedAt(len, answers, i)
    ensures FailsAt(0, len, len, answers, i, -(answers[i].errno as int))
  {
    hide Offered;
    forall j | 0 <= j < i
      ensures answers[j].Interrupted? || (answers[j].Sent? && Position(0, len, answers, j) < len)
    {
      PositionGrows(0, len, answers, j, i);
    }
  }

  /**
    * A file that ends before its range: as soon as an attempt is made with all of it on the wire, and nothing blocked
    * or failed before, the row ends with EIO.
    */
  lemma EndsShort(off: nat, end: nat, len: nat, answers: seq<Answer>, i: nat)
    requires off <= end < len && i < |answers| && answers[i].Sent? && off + Offered(answers[..i]) >= end
    requires forall j :: 0 <= j < i ==> answers[j].Sent? || answers[j].Interrupted?
    ensures Stop(off, end, len, answers) == -EIO
    decreases i
  {
    hide Offered;
    if j :| 0 <= j < i && answers[j].Sent? && off + Offered(answers[..j]) >= end {
      EndsShort(off, end, len, answers, j);
    } else {
      assert FailsAt(off, end, len, answers, i, -EIO);
      StopIs(off, end, len, answers, -EIO);
    }
  }
}
